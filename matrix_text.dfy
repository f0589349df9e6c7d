/** The text form of a matrix: splitting a string the way repeated `getline`
    calls with a delimiter do, the decimal subset of `stod`, the `<<` printer,
    and the value `FromString` builds, with the round trip from printing back
    to parsing. */
module MatrixText {
  import opened MatrixModel

  datatype Option<T> = None | Some(value: T)

  // ---------------------------------------------------------------------------
  // getline with a delimiter

  /** Position of the first d in s, or |s| when s has none. */
  function Find(s: string, d: char): (k: nat)
    ensures k <= |s|
    ensures forall i :: 0 <= i < k ==> s[i] != d
    ensures k < |s| ==> s[k] == d
  {
    if s == [] || s[0] == d then 0 else 1 + Find(s[1..], d)
  }

  /** The tokens that repeated `getline(stream, token, d)` delivers until the
      stream is exhausted: the text before each d, the d itself consumed; a
      last piece without a closing d is delivered as well, while nothing is
      delivered once a d ends the text. */
  function Split(s: string, d: char): (parts: seq<string>)
    ensures forall k :: 0 <= k < |parts| ==> d !in parts[k]
    ensures s == [] <==> parts == []
    decreases |s|
  {
    if s == [] then []
    else
      var k := Find(s, d);
      if k == |s| then [s] else [s[..k]] + Split(s[k + 1..], d)
  }

  /** A first token without the delimiter is split off whole. */
  lemma SplitCons(a: string, d: char, b: string)
    requires d !in a
    ensures Split(a + [d] + b, d) == [a] + Split(b, d)
  {
    var s := a + [d] + b;
    assert forall i :: 0 <= i < |a| ==> s[i] == a[i] && a[i] != d;
    assert s[|a|] == d;
    var k := Find(s, d);
    assert s[..k] == a && s[k + 1..] == b;
  }

  /** Text without the delimiter is one token. */
  lemma SplitSingle(a: string, d: char)
    requires d !in a && a != []
    ensures Split(a, d) == [a]
  {
    assert forall i :: 0 <= i < |a| ==> a[i] != d;
  }

  /** `parts` joined by `sep`: the partner of Split. */
  function Join(parts: seq<string>, sep: string): string
  {
    if parts == [] then []
    else if |parts| == 1 then parts[0]
    else parts[0] + sep + Join(parts[1..], sep)
  }

  /** A character that is in neither the parts nor the separator is not in
      their join. */
  lemma {:induction false} JoinAvoids(parts: seq<string>, sep: string, c: char)
    requires c !in sep
    requires forall k :: 0 <= k < |parts| ==> c !in parts[k]
    ensures c !in Join(parts, sep)
  {
    if |parts| > 1 {
      JoinAvoids(parts[1..], sep, c);
    }
  }

  /** Splitting the join of delimiter-free parts gives the parts back, as long
      as the last one is not empty (an empty last token is never delivered). */
  lemma {:induction false} SplitJoin(parts: seq<string>, d: char)
    requires parts != [] && parts[|parts| - 1] != []
    requires forall k :: 0 <= k < |parts| ==> d !in parts[k]
    ensures Split(Join(parts, [d]), d) == parts
  {
    if |parts| == 1 {
      SplitSingle(parts[0], d);
    } else {
      SplitJoin(parts[1..], d);
      SplitCons(parts[0], d, Join(parts[1..], [d]));
      assert parts[0] + [d] + Join(parts[1..], [d]) == Join(parts, [d]);
    }
  }

  /** Joining a first part in front of at least one more. */
  lemma JoinCons(a: string, tail: seq<string>, sep: string)
    requires tail != []
    ensures Join([a] + tail, sep) == a + sep + Join(tail, sep)
  {
    assert ([a] + tail)[1..] == tail;
  }

  /** JoinSplit when the first delimiter ends s. */
  lemma JoinSplitLast(a: string, d: char)
    requires d !in a
    ensures Join(Split(a + [d], d), [d]) == a
  {
    SplitCons(a, d, []);
    assert a + [d] + [] == a + [d];
  }

  /** JoinSplit for a first token in front of more text for which it holds. */
  lemma JoinSplitStep(a: string, d: char, rest: string)
    requires d !in a && rest != []
    requires Join(Split(rest, d), [d]) == if rest[|rest| - 1] == d then rest[..|rest| - 1] else rest
    ensures var s := a + [d] + rest;
      Join(Split(s, d), [d]) == if s[|s| - 1] == d then s[..|s| - 1] else s
  {
    var s := a + [d] + rest;
    SplitCons(a, d, rest);
    JoinCons(a, Split(rest, d), [d]);
    assert Join(Split(s, d), [d]) == a + [d] + Join(Split(rest, d), [d]);
    LastOfConcat(a + [d], rest);
  }

  /** The last character of p + rest, and what precedes it, for nonempty rest. */
  lemma LastOfConcat(p: string, rest: string)
    requires rest != []
    ensures var s := p + rest; s[|s| - 1] == rest[|rest| - 1] && s[..|s| - 1] == p + rest[..|rest| - 1]
  {
    var s := p + rest;
    assert s[..|s| - 1] == p + rest[..|rest| - 1];
  }

  /** Joining the tokens of s with the delimiter gives s back, less the
      delimiter that ends it if it ends with one. */
  lemma {:induction false} JoinSplit(s: string, d: char)
    ensures Join(Split(s, d), [d]) == if s != [] && s[|s| - 1] == d then s[..|s| - 1] else s
    decreases |s|
  {
    if s != [] {
      var k := Find(s, d);
      if k < |s| {
        var a := s[..k];
        var rest := s[k + 1..];
        assert s == a + [d] + rest;
        assert d !in a;
        if rest == [] {
          JoinSplitLast(a, d);
        } else {
          JoinSplit(rest, d);
          JoinSplitStep(a, d, rest);
        }
      }
    }
  }

  // ---------------------------------------------------------------------------
  // stod

  /** White space as `isspace` sees it in the C locale. */
  predicate IsSpace(c: char) {
    c == ' ' || c == '\t' || c == '\n' || c == '\r' || c == '\U{000B}' || c == '\U{000C}'
  }

  predicate IsDigit(c: char) {
    '0' as int <= c as int <= '9' as int
  }

  /** Length of the longest prefix of s whose characters all satisfy p. */
  function Span(s: string, p: char -> bool): (k: nat)
    ensures k <= |s|
    ensures forall i :: 0 <= i < k ==> p(s[i])
    ensures k < |s| ==> !p(s[k])
  {
    if s == [] || !p(s[0]) then 0 else 1 + Span(s[1..], p)
  }

  /** The value of a run of decimal digits, most significant first. */
  function DigitsValue(ds: string): nat
    requires forall i :: 0 <= i < |ds| ==> IsDigit(ds[i])
  {
    if ds == [] then 0
    else
      assert IsDigit(ds[|ds| - 1]);
      DigitsValue(ds[..|ds| - 1]) * 10 + (ds[|ds| - 1] as int - '0' as int)
  }

  function Pow10(e: nat): (p: real)
    ensures p >= 1.0
  {
    if e == 0 then 1.0 else 10.0 * Pow10(e - 1)
  }

  /** The exponent that follows a mantissa: 'e' or 'E', an optional sign and
      at least one digit; 0 when that is not what follows, and then nothing
      of it is read. */
  function Exponent(s: string): (e: int)
    ensures s == [] || (s[0] != 'e' && s[0] != 'E') ==> e == 0
  {
    if s == [] || (s[0] != 'e' && s[0] != 'E') then 0
    else
      var t := s[1..];
      var b := if t != [] && (t[0] == '+' || t[0] == '-') then 1 else 0;
      var n := Span(t[b..], IsDigit);
      if n == 0 then 0
      else if b == 1 && t[0] == '-' then -(DigitsValue(t[b..][..n]) as int)
      else DigitsValue(t[b..][..n])
  }

  /** An unsigned decimal number at the start of u: digits with an optional
      decimal point, at least one digit in all, then an optional exponent;
      whatever follows is ignored. None when u does not start with one. */
  function Unsigned(u: string): (r: Option<real>)
    ensures r.Some? ==> exists i :: 0 <= i < |u| && IsDigit(u[i])
  {
    var n := Span(u, IsDigit);
    var v := u[n..];
    var point := v != [] && v[0] == '.';
    var f := if point then Span(v[1..], IsDigit) else 0;
    if n + f == 0 then None
    else
      assert IsDigit(if n > 0 then u[0] else u[n + 1]);
      var frac := if point then v[1..][..f] else [];
      var rest := if point then v[1 + f..] else v;
      Some(Scaled(u[..n], frac, Exponent(rest)))
  }

  /** The number whole.frac times 10^e. */
  function Scaled(whole: string, frac: string, e: int): real
    requires forall i :: 0 <= i < |whole| ==> IsDigit(whole[i])
    requires forall i :: 0 <= i < |frac| ==> IsDigit(frac[i])
  {
    var mant := DigitsValue(whole) as real + DigitsValue(frac) as real / Pow10(|frac|);
    if e >= 0 then mant * Pow10(e) else mant / Pow10(-e)
  }

  /** Without fraction and exponent only the whole digits count. */
  lemma ScaledWhole(ds: string)
    requires forall i :: 0 <= i < |ds| ==> IsDigit(ds[i])
    ensures Scaled(ds, [], 0) == DigitsValue(ds) as real
  {
    assert Pow10(0) == 1.0;
  }

  /** An optionally signed number at the start of t. */
  function Signed(t: string): (r: Option<real>)
    ensures r.Some? ==> exists i :: 0 <= i < |t| && IsDigit(t[i])
  {
    if t != [] && (t[0] == '+' || t[0] == '-') then
      var r := Unsigned(t[1..]);
      assert r.Some? ==> exists i :: 0 <= i < |t| - 1 && IsDigit(t[1..][i]);
      Negated(r, t[0] == '-')
    else Unsigned(t)
  }

  function Negated(r: Option<real>, neg: bool): (q: Option<real>)
  {
    match r
    case None => None
    case Some(v) => Some(if neg then -v else v)
  }

  /** `stod` on one token, for decimal notation: leading white space, then an
      optionally signed number; whatever follows the number is ignored. None
      is the case where `stod` throws invalid_argument. */
  function Stod(tok: string): (r: Option<real>)
    ensures r.Some? ==> exists i :: 0 <= i < |tok| && IsDigit(tok[i])
  {
    var k := Span(tok, IsSpace);
    var r := Signed(tok[k..]);
    assert r.Some? ==> exists i :: 0 <= i < |tok| - k && IsDigit(tok[k..][i]);
    r
  }

  // ---------------------------------------------------------------------------
  // Printing

  function DigitChar(d: nat): (c: char)
    requires d < 10
    ensures IsDigit(c) && c as int - '0' as int == d
  {
    ('0' as int + d) as char
  }

  /** Decimal digits of n, most significant first, no leading zero. */
  function ShowNat(n: nat): (s: string)
    ensures s != []
    ensures forall i :: 0 <= i < |s| ==> IsDigit(s[i])
  {
    if n < 10 then [DigitChar(n)] else ShowNat(n / 10) + [DigitChar(n % 10)]
  }

  /** The digits of n read back give n. */
  lemma {:induction false} ShowNatValue(n: nat)
    ensures DigitsValue(ShowNat(n)) == n
  {
    if n >= 10 {
      ShowNatValue(n / 10);
      var s := ShowNat(n);
      assert s[..|s| - 1] == ShowNat(n / 10);
    }
  }

  /** An integer as `<<` prints it: a minus sign for negatives, then the
      digits. */
  function ShowInt(k: int): (s: string)
    ensures s != [] && (s[0] == '-' || IsDigit(s[0]))
    ensures forall i :: 0 <= i < |s| ==> s[i] == '-' || IsDigit(s[i])
  {
    if k < 0 then "-" + ShowNat(-k) else ShowNat(k)
  }

  /** The element printer: the integer part of v, which is how `<<` prints an
      integral double of magnitude below 10^6. */
  function ShowElem(v: real): string
  {
    ShowInt(v.Floor)
  }

  /** The elements of a row, each printed by `show`. */
  function Texts(row: seq<real>, show: real -> string): (texts: seq<string>)
    ensures |texts| == |row|
    ensures forall j :: 0 <= j < |row| ==> texts[j] == show(row[j])
  {
    seq(|row|, j requires 0 <= j < |row| => show(row[j]))
  }

  /** One printed row: "[" + the elements joined with ", " + "]". */
  function RowText(row: seq<real>, show: real -> string): string
  {
    "[" + Join(Texts(row, show), ", ") + "]"
  }

  /** The printed rows of a grid. */
  function RowTexts(rows: seq<seq<real>>, show: real -> string): (texts: seq<string>)
    ensures |texts| == |rows|
    ensures forall i :: 0 <= i < |rows| ==> texts[i] == RowText(rows[i], show)
  {
    seq(|rows|, i requires 0 <= i < |rows| => RowText(rows[i], show))
  }

  /** `<<` on a matrix: "[" + the printed rows joined with ", " + "]", each
      element printed by `show`. */
  function Format(m: Mat, show: real -> string): (s: string)
    requires m.Wf()
    ensures |s| >= 2 && s[0] == '[' && s[|s| - 1] == ']'
  {
    "[" + Join(RowTexts(m.cells, show), ", ") + "]"
  }

  /** Joining one more part at the end. */
  lemma {:induction false} JoinSnoc(parts: seq<string>, p: string, sep: string)
    ensures Join(parts + [p], sep) == if parts == [] then p else Join(parts, sep) + sep + p
    decreases |parts|
  {
    if |parts| > 1 {
      JoinSnoc(parts[1..], p, sep);
      assert (parts + [p])[1..] == parts[1..] + [p];
    } else if |parts| == 1 {
      assert (parts + [p])[1..] == [p];
    }
  }

  /** The printer's step: after lead, the parts printed so far with the
      separator written after each of them but the last of all; printing
      part i and its separator keeps that form for i + 1. */
  lemma PrintStep(parts: seq<string>, sep: string, i: nat, lead: string, text: string)
    requires i < |parts|
    requires text == lead + Join(parts[..i], sep) + (if 0 < i then sep else "")
    ensures text + parts[i] + (if i < |parts| - 1 then sep else "") ==
      lead + Join(parts[..i + 1], sep) + (if i + 1 < |parts| then sep else "")
  {
    assert parts[..i + 1] == parts[..i] + [parts[i]];
    JoinSnoc(parts[..i], parts[i], sep);
  }

  // ---------------------------------------------------------------------------
  // FromString

  /** The values `stod` accepts among the tokens, in order; a token it
      rejects is skipped. */
  function Collect(toks: seq<string>): (vs: seq<real>)
    ensures |vs| <= |toks|
  {
    if toks == [] then []
    else
      var n := |toks| - 1;
      Collect(toks[..n]) + match Stod(toks[n]) case Some(v) => [v] case None => []
  }

  /** One row of FromString: the values among the ','-separated tokens of a
      '['-segment. */
  function RowValues(seg: string): seq<real>
  {
    Collect(Split(seg, ','))
  }

  /** The nonempty segments, in order: FromString skips an empty one. */
  function NonEmpty(segs: seq<string>): (kept: seq<string>)
    ensures |kept| <= |segs|
    ensures forall k :: 0 <= k < |kept| ==> kept[k] != [] && kept[k] in segs
  {
    if segs == [] then []
    else
      var n := |segs| - 1;
      NonEmpty(segs[..n]) + if segs[n] == [] then [] else [segs[n]]
  }

  /** The rows FromString builds: one per nonempty '['-segment. */
  function RowsOf(segs: seq<string>): (rows: seq<seq<real>>)
    ensures |rows| == |NonEmpty(segs)|
    ensures forall k :: 0 <= k < |rows| ==> rows[k] == RowValues(NonEmpty(segs)[k])
  {
    var kept := NonEmpty(segs);
    seq(|kept|, k requires 0 <= k < |kept| => RowValues(kept[k]))
  }

  /** `FromString`: one row per nonempty '['-segment holding the values of its
      ','-tokens; the column count is that of the last row. */
  function Parse(s: string): (m: Mat)
    ensures m.Wf() && m.rows == |RowsOf(Split(s, '['))|
    ensures m.cols == LastWidth(RowsOf(Split(s, '[')))
  {
    FromRows(RowsOf(Split(s, '[')), LastWidth(RowsOf(Split(s, '['))))
  }

  /** The length of the last row, 0 when there is none. */
  function LastWidth(rows: seq<seq<real>>): nat
  {
    if rows == [] then 0 else |rows[|rows| - 1]|
  }

  /** Parse is the grid of the rows read, as wide as the last of them. */
  lemma ParseRows(s: string, grid: seq<seq<real>>, c: nat)
    requires grid == RowsOf(Split(s, '['))
    requires c == LastWidth(grid)
    ensures Parse(s) == FromRows(grid, c)
  {
  }

  /** FromString's step over one more '['-segment: an empty one adds no row,
      any other adds its values as the last row. */
  lemma RowsOfSnoc(segs: seq<string>, k: nat)
    requires k < |segs|
    ensures RowsOf(segs[..k + 1]) == RowsOf(segs[..k]) + if segs[k] == [] then [] else [RowValues(segs[k])]
  {
    assert segs[..k + 1][..k] == segs[..k];
    assert NonEmpty(segs[..k + 1]) == NonEmpty(segs[..k]) + if segs[k] == [] then [] else [segs[k]];
  }

  /** The row step over one more ','-token: a value `stod` accepts is
      appended, any other token is skipped. */
  lemma CollectSnoc(toks: seq<string>, t: nat)
    requires t < |toks|
    ensures Collect(toks[..t + 1]) == Collect(toks[..t]) + match Stod(toks[t]) case Some(v) => [v] case None => []
  {
    assert toks[..t + 1][..t] == toks[..t];
  }

  lemma {:induction false} CollectConcat(a: seq<string>, b: seq<string>)
    ensures Collect(a + b) == Collect(a) + Collect(b)
    decreases |b|
  {
    if b != [] {
      var n := |b| - 1;
      CollectConcat(a, b[..n]);
      assert (a + b)[..|a + b| - 1] == a + b[..n];
    } else {
      assert a + b == a;
    }
  }

  lemma {:induction false} NonEmptyConcat(a: seq<string>, b: seq<string>)
    ensures NonEmpty(a + b) == NonEmpty(a) + NonEmpty(b)
    decreases |b|
  {
    if b != [] {
      var n := |b| - 1;
      NonEmptyConcat(a, b[..n]);
      assert (a + b)[..|a + b| - 1] == a + b[..n];
      assert (a + b)[|a + b| - 1] == b[n];
    } else {
      assert a + b == a;
    }
  }

  lemma NonEmptySingle(seg: string)
    ensures NonEmpty([seg]) == if seg == [] then [] else [seg]
  {
    assert [seg][..0] == [];
  }

  // ---------------------------------------------------------------------------
  // Printing then parsing

  /** A value `<<` prints without a fractional part. */
  predicate Integral(v: real) {
    v.Floor as real == v
  }

  /** Span is the one length with all of p before it and no p at it. */
  lemma {:induction false} SpanIs(s: string, p: char -> bool, k: nat)
    requires k <= |s|
    requires forall i :: 0 <= i < k ==> p(s[i])
    requires k < |s| ==> !p(s[k])
    ensures Span(s, p) == k
  {
    if s != [] && p(s[0]) {
      assert k != 0;
      assert forall i :: 0 <= i < k - 1 ==> s[1..][i] == s[i + 1];
      SpanIs(s[1..], p, k - 1);
    }
  }

  /** A run of digits followed by text that cannot continue a number reads
      as the run's value. */
  lemma UnsignedDigits(ds: string, post: string)
    requires ds != [] && forall i :: 0 <= i < |ds| ==> IsDigit(ds[i])
    requires post == [] || (!IsDigit(post[0]) && post[0] != '.' && post[0] != 'e' && post[0] != 'E')
    ensures Unsigned(ds + post) == Some(DigitsValue(ds) as real)
  {
    var u := ds + post;
    assert forall i :: 0 <= i < |ds| ==> u[i] == ds[i];
    SpanIs(u, IsDigit, |ds|);
    assert u[..|ds|] == ds && u[|ds|..] == post;
    ScaledWhole(ds);
  }

  /** Leading white space is skipped. */
  lemma StodSkipsSpace(pre: string, t: string)
    requires forall i :: 0 <= i < |pre| ==> IsSpace(pre[i])
    requires t != [] && !IsSpace(t[0])
    ensures Stod(pre + t) == Signed(t)
  {
    var tok := pre + t;
    assert forall i :: 0 <= i < |pre| ==> tok[i] == pre[i];
    assert tok[|pre|] == t[0];
    SpanIs(tok, IsSpace, |pre|);
    assert tok[|pre|..] == t;
  }

  /** A minus sign negates the number after it. */
  lemma SignedMinus(t: string, v: real)
    requires t != [] && t[0] == '-' && Unsigned(t[1..]) == Some(v)
    ensures Signed(t) == Some(-v)
  {
  }

  /** Without a sign the number is read as it stands. */
  lemma SignedPlain(t: string)
    requires t != [] && IsDigit(t[0])
    ensures Signed(t) == Unsigned(t)
  {
  }

  /** A printed natural number, followed by text that cannot continue a
      number, reads back as that number. */
  lemma UnsignedShowNat(n: nat, post: string)
    requires post == [] || (!IsDigit(post[0]) && post[0] != '.' && post[0] != 'e' && post[0] != 'E')
    ensures Unsigned(ShowNat(n) + post) == Some(n as real)
  {
    ShowNatValue(n);
    UnsignedDigits(ShowNat(n), post);
  }

  /** A printed natural number with a minus sign reads back negated. */
  lemma SignedShowNeg(n: nat, post: string)
    requires post == [] || (!IsDigit(post[0]) && post[0] != '.' && post[0] != 'e' && post[0] != 'E')
    ensures Signed("-" + ShowNat(n) + post) == Some(-(n as real))
  {
    var t := "-" + ShowNat(n) + post;
    assert t[1..] == ShowNat(n) + post;
    UnsignedShowNat(n, post);
    SignedMinus(t, n as real);
  }

  /** A printed natural number without a sign reads back as it stands. */
  lemma SignedShowNat(n: nat, post: string)
    requires post == [] || (!IsDigit(post[0]) && post[0] != '.' && post[0] != 'e' && post[0] != 'E')
    ensures Signed(ShowNat(n) + post) == Some(n as real)
  {
    UnsignedShowNat(n, post);
    SignedPlain(ShowNat(n) + post);
  }

  /** A printed integer, followed by text that cannot continue a number,
      reads back as that integer. */
  lemma SignedShowInt(k: int, post: string)
    requires post == [] || (!IsDigit(post[0]) && post[0] != '.' && post[0] != 'e' && post[0] != 'E')
    ensures Signed(ShowInt(k) + post) == Some(k as real)
  {
    if k < 0 {
      var n: nat := -k;
      var t := "-" + ShowNat(n) + post;
      assert ShowInt(k) == "-" + ShowNat(n);
      assert ShowInt(k) + post == t;
      SignedShowNeg(n, post);
      assert -(n as real) == k as real;
    } else {
      var n: nat := k;
      assert ShowInt(k) == ShowNat(n);
      SignedShowNat(n, post);
    }
  }

  /** `stod` reads a printed integer back, whatever white space comes before
      it and whatever follows that cannot continue a number. */
  lemma StodShowInt(pre: string, k: int, post: string)
    requires forall i :: 0 <= i < |pre| ==> IsSpace(pre[i])
    requires post == [] || (!IsDigit(post[0]) && post[0] != '.' && post[0] != 'e' && post[0] != 'E')
    ensures Stod(pre + ShowInt(k) + post) == Some(k as real)
  {
    var t := ShowInt(k) + post;
    assert pre + ShowInt(k) + post == pre + t;
    StodSkipsSpace(pre, t);
    SignedShowInt(k, post);
  }

  /** The printed elements of a row: `Texts(row, ShowElem)` as a plain
      comprehension, equal to it by `TextsShowElem`, for the round-trip proofs. */
  function ElemTexts(row: seq<real>): (texts: seq<string>)
    ensures |texts| == |row|
  {
    seq(|row|, j requires 0 <= j < |row| => ShowElem(row[j]))
  }

  /** No printed element holds a ',' or a '['. */
  lemma ElemTextsAvoid(row: seq<real>, c: char)
    requires c == ',' || c == '['
    ensures forall k :: 0 <= k < |row| ==> c !in ElemTexts(row)[k]
  {
    forall k | 0 <= k < |row|
      ensures c !in ElemTexts(row)[k]
    {
      var x := ShowInt(row[k].Floor);
      assert forall i :: 0 <= i < |x| ==> x[i] != c;
    }
  }

  /** A token holding no digit is rejected by `stod`. */
  lemma StodNoDigit(tok: string)
    requires forall i :: 0 <= i < |tok| ==> tok[i] == ' ' || tok[i] == ']'
    ensures Stod(tok) == None
  {
    assert forall i :: 0 <= i < |tok| ==> !IsDigit(tok[i]);
  }

  lemma CollectSingle(tok: string)
    ensures Collect([tok]) == match Stod(tok) case Some(v) => [v] case None => []
  {
    assert [tok][..0] == [];
  }

  /** The closing text of a row alone holds no value. */
  lemma RowTokensEmpty(pre: string, end: string)
    requires pre == "" || pre == " "
    requires end == "]]" || end == "], "
    ensures RowValues(pre + end) == []
  {
    if end == "]]" {
      SplitSingle(pre + "]]", ',');
      StodNoDigit(pre + "]]");
      CollectSingle(pre + "]]");
    } else {
      assert pre + end == (pre + "]") + [','] + " ";
      SplitCons(pre + "]", ',', " ");
      SplitSingle(" ", ',');
      StodNoDigit(pre + "]");
      StodNoDigit(" ");
      CollectSingle(pre + "]");
      CollectSingle(" ");
      CollectConcat([pre + "]"], [" "]);
    }
  }

  /** The last element of a row with the row's closing text. */
  lemma RowTokensLast(pre: string, v: real, end: string)
    requires pre == "" || pre == " "
    requires end == "]]" || end == "], "
    requires Integral(v)
    ensures RowValues(pre + ShowElem(v) + end) == [v]
  {
    if end == "]]" {
      RowTokensClose(pre, v);
    } else {
      RowTokensComma(pre, v);
    }
  }

  /** RowTokensLast for the last row of the matrix. */
  lemma RowTokensClose(pre: string, v: real)
    requires pre == "" || pre == " "
    requires Integral(v)
    ensures RowValues(pre + ShowElem(v) + "]]") == [v]
  {
    var x := ShowElem(v);
    assert forall i :: 0 <= i < |x| ==> x[i] != ',';
    SplitSingle(pre + x + "]]", ',');
    StodShowInt(pre, v.Floor, "]]");
    CollectSingle(pre + x + "]]");
  }

  /** RowTokensLast for a row with more rows after it. */
  lemma RowTokensComma(pre: string, v: real)
    requires pre == "" || pre == " "
    requires Integral(v)
    ensures RowValues(pre + ShowElem(v) + "], ") == [v]
  {
    var x := ShowElem(v);
    assert forall i :: 0 <= i < |x| ==> x[i] != ',';
    assert pre + x + "], " == (pre + x + "]") + [','] + " ";
    SplitCons(pre + x + "]", ',', " ");
    SplitSingle(" ", ',');
    StodShowInt(pre, v.Floor, "]");
    StodNoDigit(" ");
    CollectSingle(pre + x + "]");
    CollectSingle(" ");
    CollectConcat([pre + x + "]"], [" "]);
  }

  /** An element followed by ", " and more text is one token. */
  lemma RowTokensFirst(pre: string, v: real, rest: string)
    requires pre == "" || pre == " "
    requires Integral(v)
    ensures RowValues(pre + ShowElem(v) + ", " + rest) == [v] + RowValues(" " + rest)
  {
    var x := ShowElem(v);
    assert forall i :: 0 <= i < |x| ==> x[i] != ',';
    assert pre + x + ", " + rest == (pre + x) + [','] + (" " + rest);
    SplitCons(pre + x, ',', " " + rest);
    StodShowInt(pre, v.Floor, []);
    assert pre + x + [] == pre + x;
    CollectSingle(pre + x);
    CollectConcat([pre + x], Split(" " + rest, ','));
  }

  /** The text of a short row: nothing but the closing text for no elements,
      the one element for one. */
  lemma RowTextShape(pre: string, row: seq<real>, end: string)
    requires |row| <= 1
    ensures |row| == 0 ==> pre + (Join(ElemTexts(row), ", ") + end) == pre + end
    ensures |row| == 1 ==> pre + (Join(ElemTexts(row), ", ") + end) == pre + ShowElem(row[0]) + end
  {
    if |row| == 1 {
      assert ElemTexts(row) == [ShowElem(row[0])];
    } else {
      assert ElemTexts(row) == [];
    }
  }

  /** The text of a row of two or more elements: the first, ", ", the rest. */
  lemma RowTextShapeCons(pre: string, row: seq<real>, end: string)
    requires |row| >= 2
    ensures pre + (Join(ElemTexts(row), ", ") + end) == pre + ShowElem(row[0]) + ", " + (Join(ElemTexts(row[1..]), ", ") + end)
  {
    var texts := ElemTexts(row);
    assert texts == [ShowElem(row[0])] + ElemTexts(row[1..]);
    JoinCons(ShowElem(row[0]), ElemTexts(row[1..]), ", ");
    Regroup(pre, ShowElem(row[0]), ", ", Join(ElemTexts(row[1..]), ", "), end);
  }

  /** Concatenation regrouped. */
  lemma Regroup(pre: string, a: string, sep: string, b: string, end: string)
    ensures pre + (a + sep + b + end) == pre + a + sep + (b + end)
  {
  }

  /** A printed row of at most one element. */
  lemma RowTokensShort(pre: string, row: seq<real>, end: string)
    requires pre == "" || pre == " "
    requires end == "]]" || end == "], "
    requires |row| <= 1 && forall j :: 0 <= j < |row| ==> Integral(row[j])
    ensures RowValues(pre + (Join(ElemTexts(row), ", ") + end)) == row
  {
    RowTextShape(pre, row, end);
    if |row| == 0 {
      RowTokensEmpty(pre, end);
    } else {
      RowTokensLast(pre, row[0], end);
    }
  }

  /** A printed row of two or more elements reads back when its text after
      the first element does. */
  lemma RowTokensStep(pre: string, row: seq<real>, end: string)
    requires pre == "" || pre == " "
    requires |row| >= 2 && Integral(row[0])
    requires RowValues(" " + (Join(ElemTexts(row[1..]), ", ") + end)) == row[1..]
    ensures RowValues(pre + (Join(ElemTexts(row), ", ") + end)) == row
  {
    RowTextShapeCons(pre, row, end);
    RowTokensFirst(pre, row[0], Join(ElemTexts(row[1..]), ", ") + end);
    assert row == [row[0]] + row[1..];
  }

  /** The ','-tokens of one printed row, preceded by what the previous token
      left ("" or " ") and followed by the row's closing text ("]]" for the
      last row, "], " otherwise), give back the row's elements. */
  lemma {:induction false} RowTokens(pre: string, row: seq<real>, end: string)
    requires pre == "" || pre == " "
    requires end == "]]" || end == "], "
    requires forall j :: 0 <= j < |row| ==> Integral(row[j])
    ensures RowValues(pre + (Join(ElemTexts(row), ", ") + end)) == row
    decreases |row|
  {
    if |row| <= 1 {
      RowTokensShort(pre, row, end);
    } else {
      RowTokens(" ", row[1..], end);
      RowTokensStep(pre, row, end);
    }
  }

  /** The elements of a row as the element printer shows them. */
  lemma TextsShowElem(row: seq<real>)
    ensures Texts(row, ShowElem) == ElemTexts(row)
  {
  }

  /** The text of a row between its brackets: the join inside
      `RowText(row, ShowElem)`, written on `ElemTexts`. */
  function Body(row: seq<real>): string
  {
    Join(ElemTexts(row), ", ")
  }

  /** A printed row holds no ',' or '[' except in its separators. */
  lemma BodyAvoids(row: seq<real>, c: char)
    requires c == '['
    ensures c !in Body(row)
  {
    ElemTextsAvoid(row, c);
    JoinAvoids(ElemTexts(row), ", ", c);
  }

  /** A row's text followed by its closing text reads back as the row. */
  lemma RowRead(row: seq<real>, end: string)
    requires end == "]]" || end == "], "
    requires forall j :: 0 <= j < |row| ==> Integral(row[j])
    ensures RowValues(Body(row) + end) == row
  {
    RowTokens("", row, end);
    assert "" + (Join(ElemTexts(row), ", ") + end) == Body(row) + end;
  }

  /** The printed rows after the matrix's opening '[': each row "[" + body +
      "]", joined with ", ", then the closing "]". This is `Format(m, ShowElem)`
      without its first character (`FormatText`). */
  function RowsText(rows: seq<seq<real>>): string
  {
    Join(RowTexts(rows, ShowElem), ", ") + "]"
  }

  /** A join starts with the first character of its first part. */
  lemma JoinFirst(parts: seq<string>, sep: string)
    requires parts != [] && parts[0] != []
    ensures |Join(parts, sep)| > 0 && Join(parts, sep)[0] == parts[0][0]
  {
  }

  /** The text of the rows starts with the first row's '['. */
  lemma RowsTextHead(rows: seq<seq<real>>)
    requires |rows| >= 1
    ensures RowsText(rows) == ['['] + RowsText(rows)[1..]
  {
    var texts := RowTexts(rows, ShowElem);
    assert texts[0][0] == '[';
    JoinFirst(texts, ", ");
    var t := RowsText(rows);
    assert t[0] == '[';
    assert t == [t[0]] + t[1..];
  }

  /** The text of a single row: its '[', its body and "]]". */
  lemma RowsTextOne(rows: seq<seq<real>>)
    requires |rows| == 1
    ensures RowsText(rows) == [] + ['['] + (Body(rows[0]) + "]]")
  {
    TextsShowElem(rows[0]);
    assert RowTexts(rows, ShowElem)[0] == "[" + Body(rows[0]) + "]";
  }

  /** The text of two or more rows: the first row's '[', its body and "], ",
      then the text of the remaining rows. */
  lemma RowsTextCons(rows: seq<seq<real>>)
    requires |rows| >= 2
    ensures RowsText(rows) == [] + ['['] + (Body(rows[0]) + "], " + RowsText(rows[1..]))
  {
    var head := "[" + Body(rows[0]) + "]";
    var tails := RowTexts(rows[1..], ShowElem);
    RowTextsCons(rows);
    JoinCons(head, tails, ", ");
    BracketsRegroup(Body(rows[0]), Join(tails, ", "));
  }

  /** The printed rows are the first one's followed by the rest's. */
  lemma RowTextsCons(rows: seq<seq<real>>)
    requires |rows| >= 1
    ensures RowTexts(rows, ShowElem) == ["[" + Body(rows[0]) + "]"] + RowTexts(rows[1..], ShowElem)
  {
    var texts := RowTexts(rows, ShowElem);
    TextsShowElem(rows[0]);
    assert texts[0] == "[" + Body(rows[0]) + "]";
    assert texts[1..] == RowTexts(rows[1..], ShowElem);
    assert texts == [texts[0]] + texts[1..];
  }

  /** Regrouping the text of a first row, its separator and the rest. */
  lemma BracketsRegroup(body: string, tail: string)
    ensures "[" + body + "]" + ", " + tail + "]" == [] + ['['] + (body + "], " + (tail + "]"))
  {
  }

  /** The '['-segments that hold the printed rows: each body followed by
      "], ", the last by "]]". */
  function Segments(rows: seq<seq<real>>): (segs: seq<string>)
    requires |rows| >= 1
    ensures |segs| == |rows|
    ensures forall i :: 0 <= i < |rows| ==>
      segs[i] == Body(rows[i]) + if i == |rows| - 1 then "]]" else "], "
  {
    if |rows| == 1 then [Body(rows[0]) + "]]"]
    else [Body(rows[0]) + "], "] + Segments(rows[1..])
  }

  /** Each such segment reads back as its row. */
  lemma SegmentsValues(rows: seq<seq<real>>)
    requires |rows| >= 1
    requires forall i, j :: 0 <= i < |rows| && 0 <= j < |rows[i]| ==> Integral(rows[i][j])
    ensures forall i :: 0 <= i < |rows| ==> RowValues(Segments(rows)[i]) == rows[i]
  {
    forall i | 0 <= i < |rows|
      ensures RowValues(Segments(rows)[i]) == rows[i]
    {
      RowRead(rows[i], if i == |rows| - 1 then "]]" else "], ");
    }
  }

  /** The '['-segments of two or more printed rows: an empty one, the first
      row's body with "], ", then those of the remaining rows after their
      own empty first segment. */
  lemma SegmentsSplit(rows: seq<seq<real>>)
    requires |rows| >= 2
    ensures var w := RowsText(rows[1..])[1..];
      && Split(RowsText(rows[1..]), '[') == [[]] + Split(w, '[')
      && Split(RowsText(rows), '[') == [[]] + ([Body(rows[0]) + "], "] + Split(w, '['))
  {
    var seg := Body(rows[0]) + "], ";
    var w := RowsText(rows[1..])[1..];
    RowsTextCons(rows);
    RowsTextHead(rows[1..]);
    assert RowsText(rows[1..]) == [] + ['['] + w;
    assert RowsText(rows) == [] + ['['] + (seg + ['['] + w);
    SplitCons([], '[', w);
    BodyAvoids(rows[0], '[');
    SplitCons(seg, '[', w);
    SplitCons([], '[', seg + ['['] + w);
  }

  /** SegmentsOfText for one row. */
  lemma SegmentsOfTextOne(rows: seq<seq<real>>)
    requires |rows| == 1
    ensures NonEmpty(Split(RowsText(rows), '[')) == Segments(rows)
  {
    var seg := Body(rows[0]) + "]]";
    RowsTextOne(rows);
    SplitCons([], '[', seg);
    BodyAvoids(rows[0], '[');
    SplitSingle(seg, '[');
    NonEmptyConcat([[]], [seg]);
    NonEmptySingle([]);
    NonEmptySingle(seg);
  }

  /** Dropping the empty segment in front of a list and keeping a nonempty
      one in front of it. */
  lemma NonEmptyStep(seg: string, tail: seq<string>)
    requires seg != []
    ensures NonEmpty([[]] + tail) == NonEmpty(tail)
    ensures NonEmpty([[]] + ([seg] + tail)) == [seg] + NonEmpty(tail)
  {
    NonEmptySingle([]);
    NonEmptySingle(seg);
    NonEmptyConcat([[]], tail);
    NonEmptyConcat([seg], tail);
    NonEmptyConcat([[]], [seg] + tail);
  }

  /** Segments of two or more rows: the first row's, then the others'. */
  lemma SegmentsCons(rows: seq<seq<real>>)
    requires |rows| >= 2
    ensures Segments(rows) == [Body(rows[0]) + "], "] + Segments(rows[1..])
  {
  }

  /** SegmentsOfText for a first row in front of rows for which it holds. */
  lemma SegmentsOfTextStep(rows: seq<seq<real>>)
    requires |rows| >= 2
    requires NonEmpty(Split(RowsText(rows[1..]), '[')) == Segments(rows[1..])
    ensures NonEmpty(Split(RowsText(rows), '[')) == Segments(rows)
  {
    var seg := Body(rows[0]) + "], ";
    var tail := Split(RowsText(rows[1..])[1..], '[');
    SegmentsSplit(rows);
    assert seg[|seg| - 1] == ' ';
    NonEmptyStep(seg, tail);
    SegmentsCons(rows);
  }

  /** The nonempty '['-segments of the printed rows are exactly Segments. */
  lemma {:induction false} SegmentsOfText(rows: seq<seq<real>>)
    requires |rows| >= 1
    ensures NonEmpty(Split(RowsText(rows), '[')) == Segments(rows)
  {
    if |rows| == 1 {
      SegmentsOfTextOne(rows);
    } else {
      SegmentsOfText(rows[1..]);
      SegmentsOfTextStep(rows);
    }
  }

  /** The rows read from the printed rows are the rows. */
  lemma RowsOfText(rows: seq<seq<real>>)
    requires |rows| >= 1
    requires forall i, j :: 0 <= i < |rows| && 0 <= j < |rows[i]| ==> Integral(rows[i][j])
    ensures RowsOf(Split(RowsText(rows), '[')) == rows
  {
    SegmentsOfText(rows);
    SegmentsValues(rows);
  }

  /** The printed matrix is its opening '[' and the text of its rows. */
  lemma FormatText(m: Mat)
    requires m.Wf()
    ensures Format(m, ShowElem) == [] + ['['] + RowsText(m.cells)
  {
  }

  /** Printing a matrix of integral elements of magnitude below 10^6 (the
      values `<<` prints as plain digits at its default precision) and
      reading the text back with FromString gives the same matrix, for at
      least one row (no rows print as "[]", which reads back as one empty row). */
  lemma FormatParse(m: Mat)
    requires m.Wf() && m.rows >= 1
    requires forall i, j :: 0 <= i < m.rows && 0 <= j < m.cols ==>
      Integral(m.cells[i][j]) && -1000000.0 < m.cells[i][j] < 1000000.0
    ensures Parse(Format(m, ShowElem)) == m
  {
    var s := Format(m, ShowElem);
    FormatText(m);
    SplitCons([], '[', RowsText(m.cells));
    NonEmptyConcat([[]], Split(RowsText(m.cells), '['));
    NonEmptySingle([]);
    assert NonEmpty(Split(s, '[')) == NonEmpty(Split(RowsText(m.cells), '['));
    RowsOfText(m.cells);
    assert RowsOf(Split(s, '[')) == m.cells;
    FromRowsOfCells(m);
  }
}
