/** Byte strings as the tool sees them: C-locale character classes, Python 2's
    `int()` on a string, `str(int)`, `str.lower`, `str.split` and `str.join`. */
module Strings {
  import opened Wrappers

  /** `isspace` in the C locale: space, tab, newline, vertical tab, form feed, carriage return. */
  predicate IsSpace(c: char) {
    c == ' ' || c == '\t' || c == '\n' || c == '\r' || c as int == 11 || c as int == 12
  }

  predicate IsDigit(c: char) {
    '0' <= c <= '9'
  }

  predicate AllSpaces(s: string) {
    forall i :: 0 <= i < |s| ==> IsSpace(s[i])
  }

  predicate AllDigits(s: string) {
    forall i :: 0 <= i < |s| ==> IsDigit(s[i])
  }

  /** Length of the longest prefix of `s` made of white space. */
  function SpanSpaces(s: string): (k: nat)
    ensures k <= |s|
    ensures forall i :: 0 <= i < k ==> IsSpace(s[i])
    ensures k < |s| ==> !IsSpace(s[k])
  {
    if s == [] || !IsSpace(s[0]) then 0 else 1 + SpanSpaces(s[1..])
  }

  /** Length of the longest prefix of `s` made of decimal digits. */
  function SpanDigits(s: string): (k: nat)
    ensures k <= |s|
    ensures forall i :: 0 <= i < k ==> IsDigit(s[i])
    ensures k < |s| ==> !IsDigit(s[k])
  {
    if s == [] || !IsDigit(s[0]) then 0 else 1 + SpanDigits(s[1..])
  }

  /** The number a run of decimal digits denotes, most significant digit first. */
  function DigitsValue(ds: string): nat
    requires AllDigits(ds)
  {
    if ds == [] then 0 else 10 * DigitsValue(ds[..|ds| - 1]) + (ds[|ds| - 1] as int - '0' as int)
  }

  function DigitChar(d: nat): (c: char)
    requires d < 10
    ensures IsDigit(c)
  {
    ('0' as int + d) as char
  }

  /** Decimal digits of `n` without leading zeros. */
  function NatToDecimal(n: nat): (ds: string)
    ensures |ds| > 0 && AllDigits(ds)
  {
    if n < 10 then [DigitChar(n)] else NatToDecimal(n / 10) + [DigitChar(n % 10)]
  }

  /** Python's `str(n)` for an integer. */
  function IntToString(n: int): (s: string)
    ensures |s| > 0
  {
    if n < 0 then "-" + NatToDecimal(-n) else NatToDecimal(n)
  }

  lemma {:induction false} DecimalValue(n: nat)
    ensures DigitsValue(NatToDecimal(n)) == n
  {
    if n >= 10 {
      DecimalValue(n / 10);
      var ds := NatToDecimal(n);
      assert ds[..|ds| - 1] == NatToDecimal(n / 10);
    }
  }

  /** The characters `int()` may accept: white space, digits and signs. */
  predicate NumberChars(s: string) {
    forall i :: 0 <= i < |s| ==> IsSpace(s[i]) || IsDigit(s[i]) || s[i] == '+' || s[i] == '-'
  }

  /** Python 2's `int(s)` on a byte string, base 10: optional white space, an
      optional sign, optional white space again (the C parser skips it twice),
      at least one digit, then only white space. Integers are unbounded here, as
      Python promotes an overflowing `int` to `long`. */
  function ParseInt(s: string): Option<int> {
    var p := SpanSpaces(s);
    ParseSigned(s[p..])
  }

  /** What follows the leading white space: an optional sign, then the magnitude. */
  function ParseSigned(a: string): Option<int> {
    if a != [] && (a[0] == '+' || a[0] == '-') then
      match ParseMagnitude(a[1..])
      case None => None
      case Some(m) => var v: int := m; Some(if a[0] == '-' then -v else v)
    else
      match ParseMagnitude(a)
      case None => None
      case Some(m) => Some(m)
  }

  /** Optional white space, at least one digit, then only white space. */
  function ParseMagnitude(b: string): Option<nat> {
    var q := SpanSpaces(b);
    var c := b[q..];
    var k := SpanDigits(c);
    if k > 0 && AllSpaces(c[k..]) then Some(DigitsValue(c[..k])) else None
  }

  lemma MagnitudeChars(b: string)
    requires ParseMagnitude(b).Some?
    ensures NumberChars(b) && exists i :: 0 <= i < |b| && IsDigit(b[i])
  {
    var q := SpanSpaces(b);
    var c := b[q..];
    var k := SpanDigits(c);
    assert IsDigit(b[q]) by { assert c[0] == b[q]; }
    forall i | 0 <= i < |b|
      ensures IsSpace(b[i]) || IsDigit(b[i]) || b[i] == '+' || b[i] == '-'
    {
      if q <= i < q + k {
        assert b[i] == c[i - q];
      } else if q + k <= i {
        assert b[i] == c[k..][i - q - k];
      }
    }
  }

  /** `int()` accepts only white space, signs and digits, and at least one digit. */
  lemma ParseIntChars(s: string)
    requires ParseInt(s).Some?
    ensures NumberChars(s) && exists i :: 0 <= i < |s| && IsDigit(s[i])
  {
    var p := SpanSpaces(s);
    SignedChars(s[p..]);
    CharsAfterPrefix(s, p);
  }

  lemma SignedChars(a: string)
    requires ParseSigned(a).Some?
    ensures NumberChars(a) && exists i :: 0 <= i < |a| && IsDigit(a[i])
  {
    if a != [] && (a[0] == '+' || a[0] == '-') {
      MagnitudeChars(a[1..]);
      CharsAfterPrefix(a, 1);
    } else {
      MagnitudeChars(a);
    }
  }

  /** Number characters after a prefix of number characters. */
  lemma CharsAfterPrefix(s: string, p: nat)
    requires p <= |s|
    requires forall j :: 0 <= j < p ==> IsSpace(s[j]) || s[j] == '+' || s[j] == '-'
    requires NumberChars(s[p..]) && exists i :: 0 <= i < |s[p..]| && IsDigit(s[p..][i])
    ensures NumberChars(s) && exists i :: 0 <= i < |s| && IsDigit(s[i])
  {
    var i :| 0 <= i < |s[p..]| && IsDigit(s[p..][i]);
    assert IsDigit(s[p + i]);
    forall j | p <= j < |s|
      ensures IsSpace(s[j]) || IsDigit(s[j]) || s[j] == '+' || s[j] == '-'
    {
      assert s[j] == s[p..][j - p];
    }
  }

  lemma SpanSpacesOfPadded(pre: string, rest: string)
    requires AllSpaces(pre)
    requires rest != [] && !IsSpace(rest[0])
    ensures SpanSpaces(pre + rest) == |pre|
    decreases |pre|
  {
    if pre != [] {
      assert (pre + rest)[1..] == pre[1..] + rest;
      SpanSpacesOfPadded(pre[1..], rest);
    }
  }

  lemma SpanDigitsOfPadded(ds: string, post: string)
    requires AllDigits(ds)
    requires AllSpaces(post)
    ensures SpanDigits(ds + post) == |ds|
    decreases |ds|
  {
    if ds != [] {
      assert (ds + post)[1..] == ds[1..] + post;
      SpanDigitsOfPadded(ds[1..], post);
    } else if post != [] {
      assert !IsDigit(post[0]);
    }
  }

  lemma MagnitudeOfDigits(ds: string, post: string)
    requires |ds| > 0 && AllDigits(ds) && AllSpaces(post)
    ensures ParseMagnitude(ds + post) == Some(DigitsValue(ds))
  {
    SpanSpacesOfPadded([], ds + post);
    assert [] + (ds + post) == ds + post;
    SpanDigitsOfPadded(ds, post);
    assert (ds + post)[..|ds|] == ds;
    assert (ds + post)[|ds|..] == post;
  }

  lemma ParseIntAfterSpaces(pre: string, rest: string)
    requires AllSpaces(pre)
    requires rest != [] && !IsSpace(rest[0])
    ensures ParseInt(pre + rest) == ParseSigned(rest)
  {
    SpanSpacesOfPadded(pre, rest);
    assert (pre + rest)[|pre|..] == rest;
  }

  lemma SignedOfString(n: int, post: string)
    requires AllSpaces(post)
    ensures ParseSigned(IntToString(n) + post) == Some(n)
  {
    if n < 0 {
      SignedOfNegative(n, post);
    } else {
      MagnitudeOfNat(n, post);
      assert IntToString(n) + post == NatToDecimal(n) + post;
      assert IsDigit((NatToDecimal(n) + post)[0]);
    }
  }

  lemma MagnitudeOfNat(m: nat, post: string)
    requires AllSpaces(post)
    ensures ParseMagnitude(NatToDecimal(m) + post) == Some(m)
  {
    DecimalValue(m);
    MagnitudeOfDigits(NatToDecimal(m), post);
  }

  lemma SignedOfNegative(n: int, post: string)
    requires n < 0 && AllSpaces(post)
    ensures ParseSigned(IntToString(n) + post) == Some(n)
  {
    var m: nat := -n;
    SignedOfMinus(m, post);
    assert IntToString(n) == "-" + NatToDecimal(m);
    MinusConcat(NatToDecimal(m), post);
  }

  /** Regrouping after the sign. Stated over a plain string, so that the
      proof using it need not reason about `NatToDecimal` and concatenation
      together. */
  lemma MinusConcat(ds: string, post: string)
    ensures "-" + ds + post == ['-'] + (ds + post)
  {
  }

  /** A leading `-` negates the magnitude that follows. */
  lemma SignedOfMinus(m: nat, post: string)
    requires AllSpaces(post)
    ensures ParseSigned(['-'] + (NatToDecimal(m) + post)) == Some(-(m as int))
  {
    var rest := NatToDecimal(m) + post;
    MagnitudeOfNat(m, post);
    assert (['-'] + rest)[1..] == rest;
  }

  /** `int()` reads back what `str()` writes, with any white space around it. */
  lemma {:induction false} ParseIntOfString(n: int, pre: string, post: string)
    requires AllSpaces(pre) && AllSpaces(post)
    ensures ParseInt(pre + IntToString(n) + post) == Some(n)
  {
    var rest := IntToString(n) + post;
    SignedOfString(n, post);
    FirstOfString(n, post);
    ParseIntAfterSpaces(pre, rest);
    Associate(pre, IntToString(n), post);
  }

  /** `int(str(n)) == n`. */
  lemma ParseNumeral(n: int)
    ensures ParseInt(IntToString(n)) == Some(n)
  {
    ParseIntOfString(n, "", "");
    assert "" + IntToString(n) + "" == IntToString(n);
  }

  lemma FirstOfString(n: int, post: string)
    ensures (IntToString(n) + post)[0] == '-' || IsDigit((IntToString(n) + post)[0])
  {
    assert (IntToString(n) + post)[0] == IntToString(n)[0];
  }

  /** Regrouping the white space around a numeral, stated over plain strings
      for the same reason as MinusConcat. */
  lemma Associate(a: string, b: string, c: string)
    ensures a + b + c == a + (b + c)
  {
  }

  /** `str.lower` on a byte string in the C locale: only A-Z change. */
  function LowerChar(c: char): char {
    if 'A' <= c <= 'Z' then (c as int + 32) as char else c
  }

  function Lower(s: string): (r: string)
    ensures |r| == |s|
    ensures forall i :: 0 <= i < |s| ==> r[i] == LowerChar(s[i])
  {
    if s == [] then [] else [LowerChar(s[0])] + Lower(s[1..])
  }

  /** Python's `s.split(sep)` with an explicit separator: empty pieces are kept,
      so there is always one more piece than separators. */
  function Split(s: string, sep: char): (parts: seq<string>)
    ensures |parts| >= 1
    ensures forall i :: 0 <= i < |parts| ==> sep !in parts[i]
  {
    if s == [] then [""]
    else
      var rest := Split(s[1..], sep);
      if s[0] == sep then [""] + rest else [[s[0]] + rest[0]] + rest[1..]
  }

  /** Python's `sep.join(parts)`. */
  function Join(parts: seq<string>, sep: char): string {
    if parts == [] then "" else if |parts| == 1 then parts[0] else parts[0] + [sep] + Join(parts[1..], sep)
  }

  /** Joining the pieces of a split gives the string back. */
  lemma {:induction false} JoinSplit(s: string, sep: char)
    ensures Join(Split(s, sep), sep) == s
  {
    if s != [] {
      var rest := Split(s[1..], sep);
      JoinSplit(s[1..], sep);
      if s[0] == sep {
        assert ([""] + rest)[1..] == rest;
      } else if |rest| == 1 {
      } else {
        var parts := [[s[0]] + rest[0]] + rest[1..];
        assert parts[1..] == rest[1..];
        assert Join(rest, sep) == rest[0] + [sep] + Join(rest[1..], sep);
      }
    }
  }

  lemma SplitAfterPiece(p: string, t: string, sep: char)
    requires sep !in p
    ensures Split(p + [sep] + t, sep) == [p] + Split(t, sep)
    decreases |p|
  {
    if p == [] {
      assert ([sep] + t)[1..] == t;
    } else {
      assert (p + [sep] + t)[1..] == p[1..] + [sep] + t;
      SplitAfterPiece(p[1..], t, sep);
      assert [p[0]] + p[1..] == p;
    }
  }

  lemma SplitOfPiece(p: string, sep: char)
    requires sep !in p
    ensures Split(p, sep) == [p]
    decreases |p|
  {
    if p != [] {
      SplitOfPiece(p[1..], sep);
      assert [p[0]] + p[1..] == p;
    }
  }

  /** Splitting a join gives the pieces back when no piece holds the separator. */
  lemma {:induction false} SplitJoin(parts: seq<string>, sep: char)
    requires |parts| >= 1
    requires forall i :: 0 <= i < |parts| ==> sep !in parts[i]
    ensures Split(Join(parts, sep), sep) == parts
  {
    if |parts| == 1 {
      SplitOfPiece(parts[0], sep);
    } else {
      SplitJoin(parts[1..], sep);
      SplitAfterPiece(parts[0], Join(parts[1..], sep), sep);
      assert [parts[0]] + parts[1..] == parts;
    }
  }
}
