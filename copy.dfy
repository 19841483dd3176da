/** The `tocopy` renderer (csvtool.py:311-355): every body row becomes one line
    of the PostgreSQL COPY text format, fields separated by a tab, NULL written
    as `\N`, and backslash, control and non-ASCII characters escaped. The
    decoder below is the text-format reader of PostgreSQL's `COPY ... FROM`
    (backslash sequences `\b \f \n \r \t \v`, one to three octal digits, `\x`
    with one or two hex digits, any other escaped character standing for
    itself), against which the encoder is checked.

    Cells are Python 2 byte strings, so every character of a cell is below
    256; round trips are stated for such text. */
module Copy {
  import opened Wrappers
  import opened Strings
  import opened Values

  const Backspace: char := 8 as char
  const VerticalTab: char := 11 as char
  const FormFeed: char := 12 as char

  predicate Printable(c: char) {
    32 <= c as int <= 126
  }

  predicate IsOctal(c: char) {
    '0' <= c <= '7'
  }

  predicate IsHex(c: char) {
    '0' <= c <= '9' || 'a' <= c <= 'f' || 'A' <= c <= 'F'
  }

  // ---- the encoder

  /** `_map`: the characters written as a backslash and one letter, and that letter. */
  function EscapeLetter(c: char): (l: Option<char>)
    ensures l.Some? ==> Printable(l.value) && l.value != 'N' && !IsOctal(l.value) && l.value != 'x'
  {
    if c == '\\' then Some('\\')
    else if c == Backspace then Some('b')
    else if c == FormFeed then Some('f')
    else if c == '\n' then Some('n')
    else if c == '\r' then Some('r')
    else if c == '\t' then Some('t')
    else if c == VerticalTab then Some('v')
    else None
  }

  function OctalDigit(d: nat): (c: char)
    requires d < 8
    ensures IsOctal(c)
  {
    ('0' as int + d) as char
  }

  /** `'%o' % n`: the octal numeral, no leading zeros. */
  function OctalDigits(n: nat): (ds: string)
    ensures 1 <= |ds|
    ensures forall i :: 0 <= i < |ds| ==> IsOctal(ds[i])
    ensures n < 8 ==> |ds| == 1
    ensures 8 <= n < 64 ==> |ds| == 2
    ensures 64 <= n < 512 ==> |ds| == 3
  {
    if n < 8 then [OctalDigit(n)] else OctalDigits(n / 8) + [OctalDigit(n % 8)]
  }

  /** Right-justify `s` in a field of `width` characters filled with `fill`. */
  function PadLeft(s: string, width: nat, fill: char): (p: string)
    ensures |p| == if |s| >= width then |s| else width
    ensures forall i :: 0 <= i < |p| - |s| ==> p[i] == fill
    ensures p[|p| - |s|..] == s
  {
    if |s| >= width then s else seq(width - |s|, _ => fill) + s
  }

  /** One character as `toStr` writes it (csvtool.py:344-353), with the octal
      code padded by `fill`: a space for `'\\%3o'`, a zero for `'\\%03o'`. */
  function EncodeCharWith(c: char, fill: char): (e: string)
    requires fill == ' ' || fill == '0'
    ensures |e| >= 1 && forall i :: 0 <= i < |e| ==> Printable(e[i])
    ensures e[0] == '\\' ==> |e| >= 2 && e[1] != 'N'
  {
    match EscapeLetter(c)
    case Some(l) => ['\\', l]
    case None =>
      if !Printable(c) then
        var p := PadLeft(OctalDigits(c as int), 3, fill);
        PaddedOctalPrintable(c as int, fill);
        ['\\'] + p
      else [c]
  }

  lemma PaddedOctalPrintable(n: nat, fill: char)
    requires fill == ' ' || fill == '0'
    ensures var p := PadLeft(OctalDigits(n), 3, fill);
            |p| >= 3 && (forall i :: 0 <= i < |p| ==> Printable(p[i])) && p[0] != 'N'
  {
    var ds := OctalDigits(n);
    var p := PadLeft(ds, 3, fill);
    forall i | 0 <= i < |p|
      ensures Printable(p[i])
    {
      if i >= |p| - |ds| {
        assert p[i] == p[|p| - |ds|..][i - (|p| - |ds|)] == ds[i - (|p| - |ds|)];
      }
    }
  }

  /** The cases of `toStr` for one character: a letter escape for the
      characters of `_map`, the character itself when printable, and a
      backslash and a three-column octal code otherwise. */
  lemma EncodeCharCases(c: char, fill: char)
    requires fill == ' ' || fill == '0'
    ensures var e := EncodeCharWith(c, fill);
            && ((Printable(c) && c != '\\') <==> e == [c])
            && (EscapeLetter(c).Some? ==> e == ['\\', EscapeLetter(c).value])
            && (EscapeLetter(c).None? && !Printable(c) ==>
                  e == ['\\'] + PadLeft(OctalDigits(c as int), 3, fill))
  {
  }

  function EncodeWith(s: string, fill: char): (e: string)
    requires fill == ' ' || fill == '0'
    ensures forall i :: 0 <= i < |e| ==> Printable(e[i])
    ensures s != [] ==> |e| >= 1 && (e[0] == '\\' ==> |e| >= 2 && e[1] != 'N')
  {
    if s == [] then [] else EncodeCharWith(s[0], fill) + EncodeWith(s[1..], fill)
  }

  /** `tocopy_cmd.toStr`, with the octal codes padded by `fill`: a space as
      written (`'\\%3o'`, csvtool.py:351), a zero in the corrected encoder
      (`'\\%03o'`) that the round trips below are proved for. */
  function ToStr(v: Value, fill: char): (s: string)
    requires fill == ' ' || fill == '0'
    ensures v.Null? <==> s == "\\N"
    ensures forall i :: 0 <= i < |s| ==> Printable(s[i])
  {
    if v.Null? then "\\N" else EncodeWith(Str(v), fill)
  }

  /** `rowToStrs` with `toStr`. */
  function CopyFields(r: Row, fill: char): (fs: seq<string>)
    requires fill == ' ' || fill == '0'
    ensures |fs| == |r|
    ensures forall i :: 0 <= i < |r| ==> fs[i] == ToStr(r[i], fill)
  {
    if r == [] then [] else [ToStr(r[0], fill)] + CopyFields(r[1..], fill)
  }

  /** One line of output (csvtool.py:336-337). */
  function CopyLine(r: Row, fill: char): string
    requires fill == ' ' || fill == '0'
  {
    Join(CopyFields(r, fill), '\t') + "\n"
  }

  /** The output for the rows after the discarded header. */
  function CopyOutput(body: seq<Row>, fill: char): string
    requires fill == ' ' || fill == '0'
  {
    if body == [] then "" else CopyLine(body[0], fill) + CopyOutput(body[1..], fill)
  }

  // ---- the PostgreSQL text-format decoder

  function Cons(c: char, rest: Option<string>): Option<string> {
    match rest
    case None => None
    case Some(t) => Some([c] + t)
  }

  /** The character a backslash-letter sequence stands for, if any. */
  function LetterChar(l: char): Option<char> {
    if l == 'b' then Some(Backspace)
    else if l == 'f' then Some(FormFeed)
    else if l == 'n' then Some('\n')
    else if l == 'r' then Some('\r')
    else if l == 't' then Some('\t')
    else if l == 'v' then Some(VerticalTab)
    else None
  }

  function OctalValue(ds: string): nat
    requires forall i :: 0 <= i < |ds| ==> IsOctal(ds[i])
  {
    if ds == [] then 0
    else
      var d := ds[|ds| - 1];
      assert IsOctal(d);
      OctalValue(ds[..|ds| - 1]) * 8 + (d as int - '0' as int)
  }

  function HexDigitValue(c: char): nat
    requires IsHex(c)
  {
    if c <= '9' then c as int - '0' as int
    else if c <= 'F' then c as int - 'A' as int + 10
    else c as int - 'a' as int + 10
  }

  /** The number of octal digits taken after a backslash: at most three. */
  function OctalRun(s: string): (k: nat)
    requires |s| >= 1 && IsOctal(s[0])
    ensures 1 <= k <= 3 && k <= |s|
    ensures forall i :: 0 <= i < k ==> IsOctal(s[i])
  {
    if |s| >= 2 && IsOctal(s[1]) then (if |s| >= 3 && IsOctal(s[2]) then 3 else 2) else 1
  }

  /** De-escape one field; a backslash at the very end is malformed. */
  function Unescape(s: string): Option<string>
    decreases |s|
  {
    if s == [] then Some([])
    else if s[0] != '\\' then Cons(s[0], Unescape(s[1..]))
    else if |s| == 1 then None
    else if IsOctal(s[1]) then
      var k := OctalRun(s[1..]);
      Cons((OctalValue(s[1..1 + k]) % 256) as char, Unescape(s[1 + k..]))
    else if s[1] == 'x' && |s| >= 3 && IsHex(s[2]) then
      if |s| >= 4 && IsHex(s[3]) then
        Cons((HexDigitValue(s[2]) * 16 + HexDigitValue(s[3])) as char, Unescape(s[4..]))
      else
        Cons(HexDigitValue(s[2]) as char, Unescape(s[3..]))
    else
      match LetterChar(s[1])
      case Some(c) => Cons(c, Unescape(s[2..]))
      case None => Cons(s[1], Unescape(s[2..]))
  }

  /** A field: the raw marker `\N` is NULL, anything else de-escaped text. */
  function DecodeField(f: string): Option<Value> {
    if f == "\\N" then Some(Null)
    else
      match Unescape(f)
      case None => None
      case Some(t) => Some(Text(t))
  }

  function DecodeFields(fs: seq<string>): Option<Row> {
    if fs == [] then Some([])
    else
      match DecodeField(fs[0])
      case None => None
      case Some(v) =>
        match DecodeFields(fs[1..])
        case None => None
        case Some(vs) => Some([v] + vs)
  }

  /** A line ends with a newline and holds tab-separated fields. */
  function DecodeLine(line: string): Option<Row> {
    if line == [] || line[|line| - 1] != '\n' then None
    else DecodeFields(Split(line[..|line| - 1], '\t'))
  }

  // ---- what the decoder gives back

  /** A Python 2 string: every character a byte. */
  predicate Bytes(s: string) {
    forall i :: 0 <= i < |s| ==> s[i] as int < 256
  }

  /** The value the decoder reads for a value written: text and NULL as they
      were, a number as its decimal text. */
  function AsRead(v: Value): Value {
    match v
    case Int(n) => Text(IntToString(n))
    case _ => v
  }

  function AsReadRow(r: Row): (back: Row)
    ensures |back| == |r|
    ensures forall i :: 0 <= i < |r| ==> back[i] == AsRead(r[i])
  {
    if r == [] then [] else [AsRead(r[0])] + AsReadRow(r[1..])
  }

  predicate BytesValue(v: Value) {
    v.Text? ==> Bytes(v.s)
  }

  lemma OctalValueOfThree(a: nat, b: nat, c: nat)
    requires a < 8 && b < 8 && c < 8
    ensures OctalValue([OctalDigit(a), OctalDigit(b), OctalDigit(c)]) == a * 64 + b * 8 + c
  {
    var p := [OctalDigit(a), OctalDigit(b), OctalDigit(c)];
    assert p[..2] == [OctalDigit(a), OctalDigit(b)];
    assert p[..2][..1] == [OctalDigit(a)] && p[..2][..1][..0] == [];
    assert OctalValue(p[..2][..1]) == a;
    assert OctalValue(p[..2]) == a * 8 + b;
  }

  /** Zero-padded to three columns, the octal numeral of a byte is its three
      base-8 digits. */
  lemma PaddedOctalOfByte(n: nat)
    requires n < 256
    ensures PadLeft(OctalDigits(n), 3, '0') == [OctalDigit(n / 64), OctalDigit(n / 8 % 8), OctalDigit(n % 8)]
  {
    if n < 8 {
      assert OctalDigit(0) == '0';
    } else if n < 64 {
      assert OctalDigits(n / 8) == [OctalDigit(n / 8)];
      assert n / 8 % 8 == n / 8 && n / 64 == 0 && OctalDigit(0) == '0';
    } else {
      assert n / 8 / 8 == n / 64 && n / 8 % 8 == (n / 8) % 8;
      assert OctalDigits(n / 64) == [OctalDigit(n / 64)];
      assert OctalDigits(n / 8) == [OctalDigit(n / 64), OctalDigit(n / 8 % 8)];
    }
  }

  /** A character other than a backslash stands for itself. */
  lemma UnescapePlain(c: char, t: string)
    requires c != '\\'
    ensures Unescape([c] + t) == Cons(c, Unescape(t))
  {
    assert ([c] + t)[1..] == t;
  }

  lemma UnescapeLetter(c: char, t: string)
    requires EscapeLetter(c).Some?
    ensures Unescape(['\\', EscapeLetter(c).value] + t) == Cons(c, Unescape(t))
  {
    assert (['\\', EscapeLetter(c).value] + t)[2..] == t;
  }

  lemma UnescapeOctal(c: char, t: string)
    requires c as int < 256
    ensures Unescape(['\\'] + PadLeft(OctalDigits(c as int), 3, '0') + t) == Cons(c, Unescape(t))
  {
    PaddedOctalOfByte(c as int);
    UnescapeThreeDigits(c, PadLeft(OctalDigits(c as int), 3, '0'), t);
  }

  /** Three octal digits after a backslash are read back as the byte they spell. */
  lemma UnescapeThreeDigits(c: char, p: string, t: string)
    requires c as int < 256
    requires p == [OctalDigit(c as int / 64), OctalDigit(c as int / 8 % 8), OctalDigit(c as int % 8)]
    ensures Unescape(['\\'] + p + t) == Cons(c, Unescape(t))
  {
    var n := c as int;
    OctalValueOfThree(n / 64, n / 8 % 8, n % 8);
    ByteDigits(n);
    var s := ['\\'] + p + t;
    assert s[1..][..3] == p && s[1..4] == p && s[4..] == t;
    assert OctalRun(s[1..]) == 3;
    UnescapeOctalStep(s);
  }

  lemma ByteDigits(n: nat)
    ensures n / 64 * 64 + n / 8 % 8 * 8 + n % 8 == n
  {
    assert n == n / 8 * 8 + n % 8;
    assert n / 8 == n / 8 / 8 * 8 + n / 8 % 8;
    assert n / 8 / 8 == n / 64;
  }

  lemma UnescapeOctalStep(s: string)
    requires |s| >= 2 && s[0] == '\\' && IsOctal(s[1])
    ensures var k := OctalRun(s[1..]);
            Unescape(s) == Cons((OctalValue(s[1..1 + k]) % 256) as char, Unescape(s[1 + k..]))
  {
  }

  /** The decoder reads one encoded byte back and goes on after it. */
  lemma UnescapeChar(c: char, t: string)
    requires c as int < 256
    ensures Unescape(EncodeCharWith(c, '0') + t) == Cons(c, Unescape(t))
  {
    EncodeCharCases(c, '0');
    if EscapeLetter(c).Some? {
      UnescapeLetter(c, t);
    } else if !Printable(c) {
      UnescapeOctal(c, t);
    } else {
      UnescapePlain(c, t);
    }
  }

  /** Decoding an encoded byte string gives it back. */
  lemma {:induction false} UnescapeEncode(s: string)
    requires Bytes(s)
    ensures Unescape(EncodeWith(s, '0')) == Some(s)
  {
    if s != [] {
      UnescapeEncode(s[1..]);
      UnescapeChar(s[0], EncodeWith(s[1..], '0'));
      assert [s[0]] + s[1..] == s;
    }
  }

  /** Every value reads back as written: NULL as NULL, text as the same text,
      a number as its decimal digits. */
  lemma FieldRoundTrip(v: Value)
    requires BytesValue(v)
    ensures DecodeField(ToStr(v, '0')) == Some(AsRead(v))
  {
    if !v.Null? {
      var s := Str(v);
      if v.Int? {
        IntToStringBytes(v.n);
      }
      UnescapeEncode(s);
    }
  }

  lemma IntToStringBytes(n: int)
    ensures Bytes(IntToString(n))
  {
    var ds := NatToDecimal(if n < 0 then -n else n);
    assert AllDigits(ds);
    assert IntToString(n) == ds || IntToString(n) == "-" + ds;
  }

  lemma {:induction false} FieldsRoundTrip(r: Row)
    requires forall i :: 0 <= i < |r| ==> BytesValue(r[i])
    ensures DecodeFields(CopyFields(r, '0')) == Some(AsReadRow(r))
  {
    if r != [] {
      FieldRoundTrip(r[0]);
      FieldsRoundTrip(r[1..]);
      assert CopyFields(r, '0')[1..] == CopyFields(r[1..], '0');
    }
  }

  /** A line of `tocopy` output decodes to the row it was written from; a
      field holds no raw tab or newline, so the split is unambiguous. */
  lemma LineRoundTrip(r: Row)
    requires |r| >= 1
    requires forall i :: 0 <= i < |r| ==> BytesValue(r[i])
    ensures DecodeLine(CopyLine(r, '0')) == Some(AsReadRow(r))
  {
    var fs := CopyFields(r, '0');
    forall i | 0 <= i < |fs|
      ensures '\t' !in fs[i]
    {
      assert forall j :: 0 <= j < |fs[i]| ==> Printable(fs[i][j]);
    }
    SplitJoin(fs, '\t');
    var line := CopyLine(r, '0');
    assert line[..|line| - 1] == Join(fs, '\t');
    FieldsRoundTrip(r);
  }

  /** The empty row and the row of one empty text field are written alike. */
  lemma EmptyRowAmbiguous(fill: char)
    requires fill == ' ' || fill == '0'
    ensures CopyLine([], fill) == CopyLine([Text("")], fill) == "\n"
  {
  }

  /** No line holds a newline before its end, so the output splits into the
      lines of the rows. */
  lemma {:induction false} OutputLines(body: seq<Row>, fill: char)
    requires fill == ' ' || fill == '0'
    ensures Split(CopyOutput(body, fill), '\n') ==
            seq(|body|, i requires 0 <= i < |body| => Join(CopyFields(body[i], fill), '\t')) + [""]
  {
    if body != [] {
      var p := Join(CopyFields(body[0], fill), '\t');
      var rest := CopyOutput(body[1..], fill);
      var later := seq(|body| - 1, i requires 0 <= i < |body| - 1 => Join(CopyFields(body[1..][i], fill), '\t'));
      assert Split(rest, '\n') == later + [""] by {
        OutputLines(body[1..], fill);
      }
      assert Split(CopyOutput(body, fill), '\n') == [p] + Split(rest, '\n') by {
        LineHasNoNewline(body[0], fill);
        SplitAfterPiece(p, rest, '\n');
        assert CopyOutput(body, fill) == p + ['\n'] + rest;
      }
      var lines := seq(|body|, i requires 0 <= i < |body| => Join(CopyFields(body[i], fill), '\t'));
      assert lines == [p] + later;
    }
  }

  /** The tab-joined fields of a row hold no newline. */
  lemma LineHasNoNewline(r: Row, fill: char)
    requires fill == ' ' || fill == '0'
    ensures '\n' !in Join(CopyFields(r, fill), '\t')
  {
    var fs := CopyFields(r, fill);
    JoinPrintable(fs, '\t');
    var p := Join(fs, '\t');
    forall j | 0 <= j < |p|
      ensures p[j] != '\n'
    {
      assert Printable(p[j]) || p[j] == '\t';
    }
  }

  lemma {:induction false} JoinPrintable(fs: seq<string>, sep: char)
    requires forall i :: 0 <= i < |fs| ==> forall j :: 0 <= j < |fs[i]| ==> Printable(fs[i][j])
    ensures forall j :: 0 <= j < |Join(fs, sep)| ==> Printable(Join(fs, sep)[j]) || Join(fs, sep)[j] == sep
  {
    if |fs| > 1 {
      JoinPrintable(fs[1..], sep);
    }
  }

  // ---- the octal padding as written

  /** As written, a control character without a letter escape gets a
      space-padded octal code, `\  1` for byte 1; the decoder takes the
      backslash-space for a plain space and reads the field as `  1`. */
  lemma SpacePaddedOctalMisread()
    ensures ToStr(Text([1 as char]), ' ') == "\\  1"
    ensures DecodeField(ToStr(Text([1 as char]), ' ')) == Some(Text("  1"))
  {
    assert OctalDigits(1) == ['1'];
    assert PadLeft("1", 3, ' ') == "  1";
    EncodeCharCases(1 as char, ' ');
    assert EncodeWith([1 as char], ' ') == "\\  1";
    UnescapeSpacePadded();
  }

  lemma UnescapeSpacePadded()
    ensures Unescape("\\  1") == Some("  1")
  {
    assert "1" == ['1'] + "" && " 1" == [' '] + "1";
    UnescapePlain('1', "");
    UnescapePlain(' ', "1");
    assert "\\  1"[2..] == " 1";
    assert Unescape("\\  1") == Cons(' ', Unescape(" 1"));
    assert [' '] + " 1" == "  1";
  }

  /** The zero-padded code of the same byte reads back as the byte. */
  lemma ZeroPaddedOctalRead()
    ensures ToStr(Text([1 as char]), '0') == "\\001"
    ensures DecodeField(ToStr(Text([1 as char]), '0')) == Some(Text([1 as char]))
  {
    assert OctalDigits(1) == ['1'];
    assert PadLeft("1", 3, '0') == "001";
    EncodeCharCases(1 as char, '0');
    assert EncodeWith([1 as char], '0') == "\\001";
    FieldRoundTrip(Text([1 as char]));
  }
}
