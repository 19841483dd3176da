/** The row/value model every command shares: a cell is text, an integer the
    tool produced (a numeric sort column or a pivot sum), or the NULL marker;
    Python 2's ordering on those values; Python's list indexing; and
    `Main.to_numeric`. */
module Values {
  import opened Wrappers
  import opened Strings

  /** One field. `Null` is Python's `None`; `Int` only appears once the tool
      itself converts a field with `to_numeric`. */
  datatype Value = Null | Int(n: int) | Text(s: string)

  type Row = seq<Value>

  /** The exceptions that abort a command. */
  datatype Error =
    | ColumnNumberZero          // "Column numbers start at 1"
    | ColumnNotFound(name: string)
    | NonTextHeader             // `.lower()` reached a header cell that is not a string
    | IndexOutOfRange           // IndexError from `row[c]`
    | NotNumeric(text: string)  // `int()` refused the text (the `float()` retry is not modelled)
    | NotAString                // TypeError: `int(None)`, or joining a key that holds a non-string
    | EmptySortTerm             // IndexError from `c[0]` on an empty sort term
    | BadWidth(text: string)    // `int()` refused a fixed width

  /** `str(v)` for the writers: `None` becomes the empty string, as
      `csv.writer` writes it. */
  function Str(v: Value): string {
    match v
    case Null => ""
    case Int(n) => IntToString(n)
    case Text(s) => s
  }

  /** Python's `seq[i]`: a non-negative index counts from the left, a negative
      one from the right; anything else raises IndexError (None here). */
  function ResolveIndex(i: int, n: nat): (r: Option<nat>)
    ensures r.Some? <==> -(n as int) <= i < n
    ensures r.Some? ==> r.value < n
    ensures r.Some? && i >= 0 ==> r.value == i
    ensures r.Some? && i < 0 ==> r.value == n + i
  {
    if 0 <= i < n then Some(i) else if -(n as int) <= i < 0 then Some(n + i) else None
  }

  /** `row[i]` with Python's indexing. */
  function CellAt(row: Row, i: int): (r: Result<Value, Error>)
    ensures r.Ok? <==> ResolveIndex(i, |row|).Some?
    ensures r.Ok? ==> r.value == row[ResolveIndex(i, |row|).value]
    ensures r.Err? ==> r.error == IndexOutOfRange
  {
    match ResolveIndex(i, |row|)
    case Some(k) => Ok(row[k])
    case None => Err(IndexOutOfRange)
  }

  /** `Main.to_numeric` with integers only: `int(v)`. An integer stays itself,
      `int(None)` is a TypeError, and text must be an integer literal. */
  function ToNumeric(v: Value): (r: Result<int, Error>)
    ensures v.Int? ==> r == Ok(v.n)
    ensures v.Null? ==> r == Err(NotAString)
    ensures v.Text? ==> (r.Ok? <==> ParseInt(v.s).Some?)
    ensures v.Text? && r.Ok? ==> ParseInt(v.s) == Some(r.value)
    ensures v.Text? && r.Err? ==> r.error == NotNumeric(v.s)
  {
    match v
    case Null => Err(NotAString)
    case Int(n) => Ok(n)
    case Text(s) =>
      match ParseInt(s)
      case Some(n) => Ok(n)
      case None => Err(NotNumeric(s))
  }

  /** Text that `str()` of an integer wrote, padded or not, converts back to it. */
  lemma {:induction false} ToNumericOfString(n: int, pre: string, post: string)
    requires AllSpaces(pre) && AllSpaces(post)
    ensures ToNumeric(Text(pre + IntToString(n) + post)) == Ok(n)
  {
    ParseIntOfString(n, pre, post);
  }

  /** Python 2 string comparison: bytewise, a proper prefix first. */
  predicate StrLt(a: string, b: string)
    decreases |a|
  {
    if a == [] then b != []
    else if b == [] then false
    else if a[0] != b[0] then a[0] < b[0]
    else StrLt(a[1..], b[1..])
  }

  /** CPython 2's default ordering on the values a column can hold:
      `None` first, then numbers, then strings. */
  predicate ValueLt(a: Value, b: Value) {
    match a
    case Null => !b.Null?
    case Int(m) => (b.Int? && m < b.n) || b.Text?
    case Text(s) => b.Text? && StrLt(s, b.s)
  }

  /** Python tuple comparison: element by element, a proper prefix first. */
  predicate TupleLt(u: seq<Value>, v: seq<Value>)
    decreases |u|
  {
    if u == [] then v != []
    else if v == [] then false
    else if u[0] != v[0] then ValueLt(u[0], v[0])
    else TupleLt(u[1..], v[1..])
  }

  lemma {:induction false} StrLtIrreflexive(a: string)
    ensures !StrLt(a, a)
  {
    if a != [] {
      StrLtIrreflexive(a[1..]);
    }
  }

  lemma {:induction false} StrLtTransitive(a: string, b: string, c: string)
    requires StrLt(a, b) && StrLt(b, c)
    ensures StrLt(a, c)
    decreases |a|
  {
    if a != [] && a[0] == b[0] && b[0] == c[0] {
      StrLtTransitive(a[1..], b[1..], c[1..]);
    }
  }

  lemma {:induction false} StrLtTotal(a: string, b: string)
    ensures a == b || StrLt(a, b) || StrLt(b, a)
    decreases |a|
  {
    if a != [] && b != [] && a[0] == b[0] {
      StrLtTotal(a[1..], b[1..]);
      if a[1..] == b[1..] {
        assert a == [a[0]] + a[1..] && b == [b[0]] + b[1..];
      }
    }
  }

  lemma ValueLtIrreflexive(a: Value)
    ensures !ValueLt(a, a)
  {
    if a.Text? {
      StrLtIrreflexive(a.s);
    }
  }

  lemma ValueLtTransitive(a: Value, b: Value, c: Value)
    requires ValueLt(a, b) && ValueLt(b, c)
    ensures ValueLt(a, c)
  {
    if a.Text? {
      StrLtTransitive(a.s, b.s, c.s);
    }
  }

  lemma ValueLtTotal(a: Value, b: Value)
    ensures a == b || ValueLt(a, b) || ValueLt(b, a)
  {
    if a.Text? && b.Text? {
      StrLtTotal(a.s, b.s);
    }
  }

  lemma ValueLtAsymmetric(a: Value, b: Value)
    ensures !(ValueLt(a, b) && ValueLt(b, a))
  {
    if ValueLt(a, b) && ValueLt(b, a) {
      ValueLtTransitive(a, b, a);
      ValueLtIrreflexive(a);
    }
  }

  lemma {:induction false} TupleLtIrreflexive(u: seq<Value>)
    ensures !TupleLt(u, u)
  {
    if u != [] {
      TupleLtIrreflexive(u[1..]);
    }
  }

  lemma {:induction false} TupleLtTransitive(u: seq<Value>, v: seq<Value>, w: seq<Value>)
    requires TupleLt(u, v) && TupleLt(v, w)
    ensures TupleLt(u, w)
    decreases |u|
  {
    if u != [] && v != [] && w != [] {
      if u[0] == v[0] && v[0] == w[0] {
        TupleLtTransitive(u[1..], v[1..], w[1..]);
      } else if u[0] != v[0] && v[0] != w[0] {
        ValueLtTransitive(u[0], v[0], w[0]);
        if u[0] == w[0] {
          ValueLtIrreflexive(u[0]);
        }
      }
    }
  }

  lemma {:induction false} TupleLtTotal(u: seq<Value>, v: seq<Value>)
    ensures u == v || TupleLt(u, v) || TupleLt(v, u)
    decreases |u|
  {
    if u != [] && v != [] {
      if u[0] == v[0] {
        TupleLtTotal(u[1..], v[1..]);
        if u[1..] == v[1..] {
          assert u == [u[0]] + u[1..] && v == [v[0]] + v[1..];
        }
      } else {
        ValueLtTotal(u[0], v[0]);
      }
    }
  }

  lemma TupleLtAsymmetric(u: seq<Value>, v: seq<Value>)
    ensures !(TupleLt(u, v) && TupleLt(v, u))
  {
    if TupleLt(u, v) && TupleLt(v, u) {
      TupleLtTransitive(u, v, u);
      TupleLtIrreflexive(u);
    }
  }
}
