/** The `pivot` command (csvtool.py:179-249): every input row contributes its
    value to the cell at (row key, column key); the output has one row per
    distinct row key and one value column per distinct column key, both in
    ascending order, and a cell no input row reached is NULL. */
module Pivot {
  import opened Wrappers
  import opened Strings
  import opened Values
  import opened Columns

  /** A key: the tuple of a row's cells in the key columns. */
  type Tuple = seq<Value>

  /** What one input row contributes: its row key, its column key and its value. */
  datatype Entry = Entry(y: Tuple, x: Tuple, v: int)

  datatype Table = Table(header: Row, body: seq<Row>)

  /** `tuple([row[c] for c in cols])`. */
  function Project(row: Row, cols: seq<int>): (r: Result<Tuple, Error>)
    ensures r.Ok? <==> forall k :: 0 <= k < |cols| ==> ResolveIndex(cols[k], |row|).Some?
    ensures r.Ok? ==> |r.value| == |cols|
    ensures r.Ok? ==> forall k :: 0 <= k < |cols| ==> r.value[k] == row[ResolveIndex(cols[k], |row|).value]
    ensures r.Err? ==> r.error == IndexOutOfRange
  {
    if cols == [] then Ok([])
    else
      match CellAt(row, cols[0])
      case Err(e) => Err(e)
      case Ok(v) =>
        match Project(row, cols[1..])
        case Err(e) => Err(e)
        case Ok(rest) =>
          assert forall k :: 1 <= k < |cols| ==> cols[k] == cols[1..][k - 1];
          Ok([v] + rest)
  }

  /** One pass of the loop body: the column key, the row key, then the value
      through `to_numeric`, failing at the first of them that raises. */
  function RowEntry(row: Row, columns: seq<int>, rows: seq<int>, valueCol: int): Result<Entry, Error> {
    match Project(row, columns)
    case Err(e) => Err(e)
    case Ok(x) =>
      match Project(row, rows)
      case Err(e) => Err(e)
      case Ok(y) =>
        match CellAt(row, valueCol)
        case Err(e) => Err(e)
        case Ok(cell) =>
          match ToNumeric(cell)
          case Err(e) => Err(e)
          case Ok(v) => Ok(Entry(y, x, v))
  }

  /** The contributions of all input rows, stopping at the first row that raises. */
  function Entries(body: seq<Row>, columns: seq<int>, rows: seq<int>, valueCol: int): (r: Result<seq<Entry>, Error>)
    ensures r.Ok? ==> |r.value| == |body|
    ensures r.Ok? ==> forall i :: 0 <= i < |body| ==> RowEntry(body[i], columns, rows, valueCol) == Ok(r.value[i])
  {
    CollectSpec(EntryReader(columns, rows, valueCol), body);
    Collect(EntryReader(columns, rows, valueCol), body)
  }

  /** `RowEntry` for fixed key and value columns, as a function of the row. */
  function EntryReader(columns: seq<int>, rows: seq<int>, valueCol: int): Row -> Result<Entry, Error> {
    row => RowEntry(row, columns, rows, valueCol)
  }

  /** The distinct row keys and column keys among the contributions. */
  function RowKeys(es: seq<Entry>): set<Tuple> {
    set i | 0 <= i < |es| :: es[i].y
  }

  function ColKeys(es: seq<Entry>): set<Tuple> {
    set i | 0 <= i < |es| :: es[i].x
  }

  /** Some input row has row key `y` and column key `x`. */
  ghost predicate Seen(es: seq<Entry>, y: Tuple, x: Tuple) {
    exists i :: 0 <= i < |es| && es[i].y == y && es[i].x == x
  }

  /** The sum of the values of the rows with keys `y` and `x`. */
  function Total(es: seq<Entry>, y: Tuple, x: Tuple): int {
    if es == [] then 0
    else
      var last := es[|es| - 1];
      Total(es[..|es| - 1], y, x) + (if last.y == y && last.x == x then last.v else 0)
  }

  /** An output value cell: the sum, or NULL when no row had these keys. */
  ghost function Cell(es: seq<Entry>, y: Tuple, x: Tuple): Value {
    if Seen(es, y, x) then Int(Total(es, y, x)) else Null
  }

  /** Python's ascending order on tuples, with no key twice. */
  predicate StrictlySorted(s: seq<Tuple>) {
    forall i, j :: 0 <= i < j < |s| ==> TupleLt(s[i], s[j])
  }

  /** `s` is `keys` in ascending order. */
  ghost predicate SortedListing(s: seq<Tuple>, keys: set<Tuple>) {
    StrictlySorted(s) && forall k :: k in s <==> k in keys
  }

  /** The ascending listing of a set of keys (there is exactly one, by `ListingUnique`). */
  ghost function Listing(keys: set<Tuple>): (s: seq<Tuple>)
    ensures SortedListing(s, keys)
  {
    ListingExists(keys);
    var s :| SortedListing(s, keys);
    s
  }

  /** `'-'.join(key)`: only a key made of strings can be joined. */
  function JoinKey(key: Tuple): (r: Result<string, Error>)
    ensures r.Ok? <==> forall k :: 0 <= k < |key| ==> key[k].Text?
    ensures r.Err? ==> r.error == NotAString
  {
    if forall k :: 0 <= k < |key| ==> key[k].Text? then
      Ok(Join(seq(|key|, k requires 0 <= k < |key| => key[k].s), '-'))
    else
      Err(NotAString)
  }

  /** Place `k` into an ascending listing that lacks it. */
  function InsertKey(k: Tuple, s: seq<Tuple>): (r: seq<Tuple>)
    requires StrictlySorted(s) && k !in s
    ensures StrictlySorted(r)
    ensures forall z :: z in r <==> z == k || z in s
    ensures |r| == |s| + 1
  {
    if s == [] then [k]
    else if TupleLt(k, s[0]) then
      assert forall j :: 0 < j < |s| ==> TupleLt(k, s[j]) by {
        forall j | 0 < j < |s|
          ensures TupleLt(k, s[j])
        {
          TupleLtTransitive(k, s[0], s[j]);
        }
      }
      [k] + s
    else
      var rest := InsertKey(k, s[1..]);
      TupleLtTotal(k, s[0]);
      assert forall z :: z in rest ==> TupleLt(s[0], z) by {
        forall z | z in rest
          ensures TupleLt(s[0], z)
        {
          if z != k {
            var j :| 0 <= j < |s[1..]| && s[1..][j] == z;
            assert s[j + 1] == z;
          }
        }
      }
      var r := [s[0]] + rest;
      assert forall i, j :: 0 <= i < j < |r| ==> TupleLt(r[i], r[j]) by {
        forall i, j | 0 <= i < j < |r|
          ensures TupleLt(r[i], r[j])
        {
          if i == 0 {
            assert r[j] == rest[j - 1] && r[j] in rest;
          } else {
            assert r[i] == rest[i - 1] && r[j] == rest[j - 1];
          }
        }
      }
      assert forall z :: z in s ==> z == s[0] || z in s[1..] by {
        forall z | z in s
          ensures z == s[0] || z in s[1..]
        {
          var j :| 0 <= j < |s| && s[j] == z;
          if j > 0 {
            assert s[1..][j - 1] == z;
          }
        }
      }
      r
  }

  /** `sorted(d.keys())`: the keys of a dictionary in ascending order. */
  method SortKeys(keys: set<Tuple>) returns (s: seq<Tuple>)
    ensures SortedListing(s, keys)
  {
    s := [];
    var rest := keys;
    while rest != {}
      invariant rest <= keys
      invariant StrictlySorted(s)
      invariant forall k :: k in s <==> k in keys && k !in rest
      decreases |rest|
    {
      var k :| k in rest;
      s := InsertKey(k, s);
      rest := rest - {k};
    }
  }

  /** The accumulation loop of `pivot_cmd.__call__`: `res` maps each row key
      to its column keys and running sums, `seencols` collects the column keys. */
  method Accumulate(body: seq<Row>, columns: seq<int>, rows: seq<int>, valueCol: int)
    returns (res: Result<(map<Tuple, map<Tuple, int>>, set<Tuple>), Error>)
    ensures res.Ok? <==> Entries(body, columns, rows, valueCol).Ok?
    ensures res.Err? ==> res.error == Entries(body, columns, rows, valueCol).error
    ensures res.Ok? ==>
              && Tracks(res.value.0, Entries(body, columns, rows, valueCol).value)
              && res.value.1 == ColKeys(Entries(body, columns, rows, valueCol).value)
  {
    var acc: map<Tuple, map<Tuple, int>> := map[];
    var seen: set<Tuple> := {};
    ghost var es: seq<Entry> := [];
    var j := 0;
    assert body[..0] == [];
    while j < |body|
      invariant 0 <= j <= |body|
      invariant Entries(body[..j], columns, rows, valueCol) == Ok(es)
      invariant seen == ColKeys(es)
      invariant Tracks(acc, es)
    {
      var step := RowEntry(body[j], columns, rows, valueCol);
      if step.Err? {
        CollectFails(EntryReader(columns, rows, valueCol), body, j, es);
        return Err(step.error);
      }
      var e := step.value;
      seen := seen + {e.x};
      var yr := if e.y in acc then acc[e.y] else map[];
      var sum := if e.x in yr then yr[e.x] else 0;
      CollectSnoc(EntryReader(columns, rows, valueCol), body, j, es, e);
      TracksAdd(acc, es, e, yr, sum);
      ColKeysAdd(es, e);
      acc := acc[e.y := yr[e.x := sum + e.v]];
      es := es + [e];
      j := j + 1;
    }
    assert body[..j] == body;
    res := Ok((acc, seen));
  }

  /** The header: the names of the row-key columns, then the name of the value
      column without `-x`, or each column key joined with `-`. */
  method HeaderRow(incols: Row, columns: seq<int>, rows: seq<int>, valueCol: int, outcols: seq<Tuple>)
    returns (res: Result<Row, Error>)
    ensures res.Ok? <==>
              && Project(incols, rows).Ok?
              && (columns == [] ==> CellAt(incols, valueCol).Ok?)
              && (columns != [] ==> forall p :: 0 <= p < |outcols| ==> JoinKey(outcols[p]).Ok?)
    ensures res.Err? && (Project(incols, rows).Err? || columns == []) ==> res.error == IndexOutOfRange
    ensures res.Err? && Project(incols, rows).Ok? && columns != [] ==> res.error == NotAString
    ensures res.Ok? ==>
              res.value ==
                Project(incols, rows).value +
                (if columns == [] then [CellAt(incols, valueCol).value]
                 else seq(|outcols|, p requires 0 <= p < |outcols| => Text(JoinKey(outcols[p]).value)))
  {
    var names := Project(incols, rows);
    if names.Err? {
      return Err(names.error);
    }
    var h := names.value;
    if columns == [] {
      var name := CellAt(incols, valueCol);
      if name.Err? {
        return Err(name.error);
      }
      h := h + [name.value];
    } else {
      var q := 0;
      while q < |outcols|
        invariant 0 <= q <= |outcols|
        invariant forall p :: 0 <= p < q ==> JoinKey(outcols[p]).Ok?
        invariant h == names.value + seq(q, p requires 0 <= p < q => Text(JoinKey(outcols[p]).value))
      {
        var name := JoinKey(outcols[q]);
        if name.Err? {
          return Err(name.error);
        }
        h := h + [Text(name.value)];
        q := q + 1;
      }
    }
    res := Ok(h);
  }

  /** The output rows: for each row key, the key then `yr.get(c)` per column key. */
  method OutputRows(acc: map<Tuple, map<Tuple, int>>, ghost es: seq<Entry>, outrows: seq<Tuple>, outcols: seq<Tuple>)
    returns (out: seq<Row>)
    requires Tracks(acc, es)
    requires forall k :: 0 <= k < |outrows| ==> outrows[k] in acc
    ensures |out| == |outrows|
    ensures forall k :: 0 <= k < |outrows| ==> out[k] == OutRow(es, outrows[k], outcols)
  {
    out := [];
    var i := 0;
    while i < |outrows|
      invariant 0 <= i <= |outrows|
      invariant |out| == i
      invariant forall k :: 0 <= k < i ==> out[k] == OutRow(es, outrows[k], outcols)
    {
      var r := outrows[i];
      var line := r;
      var yr := acc[r];
      var q := 0;
      while q < |outcols|
        invariant 0 <= q <= |outcols|
        invariant line == r + seq(q, p requires 0 <= p < q => Cell(es, r, outcols[p]))
      {
        var c := outcols[q];
        line := line + [if c in yr then Int(yr[c]) else Null];
        q := q + 1;
      }
      out := out + [line];
      i := i + 1;
    }
  }

  /** The output of the command for the contributions `es` can be written:
      the header cells exist and, with `-x`, every column key is text. */
  ghost predicate CanEmit(incols: Row, columns: seq<int>, rows: seq<int>, valueCol: int, es: seq<Entry>) {
    && Project(incols, rows).Ok?
    && (columns == [] ==> CellAt(incols, valueCol).Ok?)
    && (columns != [] ==> forall x :: x in ColKeys(es) ==> JoinKey(x).Ok?)
  }

  /** `t` is the pivot table of the contributions `es`: the header names the
      row-key columns, then the value column (no `-x`) or each column key
      joined with `-`; then one row per row key in ascending order, holding the
      key and, per column key in ascending order, the sum or NULL. */
  ghost predicate IsPivot(t: Table, incols: Row, columns: seq<int>, rows: seq<int>, valueCol: int, es: seq<Entry>)
    requires CanEmit(incols, columns, rows, valueCol, es)
  {
    var xs := Listing(ColKeys(es));
    var ys := Listing(RowKeys(es));
    && t.header ==
         Project(incols, rows).value +
         (if columns == [] then [CellAt(incols, valueCol).value]
          else seq(|xs|, q requires 0 <= q < |xs| => Text(JoinKey(xs[q]).value)))
    && |t.body| == |ys|
    && forall i :: 0 <= i < |ys| ==>
         && |t.body[i]| == |rows| + |xs|
         && t.body[i][..|rows|] == ys[i]
         && forall q :: 0 <= q < |xs| ==> t.body[i][|rows| + q] == Cell(es, ys[i], xs[q])
  }

  /** After the loop: sort both key sets, write the header and the rows. */
  method Emit(incols: Row, columns: seq<int>, rows: seq<int>, valueCol: int,
              acc: map<Tuple, map<Tuple, int>>, seen: set<Tuple>, ghost es: seq<Entry>)
    returns (res: Result<Table, Error>)
    requires Tracks(acc, es) && seen == ColKeys(es)
    requires forall y :: y in RowKeys(es) ==> |y| == |rows|
    ensures res.Ok? <==> CanEmit(incols, columns, rows, valueCol, es)
    ensures res.Ok? ==> IsPivot(res.value, incols, columns, rows, valueCol, es)
  {
    var outcols := SortKeys(seen);
    var outrows := SortKeys(acc.Keys);
    ListingUnique(outcols, Listing(seen), seen);
    ListingUnique(outrows, Listing(acc.Keys), acc.Keys);
    JoinableListing(outcols, seen);
    var h := HeaderRow(incols, columns, rows, valueCol, outcols);
    if h.Err? {
      return Err(h.error);
    }
    var out := OutputRows(acc, es, outrows, outcols);
    res := Ok(Table(h.value, out));
    PivotOfParts(incols, columns, rows, valueCol, es, res.value);
  }

  lemma JoinableListing(s: seq<Tuple>, keys: set<Tuple>)
    requires SortedListing(s, keys)
    ensures (forall p :: 0 <= p < |s| ==> JoinKey(s[p]).Ok?) <==> (forall x :: x in keys ==> JoinKey(x).Ok?)
  {
    if forall p :: 0 <= p < |s| ==> JoinKey(s[p]).Ok? {
      forall x | x in keys
        ensures JoinKey(x).Ok?
      {
        var p :| 0 <= p < |s| && s[p] == x;
      }
    }
  }

  /** The header and rows `Emit` builds from the two listings make up the pivot table. */
  lemma PivotOfParts(incols: Row, columns: seq<int>, rows: seq<int>, valueCol: int, es: seq<Entry>, t: Table)
    requires CanEmit(incols, columns, rows, valueCol, es)
    requires forall y :: y in RowKeys(es) ==> |y| == |rows|
    requires
      var xs := Listing(ColKeys(es));
      var ys := Listing(RowKeys(es));
      && t.header ==
           Project(incols, rows).value +
           (if columns == [] then [CellAt(incols, valueCol).value]
            else seq(|xs|, q requires 0 <= q < |xs| => Text(JoinKey(xs[q]).value)))
      && |t.body| == |ys|
      && forall k :: 0 <= k < |ys| ==> t.body[k] == OutRow(es, ys[k], xs)
    ensures IsPivot(t, incols, columns, rows, valueCol, es)
  {
    var ys := Listing(RowKeys(es));
    assert forall k :: 0 <= k < |ys| ==> ys[k] in RowKeys(es);
    BodyShape(t.body, es, ys, Listing(ColKeys(es)), |rows|);
  }

  /** `pivot_cmd.__call__` once the columns are resolved: aggregate the input
      rows, then build the header and one output row per row key. */
  method PivotTable(incols: Row, body: seq<Row>, columns: seq<int>, rows: seq<int>, valueCol: int)
    returns (res: Result<Table, Error>)
    ensures Entries(body, columns, rows, valueCol).Err? ==> res == Err(Entries(body, columns, rows, valueCol).error)
    ensures res.Ok? <==>
              Entries(body, columns, rows, valueCol).Ok? &&
              CanEmit(incols, columns, rows, valueCol, Entries(body, columns, rows, valueCol).value)
    ensures res.Ok? ==> IsPivot(res.value, incols, columns, rows, valueCol, Entries(body, columns, rows, valueCol).value)
  {
    var agg := Accumulate(body, columns, rows, valueCol);
    if agg.Err? {
      return Err(agg.error);
    }
    var (acc, seen) := agg.value;
    EntryShapes(body, columns, rows, valueCol);
    res := Emit(incols, columns, rows, valueCol, acc, seen, Entries(body, columns, rows, valueCol).value);
  }

  /** `pivot_cmd.__call__` past its usage checks: resolve `-x`, `-y` and `-z`
      against the header, in that order, then build the table. */
  method PivotCommand(incols: Row, body: seq<Row>, xSpec: Option<string>, ySpec: Option<string>, zSpec: string)
    returns (res: Result<Table, Error>)
    ensures Collist(incols, xSpec).Err? ==> res == Err(Collist(incols, xSpec).error)
    ensures Collist(incols, xSpec).Ok? && Collist(incols, ySpec).Err? ==>
              res == Err(Collist(incols, ySpec).error)
    ensures Collist(incols, xSpec).Ok? && Collist(incols, ySpec).Ok? && ParseColspec(incols, zSpec).Err? ==>
              res == Err(ParseColspec(incols, zSpec).error)
    ensures res.Ok? ==>
              && Collist(incols, xSpec).Ok? && Collist(incols, ySpec).Ok? && ParseColspec(incols, zSpec).Ok?
              && var columns := Collist(incols, xSpec).value;
                 var rows := Collist(incols, ySpec).value;
                 var valueCol := ParseColspec(incols, zSpec).value;
                 && Entries(body, columns, rows, valueCol).Ok?
                 && CanEmit(incols, columns, rows, valueCol, Entries(body, columns, rows, valueCol).value)
                 && IsPivot(res.value, incols, columns, rows, valueCol, Entries(body, columns, rows, valueCol).value)
    ensures Collist(incols, xSpec).Ok? && Collist(incols, ySpec).Ok? && ParseColspec(incols, zSpec).Ok? ==>
              var columns := Collist(incols, xSpec).value;
              var rows := Collist(incols, ySpec).value;
              var valueCol := ParseColspec(incols, zSpec).value;
              && (Entries(body, columns, rows, valueCol).Err? ==> res == Err(Entries(body, columns, rows, valueCol).error))
              && (res.Ok? <==>
                    Entries(body, columns, rows, valueCol).Ok? &&
                    CanEmit(incols, columns, rows, valueCol, Entries(body, columns, rows, valueCol).value))
  {
    var columns := ParseCollist(incols, xSpec);
    if columns.Err? {
      return Err(columns.error);
    }
    var rows := ParseCollist(incols, ySpec);
    if rows.Err? {
      return Err(rows.error);
    }
    var valueCol := ParseColspec(incols, zSpec);
    if valueCol.Err? {
      return Err(valueCol.error);
    }
    res := PivotTable(incols, body, columns.value, rows.value, valueCol.value);
  }

  /** An output row: the row key, then one cell per column key. */
  ghost function OutRow(es: seq<Entry>, y: Tuple, xs: seq<Tuple>): Row {
    y + seq(|xs|, p requires 0 <= p < |xs| => Cell(es, y, xs[p]))
  }

  lemma BodyShape(out: seq<Row>, es: seq<Entry>, ys: seq<Tuple>, xs: seq<Tuple>, n: nat)
    requires |out| == |ys|
    requires forall k :: 0 <= k < |ys| ==> |ys[k]| == n && out[k] == OutRow(es, ys[k], xs)
    ensures forall k :: 0 <= k < |ys| ==>
              && |out[k]| == n + |xs|
              && out[k][..n] == ys[k]
              && forall q :: 0 <= q < |xs| ==> out[k][n + q] == Cell(es, ys[k], xs[q])
  {
    forall k | 0 <= k < |ys| {
      OutRowShape(es, ys[k], xs, n);
    }
  }

  lemma OutRowShape(es: seq<Entry>, y: Tuple, xs: seq<Tuple>, n: nat)
    requires |y| == n
    ensures |OutRow(es, y, xs)| == n + |xs|
    ensures OutRow(es, y, xs)[..n] == y
    ensures forall q :: 0 <= q < |xs| ==> OutRow(es, y, xs)[n + q] == Cell(es, y, xs[q])
  {
  }

  /** The two dictionaries of the loop hold exactly the row keys seen, and for
      each the column keys seen with it and their running sums. */
  ghost predicate Tracks(acc: map<Tuple, map<Tuple, int>>, es: seq<Entry>) {
    && acc.Keys == RowKeys(es)
    && (forall y, x :: y in acc ==> (x in acc[y] <==> Seen(es, y, x)))
    && (forall y, x :: y in acc && x in acc[y] ==> acc[y][x] == Total(es, y, x))
  }

  // ---- lemmas


  lemma SeenAdd(es: seq<Entry>, e: Entry, y: Tuple, x: Tuple)
    ensures Seen(es + [e], y, x) <==> Seen(es, y, x) || (e.y == y && e.x == x)
  {
    if Seen(es, y, x) {
      var i :| 0 <= i < |es| && es[i].y == y && es[i].x == x;
      assert (es + [e])[i] == es[i];
    }
    if Seen(es + [e], y, x) && !(e.y == y && e.x == x) {
      var i :| 0 <= i < |es + [e]| && (es + [e])[i].y == y && (es + [e])[i].x == x;
      assert i < |es| && es[i] == (es + [e])[i];
    }
    if e.y == y && e.x == x {
      assert (es + [e])[|es|] == e;
    }
  }

  lemma TotalAdd(es: seq<Entry>, e: Entry, y: Tuple, x: Tuple)
    ensures Total(es + [e], y, x) == Total(es, y, x) + (if e.y == y && e.x == x then e.v else 0)
  {
    assert (es + [e])[..|es|] == es;
  }

  lemma RowKeysAdd(es: seq<Entry>, e: Entry)
    ensures RowKeys(es + [e]) == RowKeys(es) + {e.y}
  {
    forall z | z in RowKeys(es)
      ensures z in RowKeys(es + [e])
    {
      var i :| 0 <= i < |es| && es[i].y == z;
      assert (es + [e])[i] == es[i];
    }
    assert (es + [e])[|es|] == e;
  }

  lemma ColKeysAdd(es: seq<Entry>, e: Entry)
    ensures ColKeys(es + [e]) == ColKeys(es) + {e.x}
  {
    forall z | z in ColKeys(es)
      ensures z in ColKeys(es + [e])
    {
      var i :| 0 <= i < |es| && es[i].x == z;
      assert (es + [e])[i] == es[i];
    }
    assert (es + [e])[|es|] == e;
  }

  lemma SeenHasKeys(es: seq<Entry>, y: Tuple, x: Tuple)
    requires Seen(es, y, x)
    ensures y in RowKeys(es) && x in ColKeys(es)
  {
  }

  /** One step of the loop keeps the dictionaries in step with the contributions. */
  lemma TracksAdd(acc: map<Tuple, map<Tuple, int>>, es: seq<Entry>, e: Entry, yr: map<Tuple, int>, sum: int)
    requires Tracks(acc, es)
    requires yr == if e.y in acc then acc[e.y] else map[]
    requires sum == if e.x in yr then yr[e.x] else 0
    ensures Tracks(acc[e.y := yr[e.x := sum + e.v]], es + [e])
  {
    var acc' := acc[e.y := yr[e.x := sum + e.v]];
    RowKeysAdd(es, e);
    forall y, x | y in acc'
      ensures x in acc'[y] <==> Seen(es + [e], y, x)
    {
      SeenAdd(es, e, y, x);
      if y == e.y && e.y !in acc && Seen(es, y, x) {
        SeenHasKeys(es, y, x);
      }
    }
    forall y, x | y in acc' && x in acc'[y]
      ensures acc'[y][x] == Total(es + [e], y, x)
    {
      TotalAdd(es, e, y, x);
      SeenAdd(es, e, y, x);
      if y == e.y && x == e.x && x !in yr {
        NotSeenTotal(es, y, x);
      }
    }
  }

  /** Keys no row had sum to nothing. */
  lemma {:induction false} NotSeenTotal(es: seq<Entry>, y: Tuple, x: Tuple)
    requires !Seen(es, y, x)
    ensures Total(es, y, x) == 0
  {
    if es != [] {
      var init := es[..|es| - 1];
      forall i | 0 <= i < |init|
        ensures !(init[i].y == y && init[i].x == x)
      {
        assert es[i] == init[i];
      }
      NotSeenTotal(init, y, x);
    }
  }

  /** Every row key has one cell per row-key column, every column key one per
      column-key column. */
  lemma EntryShapes(body: seq<Row>, columns: seq<int>, rows: seq<int>, valueCol: int)
    requires Entries(body, columns, rows, valueCol).Ok?
    ensures forall y :: y in RowKeys(Entries(body, columns, rows, valueCol).value) ==> |y| == |rows|
    ensures forall x :: x in ColKeys(Entries(body, columns, rows, valueCol).value) ==> |x| == |columns|
  {
    var es := Entries(body, columns, rows, valueCol).value;
    forall i | 0 <= i < |es|
      ensures |es[i].y| == |rows| && |es[i].x| == |columns|
    {
      assert RowEntry(body[i], columns, rows, valueCol) == Ok(es[i]);
    }
  }

  /** There is an ascending listing of every finite set of keys. */
  lemma {:induction false} ListingExists(keys: set<Tuple>)
    ensures exists s :: SortedListing(s, keys)
    decreases |keys|
  {
    if keys == {} {
      assert SortedListing([], keys);
    } else {
      var k :| k in keys;
      ListingExists(keys - {k});
      var s :| SortedListing(s, keys - {k});
      assert SortedListing(InsertKey(k, s), keys);
    }
  }

  /** The ascending listing of a set of keys is unique. */
  lemma {:induction false} ListingUnique(a: seq<Tuple>, b: seq<Tuple>, keys: set<Tuple>)
    requires SortedListing(a, keys) && SortedListing(b, keys)
    ensures a == b
    decreases |a|
  {
    assert a == [] <==> keys == {} by {
      if a != [] {
        assert a[0] in keys;
      }
    }
    assert b == [] <==> keys == {} by {
      if b != [] {
        assert b[0] in keys;
      }
    }
    if a != [] {
      assert forall z :: z in keys ==> z == a[0] || TupleLt(a[0], z) by {
        forall z | z in keys
          ensures z == a[0] || TupleLt(a[0], z)
        {
          var i :| 0 <= i < |a| && a[i] == z;
        }
      }
      assert forall z :: z in keys ==> z == b[0] || TupleLt(b[0], z) by {
        forall z | z in keys
          ensures z == b[0] || TupleLt(b[0], z)
        {
          var i :| 0 <= i < |b| && b[i] == z;
        }
      }
      TupleLtAsymmetric(a[0], b[0]);
      assert a[0] == b[0] by {
        assert a[0] in keys && b[0] in keys;
      }
      TailListing(a, keys);
      TailListing(b, keys);
      ListingUnique(a[1..], b[1..], keys - {a[0]});
      assert a == [a[0]] + a[1..] && b == [b[0]] + b[1..];
    }
  }

  lemma TailListing(a: seq<Tuple>, keys: set<Tuple>)
    requires a != [] && SortedListing(a, keys)
    ensures SortedListing(a[1..], keys - {a[0]})
  {
    forall z
      ensures z in a[1..] <==> z in keys - {a[0]}
    {
      if z in a[1..] {
        var i :| 0 <= i < |a[1..]| && a[1..][i] == z;
        assert TupleLt(a[0], a[i + 1]);
        TupleLtIrreflexive(a[0]);
      }
      if z in keys && z != a[0] {
        var i :| 0 <= i < |a| && a[i] == z;
        assert a[1..][i - 1] == z;
      }
    }
  }

  /** Without `-x` every column key is the empty tuple, so a non-empty input
      gives exactly one value column. */
  lemma NoColumnsOneValueColumn(body: seq<Row>, rows: seq<int>, valueCol: int)
    requires body != []
    requires Entries(body, [], rows, valueCol).Ok?
    ensures ColKeys(Entries(body, [], rows, valueCol).value) == {[]}
    ensures Listing(ColKeys(Entries(body, [], rows, valueCol).value)) == [[]]
  {
    var es := Entries(body, [], rows, valueCol).value;
    EntryShapes(body, [], rows, valueCol);
    assert es[0].x in ColKeys(es);
    assert ColKeys(es) == {[]};
    ListingUnique(Listing({[]}), [[]], {[]});
  }

  /** The output cell is the sum over exactly the rows with its two keys. */
  lemma {:induction false} TotalIsSum(es: seq<Entry>, y: Tuple, x: Tuple)
    ensures Total(es, y, x) == Sum(Amounts(Matching(es, y, x)))
  {
    if es != [] {
      var init, last := es[..|es| - 1], es[|es| - 1];
      assert es == init + [last];
      TotalIsSum(init, y, x);
      MatchingAppend(init, last, y, x);
      if last.y == y && last.x == x {
        assert Amounts(Matching(init, y, x) + [last]) == Amounts(Matching(init, y, x)) + [last.v];
        SumAppend(Amounts(Matching(init, y, x)), last.v);
      } else {
        assert Matching(es, y, x) == Matching(init, y, x);
      }
    }
  }

  /** The contributions with keys `y` and `x`, in input order. */
  function Matching(es: seq<Entry>, y: Tuple, x: Tuple): seq<Entry> {
    if es == [] then []
    else (if es[0].y == y && es[0].x == x then [es[0]] else []) + Matching(es[1..], y, x)
  }

  function Amounts(es: seq<Entry>): (vs: seq<int>)
    ensures |vs| == |es|
    ensures forall i :: 0 <= i < |es| ==> vs[i] == es[i].v
  {
    if es == [] then [] else [es[0].v] + Amounts(es[1..])
  }

  function Sum(vs: seq<int>): int {
    if vs == [] then 0 else vs[0] + Sum(vs[1..])
  }

  lemma {:induction false} MatchingAppend(es: seq<Entry>, e: Entry, y: Tuple, x: Tuple)
    ensures Matching(es + [e], y, x) == Matching(es, y, x) + (if e.y == y && e.x == x then [e] else [])
    decreases |es|
  {
    if es == [] {
      assert [] + [e] == [e];
    } else {
      MatchingAppend(es[1..], e, y, x);
      assert (es + [e])[1..] == es[1..] + [e];
    }
  }

  lemma {:induction false} SumAppend(vs: seq<int>, v: int)
    ensures Sum(vs + [v]) == Sum(vs) + v
    decreases |vs|
  {
    if vs == [] {
      assert [] + [v] == [v];
    } else {
      SumAppend(vs[1..], v);
      assert (vs + [v])[1..] == vs[1..] + [v];
    }
  }
}
