/** The `sort` command (csvtool.py:256-308): `parse_sortspec` turns the
    specification into sort terms, the rows of numeric columns are converted
    with `to_numeric` while they are read, and one stable sort runs per term,
    last term first. */
module SortCommand {
  import opened Wrappers
  import opened Strings
  import opened Values
  import opened Columns
  import opened Ordering

  /** One term of a sort specification, as `parse_sortspec` reads it. */
  datatype Term = Term(sort: SortTerm, numeric: bool)

  predicate IsModifier(ch: char) {
    ch == '-' || ch == '+' || ch == '#'
  }

  /** The direction a run of modifiers leaves: the last `-` or `+` wins, and
      with neither the term sorts ascending. */
  function Direction(m: string): bool {
    if m == [] then false
    else if m[|m| - 1] == '-' then true
    else if m[|m| - 1] == '+' then false
    else Direction(m[..|m| - 1])
  }

  /** Whether a run of modifiers marks the column numeric: any `#` does. */
  function Numeric(m: string): bool {
    if m == [] then false
    else if m[|m| - 1] == '#' then true
    else Numeric(m[..|m| - 1])
  }

  /** Length of the run of modifiers a term starts with. */
  function ModifierSpan(c: string): (k: nat)
    ensures k <= |c|
    ensures forall i :: 0 <= i < k ==> IsModifier(c[i])
    ensures k < |c| ==> !IsModifier(c[k])
  {
    if c == [] || !IsModifier(c[0]) then 0 else 1 + ModifierSpan(c[1..])
  }

  /** One term: its modifiers, then a column spec. A term that is empty or
      only modifiers fails on `c[0]`. */
  function TermOf(incols: Row, c: string): Result<Term, Error> {
    var k := ModifierSpan(c);
    if k == |c| then Err(EmptySortTerm)
    else
      match ParseColspec(incols, c[k..])
      case Err(e) => Err(e)
      case Ok(col) => Ok(Term(SortTerm(col, Direction(c[..k])), Numeric(c[..k])))
  }

  /** The terms of a specification, in declared order, stopping at the first
      one that fails. */
  function ResolveTerms(incols: Row, terms: seq<string>): Result<seq<Term>, Error> {
    Collect(TermReader(incols), terms)
  }

  /** `TermOf` against one header, as a function of the term. */
  function TermReader(incols: Row): string -> Result<Term, Error> {
    c => TermOf(incols, c)
  }

  function SortsOf(ts: seq<Term>): (s: seq<SortTerm>)
    ensures |s| == |ts|
    ensures forall i :: 0 <= i < |ts| ==> s[i] == ts[i].sort
  {
    if ts == [] then [] else SortsOf(ts[..|ts| - 1]) + [ts[|ts| - 1].sort]
  }

  /** The columns of the `#` terms, in declared order. */
  function NumericOf(ts: seq<Term>): seq<int> {
    if ts == [] then []
    else NumericOf(ts[..|ts| - 1]) + (if ts[|ts| - 1].numeric then [ts[|ts| - 1].sort.col] else [])
  }

  function Reverse<T>(s: seq<T>): (r: seq<T>)
    ensures |r| == |s|
    ensures forall i :: 0 <= i < |s| ==> r[i] == s[|s| - 1 - i]
  {
    if s == [] then [] else [s[|s| - 1]] + Reverse(s[..|s| - 1])
  }

  /** `r[c] = tonum(r[c])` for one numeric column. */
  function CoerceCell(r: Row, c: int): Result<Row, Error> {
    match ResolveIndex(c, |r|)
    case None => Err(IndexOutOfRange)
    case Some(i) =>
      match ToNumeric(r[i])
      case Err(e) => Err(e)
      case Ok(n) => Ok(r[i := Int(n)])
  }

  /** All numeric columns of one row, in the order they were declared. */
  function CoerceRow(r: Row, ns: seq<int>): Result<Row, Error> {
    if ns == [] then Ok(r)
    else
      match CoerceRow(r, ns[..|ns| - 1])
      case Err(e) => Err(e)
      case Ok(r') => CoerceCell(r', ns[|ns| - 1])
  }

  /** The table `t` the read loop builds, stopping at the first failing row. */
  function CoerceAll(rows: seq<Row>, ns: seq<int>): Result<seq<Row>, Error> {
    Collect(RowCoercer(ns), rows)
  }

  /** `CoerceRow` for fixed numeric columns, as a function of the row. */
  function RowCoercer(ns: seq<int>): Row -> Result<Row, Error> {
    r => CoerceRow(r, ns)
  }


  /** Every row has column `col`, so the key function `x[k]` cannot raise. */
  predicate AllHave(t: seq<Row>, col: int) {
    forall i :: 0 <= i < |t| ==> ResolveIndex(col, |t[i]|).Some?
  }

  /** The body of the loop of `parse_sortspec` for one term: strip the
      leading modifiers, noting the direction and `#`, then resolve the rest. */
  method ReadTerm(incols: Row, c: string) returns (res: Result<Term, Error>)
    ensures res == TermOf(incols, c)
  {
    var n, r := false, false;
    var k := 0;
    while true
      invariant 0 <= k <= ModifierSpan(c)
      invariant r == Direction(c[..k]) && n == Numeric(c[..k])
      decreases |c| - k
    {
      if k == |c| {
        return Err(EmptySortTerm);
      }
      if !IsModifier(c[k]) {
        break;
      }
      assert c[..k + 1] == c[..k] + [c[k]];
      DirectionOfLast(c[..k], c[k]);
      if c[k] == '-' {
        r := true;
      } else if c[k] == '+' {
        r := false;
      } else {
        n := true;
      }
      k := k + 1;
    }
    assert k == ModifierSpan(c);
    var col := ParseColspec(incols, c[k..]);
    if col.Err? {
      return Err(col.error);
    }
    res := Ok(Term(SortTerm(col.value, r), n));
  }

  /** The state of `sort_cmd`: the numeric columns, and the sort terms in the
      order the passes run them (the declared order reversed). */
  class SortCmd {
    var numeric: seq<int>
    var sorts: seq<SortTerm>

    constructor()
      ensures numeric == [] && sorts == []
    {
      numeric := [];
      sorts := [];
    }

    /** `parse_sortspec`. On success the fields hold the numeric columns in
        declared order and the terms reversed; on failure they hold what the
        terms before the failing one appended. */
    method ParseSortspec(incols: Row, spec: string) returns (res: Result<(), Error>)
      modifies this
      ensures res.Ok? <==> ResolveTerms(incols, Split(spec, ',')).Ok?
      ensures res.Ok? ==>
                var ts := ResolveTerms(incols, Split(spec, ',')).value;
                sorts == Reverse(SortsOf(ts)) && numeric == NumericOf(ts)
      ensures res.Err? ==> ResolveTerms(incols, Split(spec, ',')) == Err(res.error)
      ensures res.Err? ==>
                exists i :: 0 <= i < |Split(spec, ',')| && ResolveTerms(incols, Split(spec, ',')[..i]).Ok? &&
                  TermOf(incols, Split(spec, ',')[i]) == Err(res.error) &&
                  var done := ResolveTerms(incols, Split(spec, ',')[..i]).value;
                  sorts == SortsOf(done) && numeric == NumericOf(done)
    {
      var terms := Split(spec, ',');
      numeric := [];
      sorts := [];
      ghost var done: seq<Term> := [];
      var i := 0;
      while i < |terms|
        invariant 0 <= i <= |terms|
        invariant ResolveTerms(incols, terms[..i]) == Ok(done)
        invariant sorts == SortsOf(done) && numeric == NumericOf(done)
      {
        var c := terms[i];
        var t := ReadTerm(incols, c);
        if t.Err? {
          CollectFails(TermReader(incols), terms, i, done);
          res := Err(t.error);
          return;
        }
        CollectSnoc(TermReader(incols), terms, i, done, t.value);
        var Term(SortTerm(col, r), n) := t.value;
        if n {
          numeric := numeric + [col];
        }
        sorts := sorts + [SortTerm(col, r)];
        TermsSnoc(done, t.value);
        done := done + [t.value];
        i := i + 1;
      }
      assert terms[..i] == terms;
      sorts := Reverse(sorts);
      res := Ok(());
    }

    /** The rest of `__call__` up to writing: read and convert the rows, then
        one stable sort per term. The result is the unique stable sort of the
        converted rows on the terms in declared order. */
    method Run(rows: seq<Row>) returns (res: Result<seq<Row>, Error>)
      ensures res.Ok? <==>
                CoerceAll(rows, numeric).Ok? &&
                forall k :: 0 <= k < |sorts| ==> AllHave(CoerceAll(rows, numeric).value, sorts[k].col)
      ensures res.Ok? ==> IsStableSortOf(res.value, CoerceAll(rows, numeric).value, Reverse(sorts))
      ensures res.Err? && CoerceAll(rows, numeric).Err? ==> res.error == CoerceAll(rows, numeric).error
      ensures res.Err? && CoerceAll(rows, numeric).Ok? ==> res.error == IndexOutOfRange
    {
      var t := ReadRows(rows, numeric);
      if t.Err? {
        return Err(t.error);
      }
      res := SortPasses(t.value, sorts);
    }
  }

  /** The read loop of `__call__`: each row with its numeric columns
      converted, appended in turn; the first failure ends the command. */
  method ReadRows(rows: seq<Row>, ns: seq<int>) returns (res: Result<seq<Row>, Error>)
    ensures res == CoerceAll(rows, ns)
  {
    var t: seq<Row> := [];
    var j := 0;
    while j < |rows|
      invariant 0 <= j <= |rows|
      invariant CoerceAll(rows[..j], ns) == Ok(t)
    {
      var r := ConvertRow(rows[j], ns);
      if r.Err? {
        CollectFails(RowCoercer(ns), rows, j, t);
        return Err(r.error);
      }
      CollectSnoc(RowCoercer(ns), rows, j, t, r.value);
      t := t + [r.value];
      j := j + 1;
    }
    assert rows[..j] == rows;
    res := Ok(t);
  }

  /** `for c in n: r[c] = tonum(r[c])` on one row. */
  method ConvertRow(row: Row, ns: seq<int>) returns (res: Result<Row, Error>)
    ensures res == CoerceRow(row, ns)
  {
    var r := row;
    var m := 0;
    while m < |ns|
      invariant 0 <= m <= |ns|
      invariant CoerceRow(row, ns[..m]) == Ok(r)
    {
      assert ns[..m + 1][..m] == ns[..m];
      var idx := ResolveIndex(ns[m], |r|);
      if idx.None? {
        CoerceRowPrefixErr(row, ns, m + 1);
        return Err(IndexOutOfRange);
      }
      var v := ToNumeric(r[idx.value]);
      if v.Err? {
        CoerceRowPrefixErr(row, ns, m + 1);
        return Err(v.error);
      }
      r := r[idx.value := Int(v.value)];
      m := m + 1;
    }
    assert ns[..m] == ns;
    res := Ok(r);
  }

  /** The sort loop of `__call__`: one stable pass per term, in the order
      given; a row without the key column ends the command. */
  method SortPasses(rows: seq<Row>, sorts: seq<SortTerm>) returns (res: Result<seq<Row>, Error>)
    ensures res.Ok? <==> forall k :: 0 <= k < |sorts| ==> AllHave(rows, sorts[k].col)
    ensures res.Ok? ==> IsStableSortOf(res.value, rows, Reverse(sorts))
    ensures res.Err? ==> res.error == IndexOutOfRange
  {
    var t := rows;
    var k := 0;
    while k < |sorts|
      invariant 0 <= k <= |sorts|
      invariant IsStableSortOf(t, rows, Reverse(sorts[..k]))
      invariant forall q :: 0 <= q < k ==> AllHave(rows, sorts[q].col)
    {
      var term := sorts[k];
      AllHavePerm(t, rows, term.col);
      if !AllHave(t, term.col) {
        return Err(IndexOutOfRange);
      }
      var sorted := SortPass(t, term);
      SortPassIsStable(t, term);
      PassCompose(rows, t, sorted, term, Reverse(sorts[..k]));
      assert sorts[..k + 1] == sorts[..k] + [term];
      assert Reverse(sorts[..k + 1]) == [term] + Reverse(sorts[..k]);
      t := sorted;
      k := k + 1;
    }
    assert sorts[..k] == sorts;
    res := Ok(t);
  }

  /** `sort_cmd.__call__` from the header on: the header is written unchanged,
      then the rows stably sorted on the declared terms, numeric columns
      converted. */
  method SortTable(cmd: SortCmd, header: Row, rows: seq<Row>, spec: string) returns (res: Result<seq<Row>, Error>)
    modifies cmd
    ensures ResolveTerms(header, Split(spec, ',')).Err? ==> res == Err(ResolveTerms(header, Split(spec, ',')).error)
    ensures res.Ok? ==>
              var ts := ResolveTerms(header, Split(spec, ',')).value;
              && ResolveTerms(header, Split(spec, ',')).Ok?
              && CoerceAll(rows, NumericOf(ts)).Ok?
              && |res.value| == |rows| + 1
              && res.value[0] == header
              && IsStableSortOf(res.value[1..], CoerceAll(rows, NumericOf(ts)).value, SortsOf(ts))
    ensures ResolveTerms(header, Split(spec, ',')).Ok? ==>
              var ts := ResolveTerms(header, Split(spec, ',')).value;
              (res.Ok? <==>
                 CoerceAll(rows, NumericOf(ts)).Ok? &&
                 forall k :: 0 <= k < |ts| ==> AllHave(CoerceAll(rows, NumericOf(ts)).value, ts[k].sort.col))
    ensures ResolveTerms(header, Split(spec, ',')).Ok? ==>
              var ts := ResolveTerms(header, Split(spec, ',')).value;
              && (CoerceAll(rows, NumericOf(ts)).Err? ==> res == Err(CoerceAll(rows, NumericOf(ts)).error))
              && (CoerceAll(rows, NumericOf(ts)).Ok? && res.Err? ==> res == Err(IndexOutOfRange))
  {
    var parsed := cmd.ParseSortspec(header, spec);
    if parsed.Err? {
      return Err(parsed.error);
    }
    ghost var ts := ResolveTerms(header, Split(spec, ',')).value;
    var sorted := cmd.Run(rows);
    if CoerceAll(rows, cmd.numeric).Ok? {
      AllHaveReversed(CoerceAll(rows, cmd.numeric).value, ts);
    }
    if sorted.Err? {
      return Err(sorted.error);
    }
    ReverseReverse(SortsOf(ResolveTerms(header, Split(spec, ',')).value));
    assert |sorted.value| == |CoerceAll(rows, cmd.numeric).value| by {
      assert |multiset(sorted.value)| == |multiset(CoerceAll(rows, cmd.numeric).value)|;
    }
    CoerceAllLength(rows, cmd.numeric);
    res := Ok([header] + sorted.value);
    assert res.value[1..] == sorted.value;
  }

  // ---- lemmas

  /** Every row has every column of the reversed pass list exactly when it
      has every column of the terms as declared. */
  lemma AllHaveReversed(t: seq<Row>, ts: seq<Term>)
    ensures (forall k :: 0 <= k < |Reverse(SortsOf(ts))| ==> AllHave(t, Reverse(SortsOf(ts))[k].col)) <==>
            (forall k :: 0 <= k < |ts| ==> AllHave(t, ts[k].sort.col))
  {
    ReversedColumns(SortsOf(ts), c => AllHave(t, c));
  }

  /** A property holds of every column of the reversed list exactly when it
      holds of every column of the list. */
  lemma ReversedColumns(s: seq<SortTerm>, ok: int -> bool)
    ensures (forall k :: 0 <= k < |Reverse(s)| ==> ok(Reverse(s)[k].col)) <==>
            (forall k :: 0 <= k < |s| ==> ok(s[k].col))
  {
    var r := Reverse(s);
    if forall k :: 0 <= k < |r| ==> ok(r[k].col) {
      forall k | 0 <= k < |s|
        ensures ok(s[k].col)
      {
        assert r[|s| - 1 - k] == s[k];
      }
    }
    if forall k :: 0 <= k < |s| ==> ok(s[k].col) {
      forall k | 0 <= k < |r|
        ensures ok(r[k].col)
      {
        assert r[k] == s[|s| - 1 - k];
      }
    }
  }

  lemma ReverseReverse<T>(s: seq<T>)
    ensures Reverse(Reverse(s)) == s
  {
  }


  lemma TermsSnoc(done: seq<Term>, t: Term)
    ensures SortsOf(done + [t]) == SortsOf(done) + [t.sort]
    ensures NumericOf(done + [t]) == NumericOf(done) + (if t.numeric then [t.sort.col] else [])
  {
    assert (done + [t])[..|done|] == done;
  }


  lemma {:induction false} CoerceRowPrefixErr(r: Row, ns: seq<int>, m: nat)
    requires m <= |ns|
    requires CoerceRow(r, ns[..m]).Err?
    ensures CoerceRow(r, ns) == CoerceRow(r, ns[..m])
    decreases |ns| - m
  {
    if m < |ns| {
      assert ns[..m + 1][..m] == ns[..m];
      CoerceRowPrefixErr(r, ns, m + 1);
    } else {
      assert ns[..m] == ns;
    }
  }



  lemma CoerceAllLength(rows: seq<Row>, ns: seq<int>)
    requires CoerceAll(rows, ns).Ok?
    ensures |CoerceAll(rows, ns).value| == |rows|
    ensures forall i :: 0 <= i < |rows| ==> CoerceRow(rows[i], ns) == Ok(CoerceAll(rows, ns).value[i])
  {
    CollectSpec(RowCoercer(ns), rows);
  }

  lemma AllHavePerm(a: seq<Row>, b: seq<Row>, col: int)
    requires multiset(a) == multiset(b)
    ensures AllHave(a, col) <==> AllHave(b, col)
  {
    forall i | 0 <= i < |a|
      ensures exists j :: 0 <= j < |b| && b[j] == a[i]
    {
      assert a[i] in multiset(b);
    }
    forall i | 0 <= i < |b|
      ensures exists j :: 0 <= j < |a| && a[j] == b[i]
    {
      assert b[i] in multiset(a);
    }
  }

  /** The last `-` or `+` decides the direction; `#` leaves it alone. */
  lemma DirectionOfLast(m: string, ch: char)
    ensures ch == '-' ==> Direction(m + [ch])
    ensures ch == '+' ==> !Direction(m + [ch])
    ensures ch == '#' ==> Direction(m + [ch]) == Direction(m)
    ensures Numeric(m + [ch]) == (ch == '#' || Numeric(m))
  {
    assert (m + [ch])[..|m|] == m;
  }

  lemma {:induction false} ModifierSpanOf(m: string, rest: string)
    requires forall i :: 0 <= i < |m| ==> IsModifier(m[i])
    requires rest == [] || !IsModifier(rest[0])
    ensures ModifierSpan(m + rest) == |m|
    decreases |m|
  {
    if m != [] {
      assert (m + rest)[1..] == m[1..] + rest;
      ModifierSpanOf(m[1..], rest);
    } else {
      assert m + rest == rest;
    }
  }

  /** A term is its modifiers followed by a column spec: the modifiers fix the
      direction and the numeric flag, the rest is resolved like any column. */
  lemma TermOfModifiers(incols: Row, m: string, name: string)
    requires forall i :: 0 <= i < |m| ==> IsModifier(m[i])
    requires name != [] && !IsModifier(name[0])
    ensures ParseColspec(incols, name).Err? ==> TermOf(incols, m + name) == Err(ParseColspec(incols, name).error)
    ensures ParseColspec(incols, name).Ok? ==>
              TermOf(incols, m + name) == Ok(Term(SortTerm(ParseColspec(incols, name).value, Direction(m)), Numeric(m)))
  {
    ModifierSpanOf(m, name);
    assert (m + name)[|m|..] == name && (m + name)[..|m|] == m;
  }

  /** A term with nothing after its modifiers fails. */
  lemma EmptyTermFails(incols: Row, m: string)
    requires forall i :: 0 <= i < |m| ==> IsModifier(m[i])
    ensures TermOf(incols, m) == Err(EmptySortTerm)
  {
    ModifierSpanOf(m, []);
    assert m + [] == m;
  }

  /** `str(n)` of a positive `n` starts with a digit and names column
      `n - 1`. */
  lemma PositiveColumn(incols: Row, n: int)
    requires n > 0
    ensures IntToString(n) != [] && IsDigit(IntToString(n)[0])
    ensures ParseColspec(incols, IntToString(n)) == Ok(n - 1)
  {
    ColumnNumber(incols, n);
    assert AllDigits(NatToDecimal(n));
  }

  /** `-c` sorts column `c` descending: the `-` is a modifier, so `-3` is
      column 3 descending (see `PositiveColumn`), never the third column from
      the right. */
  lemma MinusIsDescending(incols: Row, c: string)
    requires c != [] && !IsModifier(c[0]) && ParseColspec(incols, c).Ok?
    ensures TermOf(incols, "-" + c) == Ok(Term(SortTerm(ParseColspec(incols, c).value, true), false))
  {
    TermOfModifiers(incols, "-", c);
  }

  /** `#-c` sorts column `c` numerically and descending. */
  lemma NumericDescending(incols: Row, c: string)
    requires c != [] && !IsModifier(c[0]) && ParseColspec(incols, c).Ok?
    ensures TermOf(incols, "#-" + c) == Ok(Term(SortTerm(ParseColspec(incols, c).value, true), true))
  {
    DirectionOfLast("#", '-');
    assert "#" + ['-'] == "#-";
    TermOfModifiers(incols, "#-", c);
  }

  /** In `-+c` the later `+` wins: column `c` ascending. */
  lemma LastModifierWins(incols: Row, c: string)
    requires c != [] && !IsModifier(c[0]) && ParseColspec(incols, c).Ok?
    ensures TermOf(incols, "-+" + c) == Ok(Term(SortTerm(ParseColspec(incols, c).value, false), false))
  {
    DirectionOfLast("-", '+');
    assert "-" + ['+'] == "-+";
    TermOfModifiers(incols, "-+", c);
  }

  /** After conversion every numeric column of the row holds an integer, the
      row keeps its length, and the other cells are untouched. */
  lemma {:induction false} CoercedShape(r: Row, ns: seq<int>)
    requires CoerceRow(r, ns).Ok?
    ensures |CoerceRow(r, ns).value| == |r|
    ensures forall q :: 0 <= q < |ns| ==>
              ResolveIndex(ns[q], |r|).Some? && CoerceRow(r, ns).value[ResolveIndex(ns[q], |r|).value].Int?
    ensures forall i :: 0 <= i < |r| && (forall q :: 0 <= q < |ns| ==> ResolveIndex(ns[q], |r|) != Some(i)) ==>
              CoerceRow(r, ns).value[i] == r[i]
  {
    if ns != [] {
      var init := ns[..|ns| - 1];
      CoercedShape(r, init);
      forall q | 0 <= q < |init|
        ensures init[q] == ns[q]
      {
      }
    }
  }

  /** A row whose numeric columns already hold integers converts to itself. */
  lemma {:induction false} CoerceFixed(r: Row, ns: seq<int>)
    requires forall q :: 0 <= q < |ns| ==> ResolveIndex(ns[q], |r|).Some? && r[ResolveIndex(ns[q], |r|).value].Int?
    ensures CoerceRow(r, ns) == Ok(r)
  {
    if ns != [] {
      CoerceFixed(r, ns[..|ns| - 1]);
      var i := ResolveIndex(ns[|ns| - 1], |r|).value;
      assert r[i := Int(r[i].n)] == r;
    }
  }

  lemma CoerceAllFixed(rows: seq<Row>, ns: seq<int>)
    requires forall i :: 0 <= i < |rows| ==> CoerceRow(rows[i], ns) == Ok(rows[i])
    ensures CoerceAll(rows, ns) == Ok(rows)
  {
    CollectEach(RowCoercer(ns), rows, rows);
  }

  /** Sorting the output of a sort again with the same terms: the conversion
      changes nothing and the second sort gives the same table. */
  lemma SortAgain(rows: seq<Row>, ns: seq<int>, terms: seq<SortTerm>, out: seq<Row>, again: seq<Row>)
    requires CoerceAll(rows, ns).Ok?
    requires IsStableSortOf(out, CoerceAll(rows, ns).value, terms)
    requires IsStableSortOf(again, out, terms)
    ensures CoerceAll(out, ns) == Ok(out)
    ensures again == out
  {
    var c := CoerceAll(rows, ns).value;
    CoerceAllLength(rows, ns);
    forall i | 0 <= i < |out|
      ensures CoerceRow(out[i], ns) == Ok(out[i])
    {
      assert out[i] in multiset(c);
      var k :| 0 <= k < |c| && c[k] == out[i];
      CoercedShape(rows[k], ns);
      CoerceFixed(out[i], ns);
    }
    CoerceAllFixed(out, ns);
    SortIdempotent(c, out, again, terms);
  }
}
