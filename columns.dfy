/** Column addressing, `Main.parse_colspec` and `Main.parse_collist`
    (csvtool.py:790-828). A column number is kept as Python keeps it: 1-based
    numbers are shifted to 0-based, negative ones are returned unchanged and
    only count from the right when a row is indexed (`Values.ResolveIndex`). */
module Columns {
  import opened Wrappers
  import opened Strings
  import opened Values

  /** The case-insensitive comparison of the second scan passed over header cell `j`. */
  predicate FoldMiss(h: Row, name: string, j: int)
    requires 0 <= j < |h|
  {
    h[j].Text? && Lower(h[j].s) != Lower(name)
  }

  predicate FoldHit(h: Row, name: string, j: int)
    requires 0 <= j < |h|
  {
    h[j].Text? && Lower(h[j].s) == Lower(name)
  }

  /** The exact-match scan from position `from` on. */
  function FindExact(h: Row, name: string, from: nat): (r: Option<nat>)
    requires from <= |h|
    ensures r.Some? ==> from <= r.value < |h| && h[r.value] == Text(name)
    ensures r.Some? ==> forall j :: from <= j < r.value ==> h[j] != Text(name)
    ensures r.None? ==> forall j :: from <= j < |h| ==> h[j] != Text(name)
    decreases |h| - from
  {
    if from == |h| then None
    else if h[from] == Text(name) then Some(from)
    else FindExact(h, name, from + 1)
  }

  /** The case-insensitive scan from position `from` on; `.lower()` on a cell
      that is not a string (a header field read as NULL) raises. */
  function FindFolded(h: Row, name: string, from: nat): (r: Result<nat, Error>)
    requires from <= |h|
    ensures r.Ok? ==> from <= r.value < |h| && FoldHit(h, name, r.value)
    ensures r.Ok? ==> forall j :: from <= j < r.value ==> FoldMiss(h, name, j)
    ensures r.Err? ==> r.error == ColumnNotFound(name) || r.error == NonTextHeader
    ensures r.Err? && r.error == ColumnNotFound(name) ==> forall j :: from <= j < |h| ==> FoldMiss(h, name, j)
    ensures r.Err? && r.error == NonTextHeader ==>
              exists k :: from <= k < |h| && !h[k].Text? && forall j :: from <= j < k ==> FoldMiss(h, name, j)
    decreases |h| - from
  {
    if from == |h| then Err(ColumnNotFound(name))
    else if !h[from].Text? then Err(NonTextHeader)
    else if Lower(h[from].s) == Lower(name) then Ok(from)
    else FindFolded(h, name, from + 1)
  }

  /** `parse_colspec`: an integer token is a column number, anything else a
      column name, matched exactly first and case-insensitively second. */
  function ParseColspec(h: Row, spec: string): (r: Result<int, Error>)
    ensures ParseInt(spec) == Some(0) ==> r == Err(ColumnNumberZero)
    ensures ParseInt(spec).Some? && ParseInt(spec).value > 0 ==> r == Ok(ParseInt(spec).value - 1)
    ensures ParseInt(spec).Some? && ParseInt(spec).value < 0 ==> r == Ok(ParseInt(spec).value)
    ensures ParseInt(spec).None? && r.Ok? ==> 0 <= r.value < |h| && FirstMatch(h, spec, r.value)
    ensures ParseInt(spec).None? && r.Err? && r.error == ColumnNotFound(spec) ==>
              forall j :: 0 <= j < |h| ==> h[j] != Text(spec) && FoldMiss(h, spec, j)
    ensures ParseInt(spec).None? && r.Err? ==> r.error == ColumnNotFound(spec) || r.error == NonTextHeader
    ensures ParseInt(spec).None? && r.Err? && r.error == NonTextHeader ==>
              && (forall j :: 0 <= j < |h| ==> h[j] != Text(spec))
              && exists k :: 0 <= k < |h| && !h[k].Text? && forall j :: 0 <= j < k ==> FoldMiss(h, spec, j)
    ensures ParseInt(spec).None? && (exists j :: 0 <= j < |h| && h[j] == Text(spec)) ==> r.Ok?
  {
    match ParseInt(spec)
    case Some(i) =>
      if i == 0 then Err(ColumnNumberZero) else if i > 0 then Ok(i - 1) else Ok(i)
    case None =>
      match FindExact(h, spec, 0)
      case Some(i) => Ok(i)
      case None =>
        match FindFolded(h, spec, 0)
        case Ok(i) => Ok(i)
        case Err(e) => Err(e)
  }

  /** Column `i` is the one a name resolves to: the first exact match, or, when
      there is none, the first case-insensitive one. */
  predicate FirstMatch(h: Row, name: string, i: int)
    requires 0 <= i < |h|
  {
    || (h[i] == Text(name) && forall j :: 0 <= j < i ==> h[j] != Text(name))
    || (&& (forall j :: 0 <= j < |h| ==> h[j] != Text(name))
        && FoldHit(h, name, i)
        && forall j :: 0 <= j < i ==> FoldMiss(h, name, j))
  }

  /** `parse_colspec` against one header, as a function of the term. */
  function Resolver(h: Row): string -> Result<int, Error> {
    c => ParseColspec(h, c)
  }

  /** The terms resolved in order, stopping at the first one that fails. */
  function ResolveAll(h: Row, terms: seq<string>): Result<seq<int>, Error> {
    Collect(Resolver(h), terms)
  }

  /** What `parse_collist` returns: no column for an absent or empty list,
      otherwise the comma-separated terms resolved in order. */
  function Collist(h: Row, spec: Option<string>): Result<seq<int>, Error> {
    if spec == None || spec == Some("") then Ok([]) else ResolveAll(h, Split(spec.value, ','))
  }

  /** `parse_collist`: resolve each comma-separated term in turn, appending
      its index; the first term that fails ends the command. */
  method ParseCollist(h: Row, spec: Option<string>) returns (res: Result<seq<int>, Error>)
    ensures res == Collist(h, spec)
  {
    if spec == None || spec == Some("") {
      return Ok([]);
    }
    var terms := Split(spec.value, ',');
    var il: seq<int> := [];
    var k := 0;
    while k < |terms|
      invariant 0 <= k <= |terms|
      invariant ResolveAll(h, terms[..k]) == Ok(il)
    {
      var i := ParseColspec(h, terms[k]);
      if i.Err? {
        CollectFails(Resolver(h), terms, k, il);
        return Err(i.error);
      }
      CollectSnoc(Resolver(h), terms, k, il, i.value);
      il := il + [i.value];
      k := k + 1;
    }
    assert terms[..k] == terms;
    res := Ok(il);
  }

  /** The list resolves exactly when every term does, to one index per term
      in order; otherwise the error is that of the first term that fails. */
  lemma {:induction false} ResolveAllSpec(h: Row, terms: seq<string>)
    ensures ResolveAll(h, terms).Ok? <==> forall k :: 0 <= k < |terms| ==> ParseColspec(h, terms[k]).Ok?
    ensures ResolveAll(h, terms).Ok? ==> |ResolveAll(h, terms).value| == |terms|
    ensures ResolveAll(h, terms).Ok? ==>
              forall k :: 0 <= k < |terms| ==> ParseColspec(h, terms[k]) == Ok(ResolveAll(h, terms).value[k])
    ensures ResolveAll(h, terms).Err? ==>
              exists k :: 0 <= k < |terms| && ParseColspec(h, terms[k]) == Err(ResolveAll(h, terms).error) &&
                          forall j :: 0 <= j < k ==> ParseColspec(h, terms[j]).Ok?
  {
    CollectSpec(Resolver(h), terms);
  }

  /** Column number `n` written out in decimal resolves to `n - 1` when
      positive, stays `n` when negative, and is refused when zero. */
  lemma {:induction false} ColumnNumber(h: Row, n: int)
    ensures n > 0 ==> ParseColspec(h, IntToString(n)) == Ok(n - 1)
    ensures n < 0 ==> ParseColspec(h, IntToString(n)) == Ok(n)
    ensures n == 0 ==> ParseColspec(h, IntToString(n)) == Err(ColumnNumberZero)
  {
    ParseIntOfString(n, "", "");
    assert "" + IntToString(n) + "" == IntToString(n);
  }

  /** "1" is the first column and "-1" the last, whatever the row length. */
  lemma {:induction false} FirstAndLast(h: Row, rowLength: nat)
    requires rowLength > 0
    ensures ParseColspec(h, "1") == Ok(0)
    ensures ParseColspec(h, "-1") == Ok(-1) && ResolveIndex(-1, rowLength) == Some(rowLength - 1)
  {
    ColumnNumber(h, 1);
    ColumnNumber(h, -1);
    assert IntToString(1) == "1";
    assert IntToString(-1) == "-1";
  }

  /** A term with a character `int()` never accepts is looked up by name. */
  lemma NameLookup(spec: string, k: nat)
    requires k < |spec| && !IsSpace(spec[k]) && !IsDigit(spec[k]) && spec[k] != '+' && spec[k] != '-'
    ensures ParseInt(spec) == None
  {
    if ParseInt(spec).Some? {
      ParseIntChars(spec);
    }
  }

  /** An exact match wins over an earlier case-insensitive one. */
  lemma {:induction false} ExactBeatsFolded()
    ensures ParseColspec([Text("A"), Text("a"), Text("B")], "A") == Ok(0)
    ensures ParseColspec([Text("A"), Text("a"), Text("B")], "a") == Ok(1)
    ensures ParseColspec([Text("A"), Text("a"), Text("B")], "b") == Ok(2)
  {
    var h := [Text("A"), Text("a"), Text("B")];
    NameLookup("A", 0);
    NameLookup("a", 0);
    NameLookup("b", 0);
    assert Lower("B") == "b" && Lower("b") == "b" && Lower("A") == "a" && Lower("a") == "a";
  }

  /** A NULL header cell does not stop the exact scan; only the
      case-insensitive scan fails on it. */
  lemma {:induction false} NullHeaderCell()
    ensures ParseColspec([Null, Text("a")], "a") == Ok(1)
    ensures ParseColspec([Null, Text("a")], "A") == Err(NonTextHeader)
  {
    NameLookup("a", 0);
    NameLookup("A", 0);
  }

  /** Writing a list of terms with commas and resolving it resolves each term. */
  lemma {:induction false} CollistOfJoin(h: Row, terms: seq<string>)
    requires |terms| >= 1
    requires forall i :: 0 <= i < |terms| ==> ',' !in terms[i]
    requires Join(terms, ',') != ""
    ensures Collist(h, Some(Join(terms, ','))) == ResolveAll(h, terms)
  {
    SplitJoin(terms, ',');
  }
}
