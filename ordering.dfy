/** What `sort` promises about its output, stated independently of how the
    sorting is done: a multi-key order with a direction per key, and stability
    (rows with equal keys keep their input order). `list.sort(key=..,
    reverse=..)` is Python's stable sort; `SortPass` stands in for it as a
    stable insertion sort, and the lemmas below show that any two stable sorts
    agree, so the choice does not matter. */
module Ordering {
  import opened Wrappers
  import opened Values

  /** One sort term: a column as `parse_colspec` returned it, and whether the
      pass runs with `reverse=True`. */
  datatype SortTerm = SortTerm(col: int, desc: bool)

  /** The key `x[k]` of one row. The command refuses rows where the column is
      missing before it sorts, so the `Null` here is never compared. */
  function Key(row: Row, col: int): Value {
    match ResolveIndex(col, |row|)
    case Some(i) => row[i]
    case None => Null
  }

  /** The keys of a row, most significant term first. */
  function Keys(row: Row, terms: seq<SortTerm>): (kv: seq<Value>)
    ensures |kv| == |terms|
  {
    if terms == [] then [] else [Key(row, terms[0].col)] + Keys(row, terms[1..])
  }

  /** Strictly before, in the direction of one term. */
  predicate DirLt(a: Value, b: Value, desc: bool) {
    if desc then ValueLt(b, a) else ValueLt(a, b)
  }

  /** Key vectors compared term by term, each in its own direction. */
  predicate VecLe(u: seq<Value>, v: seq<Value>, terms: seq<SortTerm>)
    decreases |terms|
  {
    if u == [] || v == [] || terms == [] then true
    else if u[0] == v[0] then VecLe(u[1..], v[1..], terms[1..])
    else DirLt(u[0], v[0], terms[0].desc)
  }

  predicate RowLe(a: Row, b: Row, terms: seq<SortTerm>) {
    VecLe(Keys(a, terms), Keys(b, terms), terms)
  }

  ghost predicate SortedBy(s: seq<Row>, terms: seq<SortTerm>) {
    forall i, j :: 0 <= i < j < |s| ==> RowLe(s[i], s[j], terms)
  }

  /** The rows of `s` whose keys are `kv`, in their order in `s`. */
  function Select(s: seq<Row>, terms: seq<SortTerm>, kv: seq<Value>): seq<Row> {
    if s == [] then []
    else (if Keys(s[0], terms) == kv then [s[0]] else []) + Select(s[1..], terms, kv)
  }

  /** `out` is a stable sort of `input`: the same rows, in key order, and the
      rows of each key in their input order. */
  ghost predicate IsStableSortOf(out: seq<Row>, input: seq<Row>, terms: seq<SortTerm>) {
    && multiset(out) == multiset(input)
    && SortedBy(out, terms)
    && forall kv :: Select(out, terms, kv) == Select(input, terms, kv)
  }

  /** One term, between two rows. */
  predicate KeyLe(a: Row, b: Row, t: SortTerm) {
    Key(a, t.col) == Key(b, t.col) || DirLt(Key(a, t.col), Key(b, t.col), t.desc)
  }

  ghost predicate SortedOn(s: seq<Row>, t: SortTerm) {
    forall i, j :: 0 <= i < j < |s| ==> KeyLe(s[i], s[j], t)
  }

  /** Put `x` after every row of `s` that it does not precede. */
  function Insert(x: Row, s: seq<Row>, t: SortTerm): seq<Row> {
    if s == [] then [x]
    else if DirLt(Key(x, t.col), Key(s[0], t.col), t.desc) then [x] + s
    else [s[0]] + Insert(x, s[1..], t)
  }

  /** One `t.sort(key=lambda x: x[k], reverse=r)`, as a stable insertion sort. */
  function SortPass(s: seq<Row>, t: SortTerm): (r: seq<Row>)
    ensures |r| == |s|
  {
    if s == [] then []
    else
      var r := Insert(s[|s| - 1], SortPass(s[..|s| - 1], t), t);
      InsertFacts(s[|s| - 1], SortPass(s[..|s| - 1], t), t);
      r
  }

  lemma {:induction false} InsertFacts(x: Row, s: seq<Row>, t: SortTerm)
    ensures multiset(Insert(x, s, t)) == multiset(s) + multiset{x}
    ensures |Insert(x, s, t)| == |s| + 1
    decreases |s|
  {
    if s != [] {
      InsertFacts(x, s[1..], t);
      assert s == [s[0]] + s[1..];
    }
  }

  // ---- properties of the order on keys

  lemma DirLtIrreflexive(a: Value, desc: bool)
    ensures !DirLt(a, a, desc)
  {
    ValueLtIrreflexive(a);
  }

  lemma DirLtTransitive(a: Value, b: Value, c: Value, desc: bool)
    requires DirLt(a, b, desc) && DirLt(b, c, desc)
    ensures DirLt(a, c, desc)
  {
    if desc {
      ValueLtTransitive(c, b, a);
    } else {
      ValueLtTransitive(a, b, c);
    }
  }

  lemma DirLtTotal(a: Value, b: Value, desc: bool)
    ensures a == b || DirLt(a, b, desc) || DirLt(b, a, desc)
  {
    ValueLtTotal(a, b);
  }

  lemma DirLtAsymmetric(a: Value, b: Value, desc: bool)
    ensures !(DirLt(a, b, desc) && DirLt(b, a, desc))
  {
    ValueLtAsymmetric(a, b);
  }

  /** A row strictly before `b` is strictly before anything `b` does not follow. */
  lemma KeyLtLe(a: Row, b: Row, c: Row, t: SortTerm)
    requires DirLt(Key(a, t.col), Key(b, t.col), t.desc)
    requires KeyLe(b, c, t)
    ensures DirLt(Key(a, t.col), Key(c, t.col), t.desc)
  {
    if Key(b, t.col) != Key(c, t.col) {
      DirLtTransitive(Key(a, t.col), Key(b, t.col), Key(c, t.col), t.desc);
    }
  }

  lemma KeysCons(x: Row, t: SortTerm, ts: seq<SortTerm>)
    ensures Keys(x, [t] + ts) == [Key(x, t.col)] + Keys(x, ts)
  {
    assert ([t] + ts)[1..] == ts;
  }

  lemma KeysOne(x: Row, t: SortTerm)
    ensures Keys(x, [t]) == [Key(x, t.col)]
  {
    assert [t][1..] == [];
  }

  lemma VecLeCons(a: Value, u: seq<Value>, b: Value, v: seq<Value>, t: SortTerm, ts: seq<SortTerm>)
    ensures VecLe([a] + u, [b] + v, [t] + ts) == if a == b then VecLe(u, v, ts) else DirLt(a, b, t.desc)
  {
    assert ([a] + u)[1..] == u && ([b] + v)[1..] == v && ([t] + ts)[1..] == ts;
  }

  lemma RowLeOne(a: Row, b: Row, t: SortTerm)
    ensures RowLe(a, b, [t]) == KeyLe(a, b, t)
  {
    KeysCons(a, t, []);
    KeysCons(b, t, []);
    assert [t] + [] == [t];
    VecLeCons(Key(a, t.col), [], Key(b, t.col), [], t, []);
  }

  lemma SortedOnIsSortedBy(s: seq<Row>, t: SortTerm)
    ensures SortedOn(s, t) <==> SortedBy(s, [t])
  {
    forall i, j | 0 <= i < j < |s| {
      RowLeOne(s[i], s[j], t);
    }
  }

  lemma {:induction false} VecLeReflexive(u: seq<Value>, terms: seq<SortTerm>)
    ensures VecLe(u, u, terms)
    decreases |terms|
  {
    if u != [] && terms != [] {
      VecLeReflexive(u[1..], terms[1..]);
    }
  }

  /** Two key vectors that are each at most the other are equal. */
  lemma {:induction false} VecLeAntisymmetric(u: seq<Value>, v: seq<Value>, terms: seq<SortTerm>)
    requires |u| == |v| == |terms|
    requires VecLe(u, v, terms) && VecLe(v, u, terms)
    ensures u == v
    decreases |terms|
  {
    if terms != [] {
      DirLtAsymmetric(u[0], v[0], terms[0].desc);
      if u[0] == v[0] {
        VecLeAntisymmetric(u[1..], v[1..], terms[1..]);
        assert u == [u[0]] + u[1..] && v == [v[0]] + v[1..];
      }
    }
  }

  // ---- properties of Select

  lemma SelectCons(x: Row, s: seq<Row>, terms: seq<SortTerm>, kv: seq<Value>)
    ensures Select([x] + s, terms, kv) == (if Keys(x, terms) == kv then [x] else []) + Select(s, terms, kv)
  {
    assert ([x] + s)[1..] == s;
  }

  lemma {:induction false} SelectAppend(a: seq<Row>, b: seq<Row>, terms: seq<SortTerm>, kv: seq<Value>)
    ensures Select(a + b, terms, kv) == Select(a, terms, kv) + Select(b, terms, kv)
    decreases |a|
  {
    if a == [] {
      assert a + b == b;
    } else {
      var head := if Keys(a[0], terms) == kv then [a[0]] else [];
      calc {
        Select(a + b, terms, kv);
        { assert (a + b)[0] == a[0] && (a + b)[1..] == a[1..] + b; }
        head + Select(a[1..] + b, terms, kv);
        { SelectAppend(a[1..], b, terms, kv); }
        head + (Select(a[1..], terms, kv) + Select(b, terms, kv));
        (head + Select(a[1..], terms, kv)) + Select(b, terms, kv);
        Select(a, terms, kv) + Select(b, terms, kv);
      }
    }
  }

  lemma {:induction false} SelectNone(s: seq<Row>, terms: seq<SortTerm>, kv: seq<Value>)
    requires forall i :: 0 <= i < |s| ==> Keys(s[i], terms) != kv
    ensures Select(s, terms, kv) == []
    decreases |s|
  {
    if s != [] {
      SelectNone(s[1..], terms, kv);
    }
  }

  lemma {:induction false} SelectMember(s: seq<Row>, terms: seq<SortTerm>, kv: seq<Value>, y: Row)
    ensures y in Select(s, terms, kv) <==> y in s && Keys(y, terms) == kv
    decreases |s|
  {
    if s != [] {
      SelectMember(s[1..], terms, kv, y);
      assert s == [s[0]] + s[1..];
    }
  }

  /** A row of `s` with keys `kv` has a place in `Select(s, terms, kv)`. */
  lemma {:induction false} SelectIndex(s: seq<Row>, terms: seq<SortTerm>, kv: seq<Value>, j: nat) returns (q: nat)
    requires j < |s| && Keys(s[j], terms) == kv
    ensures q < |Select(s, terms, kv)| && Select(s, terms, kv)[q] == s[j]
    decreases |s|
  {
    if j == 0 {
      q := 0;
    } else {
      var q' := SelectIndex(s[1..], terms, kv, j - 1);
      q := if Keys(s[0], terms) == kv then q' + 1 else q';
    }
  }

  /** Two rows with keys `kv` keep their relative order in the selection. */
  lemma {:induction false} SelectPair(s: seq<Row>, terms: seq<SortTerm>, kv: seq<Value>, i: nat, j: nat) returns (p: nat, q: nat)
    requires i < j < |s|
    requires Keys(s[i], terms) == kv && Keys(s[j], terms) == kv
    ensures p < q < |Select(s, terms, kv)|
    ensures Select(s, terms, kv)[p] == s[i] && Select(s, terms, kv)[q] == s[j]
    decreases |s|
  {
    if i == 0 {
      var q' := SelectIndex(s[1..], terms, kv, j - 1);
      p, q := 0, q' + 1;
    } else {
      var p', q' := SelectPair(s[1..], terms, kv, i - 1, j - 1);
      if Keys(s[0], terms) == kv {
        p, q := p' + 1, q' + 1;
      } else {
        p, q := p', q';
      }
    }
  }

  /** Every row of a selection comes from a place in `s`. */
  lemma {:induction false} SelectOrigin(s: seq<Row>, terms: seq<SortTerm>, kv: seq<Value>, q: nat) returns (j: nat)
    requires q < |Select(s, terms, kv)|
    ensures j < |s| && s[j] == Select(s, terms, kv)[q]
    decreases |s|
  {
    var rest := Select(s[1..], terms, kv);
    if Keys(s[0], terms) == kv {
      assert Select(s, terms, kv) == [s[0]] + rest;
      if q == 0 {
        j := 0;
      } else {
        var j' := SelectOrigin(s[1..], terms, kv, q - 1);
        j := j' + 1;
      }
    } else {
      assert Select(s, terms, kv) == rest;
      var j' := SelectOrigin(s[1..], terms, kv, q);
      j := j' + 1;
    }
  }

  /** Two places in a selection come from places in `s` in the same order. */
  lemma {:induction false} SelectOrigins(s: seq<Row>, terms: seq<SortTerm>, kv: seq<Value>, p: nat, q: nat)
    returns (i: nat, j: nat)
    requires p < q < |Select(s, terms, kv)|
    ensures i < j < |s| && s[i] == Select(s, terms, kv)[p] && s[j] == Select(s, terms, kv)[q]
    decreases |s|
  {
    var rest := Select(s[1..], terms, kv);
    if Keys(s[0], terms) == kv {
      assert Select(s, terms, kv) == [s[0]] + rest;
      if p == 0 {
        var j' := SelectOrigin(s[1..], terms, kv, q - 1);
        i, j := 0, j' + 1;
      } else {
        var i', j' := SelectOrigins(s[1..], terms, kv, p - 1, q - 1);
        i, j := i' + 1, j' + 1;
      }
    } else {
      assert Select(s, terms, kv) == rest;
      var i', j' := SelectOrigins(s[1..], terms, kv, p, q);
      i, j := i' + 1, j' + 1;
    }
  }

  /** A selection out of a sorted sequence is sorted. */
  lemma SelectSorted(s: seq<Row>, terms: seq<SortTerm>, sel: seq<SortTerm>, kv: seq<Value>)
    requires SortedBy(s, terms)
    ensures SortedBy(Select(s, sel, kv), terms)
  {
    var r := Select(s, sel, kv);
    forall p, q | 0 <= p < q < |r|
      ensures RowLe(r[p], r[q], terms)
    {
      var i, j := SelectOrigins(s, sel, kv, p, q);
    }
  }

  /** A key vector of the wrong length selects nothing. */
  lemma {:induction false} SelectWrongLength(s: seq<Row>, terms: seq<SortTerm>, kv: seq<Value>)
    requires |kv| != |terms|
    ensures Select(s, terms, kv) == []
    decreases |s|
  {
    if s != [] {
      SelectWrongLength(s[1..], terms, kv);
    }
  }

  /** Selecting on a leading term and then on the rest, in either order, is
      selecting on all terms at once. */
  lemma {:induction false} SelectSplit(s: seq<Row>, t: SortTerm, ts: seq<SortTerm>, v: Value, rest: seq<Value>)
    ensures Select(s, [t] + ts, [v] + rest) == Select(Select(s, [t], [v]), ts, rest)
    ensures Select(s, [t] + ts, [v] + rest) == Select(Select(s, ts, rest), [t], [v])
    decreases |s|
  {
    if s != [] {
      var x := s[0];
      SelectSplit(s[1..], t, ts, v, rest);
      KeysCons(x, t, ts);
      KeysCons(x, t, []);
      assert [t] + [] == [t];
      assert Keys(x, [t] + ts) == [v] + rest <==> Keys(x, [t]) == [v] && Keys(x, ts) == rest by {
        if Keys(x, [t] + ts) == [v] + rest {
          assert ([Key(x, t.col)] + Keys(x, ts))[1..] == Keys(x, ts);
        }
      }
      var a := Select(s[1..], [t], [v]);
      var b := Select(s[1..], ts, rest);
      if Keys(x, [t]) == [v] {
        assert Select(s, [t], [v]) == [x] + a;
        SelectCons(x, a, ts, rest);
      } else {
        assert Select(s, [t], [v]) == a;
      }
      if Keys(x, ts) == rest {
        assert Select(s, ts, rest) == [x] + b;
        SelectCons(x, b, [t], [v]);
      } else {
        assert Select(s, ts, rest) == b;
      }
    }
  }

  // ---- one pass is a stable sort on its term

  /** A row not after anything in a sorted `tail` can go in front of it. */
  lemma ConsSorted(y: Row, tail: seq<Row>, t: SortTerm)
    requires SortedOn(tail, t)
    requires forall k :: 0 <= k < |tail| ==> KeyLe(y, tail[k], t)
    ensures SortedOn([y] + tail, t)
  {
    var r := [y] + tail;
    forall i, j | 0 <= i < j < |r|
      ensures KeyLe(r[i], r[j], t)
    {
      if i == 0 {
        assert r[j] == tail[j - 1];
      } else {
        assert r[i] == tail[i - 1] && r[j] == tail[j - 1];
      }
    }
  }

  /** A row not after `x` nor anything in `s` is not after anything in
      `Insert(x, s, t)`. */
  lemma {:induction false} InsertBound(y: Row, x: Row, s: seq<Row>, t: SortTerm)
    requires KeyLe(y, x, t)
    requires forall k :: 0 <= k < |s| ==> KeyLe(y, s[k], t)
    ensures forall k :: 0 <= k < |Insert(x, s, t)| ==> KeyLe(y, Insert(x, s, t)[k], t)
    decreases |s|
  {
    if s != [] && !DirLt(Key(x, t.col), Key(s[0], t.col), t.desc) {
      var tail := Insert(x, s[1..], t);
      InsertBound(y, x, s[1..], t);
      assert Insert(x, s, t) == [s[0]] + tail;
    }
  }

  lemma {:induction false} InsertSorted(x: Row, s: seq<Row>, t: SortTerm)
    requires SortedOn(s, t)
    ensures SortedOn(Insert(x, s, t), t)
    decreases |s|
  {
    if s == [] {
    } else if DirLt(Key(x, t.col), Key(s[0], t.col), t.desc) {
      forall k | 0 <= k < |s|
        ensures KeyLe(x, s[k], t)
      {
        KeyLtLe(x, s[0], s[k], t);
      }
      ConsSorted(x, s, t);
    } else {
      InsertSorted(x, s[1..], t);
      DirLtTotal(Key(x, t.col), Key(s[0], t.col), t.desc);
      assert forall k :: 0 <= k < |s[1..]| ==> s[1..][k] == s[k + 1];
      InsertBound(s[0], x, s[1..], t);
      ConsSorted(s[0], Insert(x, s[1..], t), t);
    }
  }

  lemma {:induction false} InsertSelect(x: Row, s: seq<Row>, t: SortTerm, kv: seq<Value>)
    requires SortedOn(s, t)
    ensures Select(Insert(x, s, t), [t], kv) == Select(s, [t], kv) + (if Keys(x, [t]) == kv then [x] else [])
    decreases |s|
  {
    if s == [] {
      SelectCons(x, [], [t], kv);
    } else if DirLt(Key(x, t.col), Key(s[0], t.col), t.desc) {
      SelectCons(x, s, [t], kv);
      if Keys(x, [t]) == kv {
        InsertFrontSelect(x, s, t, kv);
      }
    } else {
      InsertSelect(x, s[1..], t, kv);
      SelectCons(s[0], Insert(x, s[1..], t), [t], kv);
      SelectCons(s[0], s[1..], [t], kv);
      assert s == [s[0]] + s[1..];
    }
  }

  /** Nothing in a sorted `s` shares the key of a row that precedes its head. */
  lemma InsertFrontSelect(x: Row, s: seq<Row>, t: SortTerm, kv: seq<Value>)
    requires SortedOn(s, t) && s != []
    requires DirLt(Key(x, t.col), Key(s[0], t.col), t.desc)
    requires Keys(x, [t]) == kv
    ensures Select(s, [t], kv) == []
  {
    KeysOne(x, t);
    DirLtIrreflexive(Key(x, t.col), t.desc);
    forall i | 0 <= i < |s|
      ensures Keys(s[i], [t]) != kv
    {
      KeyLtLe(x, s[0], s[i], t);
      KeysOne(s[i], t);
    }
    SelectNone(s, [t], kv);
  }

  /** One pass is a stable sort on its term. */
  lemma {:induction false} SortPassIsStable(s: seq<Row>, t: SortTerm)
    ensures IsStableSortOf(SortPass(s, t), s, [t])
    decreases |s|
  {
    SortPassOn(s, t);
    SortedOnIsSortedBy(SortPass(s, t), t);
  }

  lemma {:induction false} SortPassOn(s: seq<Row>, t: SortTerm)
    ensures multiset(SortPass(s, t)) == multiset(s)
    ensures SortedOn(SortPass(s, t), t)
    ensures forall kv :: Select(SortPass(s, t), [t], kv) == Select(s, [t], kv)
    decreases |s|
  {
    if s != [] {
      var init, last := s[..|s| - 1], s[|s| - 1];
      assert s == init + [last];
      SortPassOn(init, t);
      var mid := SortPass(init, t);
      InsertSorted(last, mid, t);
      InsertFacts(last, mid, t);
      forall kv
        ensures Select(SortPass(s, t), [t], kv) == Select(s, [t], kv)
      {
        InsertSelect(last, mid, t, kv);
        SelectAppend(init, [last], [t], kv);
        SelectCons(last, [], [t], kv);
      }
    }
  }

  // ---- passes compose, and stable sorts are unique

  /** Sorting stably on the later terms and then stably on `t` is a stable
      sort on `t` followed by the later terms. This is why `sort` applies its
      terms from last to first. */
  lemma {:induction false} PassCompose(input: seq<Row>, mid: seq<Row>, out: seq<Row>, t: SortTerm, ts: seq<SortTerm>)
    requires IsStableSortOf(mid, input, ts)
    requires IsStableSortOf(out, mid, [t])
    ensures IsStableSortOf(out, input, [t] + ts)
  {
    forall kv
      ensures Select(out, [t] + ts, kv) == Select(input, [t] + ts, kv)
    {
      if |kv| != |ts| + 1 {
        SelectWrongLength(out, [t] + ts, kv);
        SelectWrongLength(input, [t] + ts, kv);
      } else {
        var v, rest := kv[0], kv[1..];
        assert kv == [v] + rest;
        SelectSplit(out, t, ts, v, rest);
        SelectSplit(mid, t, ts, v, rest);
        SelectSplit(input, t, ts, v, rest);
      }
    }
    forall i, j | 0 <= i < j < |out|
      ensures RowLe(out[i], out[j], [t] + ts)
    {
      assert RowLe(out[i], out[j], [t]);
      RowLeOne(out[i], out[j], t);
      KeysCons(out[i], t, ts);
      KeysCons(out[j], t, ts);
      VecLeCons(Key(out[i], t.col), Keys(out[i], ts), Key(out[j], t.col), Keys(out[j], ts), t, ts);
      var v := Key(out[i], t.col);
      if Key(out[j], t.col) == v {
        KeysCons(out[i], t, []);
        KeysCons(out[j], t, []);
        assert [t] + [] == [t];
        var p, q := SelectPair(out, [t], [v], i, j);
        SelectSorted(mid, ts, [t], [v]);
      }
    }
  }

  /** Two stable sorts of the same rows are the same sequence. */
  lemma {:induction false} StableSortUnique(a: seq<Row>, b: seq<Row>, terms: seq<SortTerm>)
    requires multiset(a) == multiset(b)
    requires SortedBy(a, terms) && SortedBy(b, terms)
    requires forall kv :: Select(a, terms, kv) == Select(b, terms, kv)
    ensures a == b
    decreases |a|
  {
    assert |a| == |multiset(a)| == |multiset(b)| == |b|;
    if a != [] {
      HeadKeyBound(a, b, terms);
      HeadKeyBound(b, a, terms);
      var ka := Keys(a[0], terms);
      VecLeAntisymmetric(ka, Keys(b[0], terms), terms);
      HeadsAndTails(a, b, terms, ka);
      assert a == [a[0]] + a[1..] && b == [b[0]] + b[1..];
      MultisetTails(a, b);
      StableSortUnique(a[1..], b[1..], terms);
    }
  }

  lemma MultisetTails(a: seq<Row>, b: seq<Row>)
    requires a != [] && b != [] && a[0] == b[0]
    requires multiset(a) == multiset(b)
    ensures multiset(a[1..]) == multiset(b[1..])
  {
    assert a == [a[0]] + a[1..] && b == [b[0]] + b[1..];
    assert multiset(a[1..]) == multiset(a) - multiset([a[0]]);
    assert multiset(b[1..]) == multiset(b) - multiset([b[0]]);
  }

  /** The head of `b` is at most the head of `a` when both are sorted and
      select the same rows. */
  lemma HeadKeyBound(a: seq<Row>, b: seq<Row>, terms: seq<SortTerm>)
    requires a != [] && b != []
    requires SortedBy(b, terms)
    requires forall kv :: Select(a, terms, kv) == Select(b, terms, kv)
    ensures VecLe(Keys(b[0], terms), Keys(a[0], terms), terms)
  {
    var ka := Keys(a[0], terms);
    SelectMember(a, terms, ka, a[0]);
    SelectMember(b, terms, ka, a[0]);
    var p :| 0 <= p < |b| && b[p] == a[0];
    if p == 0 {
      VecLeReflexive(ka, terms);
    }
  }

  /** Equal heads of the same key, and the tails still select the same rows. */
  lemma HeadsAndTails(a: seq<Row>, b: seq<Row>, terms: seq<SortTerm>, ka: seq<Value>)
    requires a != [] && b != []
    requires Keys(a[0], terms) == ka && Keys(b[0], terms) == ka
    requires forall kv :: Select(a, terms, kv) == Select(b, terms, kv)
    ensures a[0] == b[0]
    ensures forall kv :: Select(a[1..], terms, kv) == Select(b[1..], terms, kv)
  {
    SelectTail(a, terms, ka);
    SelectTail(b, terms, ka);
    forall kv
      ensures Select(a[1..], terms, kv) == Select(b[1..], terms, kv)
    {
      SelectTail(a, terms, kv);
      SelectTail(b, terms, kv);
    }
  }

  lemma SelectTail(s: seq<Row>, terms: seq<SortTerm>, kv: seq<Value>)
    requires s != []
    ensures Keys(s[0], terms) == kv ==> Select(s, terms, kv) != [] && Select(s, terms, kv)[0] == s[0]
    ensures Select(s[1..], terms, kv) ==
            if Keys(s[0], terms) == kv then Select(s, terms, kv)[1..] else Select(s, terms, kv)
  {
  }

  /** Sorting rows that are already in order changes nothing. */
  lemma SortedIsFixpoint(input: seq<Row>, out: seq<Row>, terms: seq<SortTerm>)
    requires IsStableSortOf(out, input, terms)
    requires SortedBy(input, terms)
    ensures out == input
  {
    StableSortUnique(out, input, terms);
  }

  /** Sorting a sorted result again with the same terms gives it back. */
  lemma SortIdempotent(input: seq<Row>, once: seq<Row>, twice: seq<Row>, terms: seq<SortTerm>)
    requires IsStableSortOf(once, input, terms)
    requires IsStableSortOf(twice, once, terms)
    ensures twice == once
  {
    SortedIsFixpoint(once, twice, terms);
  }
}
