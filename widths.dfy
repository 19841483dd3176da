/** Column widths for the fixed-width renderers (csvtool.py:120-142): a
    negative entry is a width fixed by `-w`, any other entry an automatic
    width that grows to the longest cell, capped at `--max-width`, until the
    entries are made absolute at the end. */
module Widths {
  import opened Wrappers
  import opened Strings
  import opened Values

  function Min(a: int, b: int): int {
    if a <= b then a else b
  }

  function Max(a: int, b: int): int {
    if a >= b then a else b
  }

  function Abs(a: int): int {
    if a < 0 then -a else a
  }

  /** One term of `-w`: blank is an automatic width starting at 0, anything
      else is `-int(term)`. */
  function WidthOf(term: string): Result<int, Error> {
    if term == "" then Ok(0)
    else
      match ParseInt(term)
      case Some(n) => Ok(-n)
      case None => Err(BadWidth(term))
  }

  /** The terms in order, stopping at the first one `int()` refuses. */
  function WidthsOf(terms: seq<string>): Result<seq<int>, Error> {
    Collect(WidthOf, terms)
  }

  /** The widths padded with automatic zeros to at least `n` entries. */
  function Extended(ws: seq<int>, n: nat): (e: seq<int>)
    ensures |e| == Max(|ws|, n)
    ensures forall ix :: 0 <= ix < |e| ==> e[ix] == if ix < |ws| then ws[ix] else 0
  {
    if |ws| >= n then ws else ws + seq(n - |ws|, _ => 0)
  }

  /** The widths after `update_widths(r)`. */
  function Updated(ws: seq<int>, r: seq<string>, maxWidth: int): seq<int> {
    var e := Extended(ws, |r|);
    seq(|e|, ix requires 0 <= ix < |e| =>
      if ix < |r| && e[ix] >= 0 then Min(Max(e[ix], |r[ix]|), maxWidth) else e[ix])
  }

  /** The widths after `update_widths` on each row in turn. */
  function UpdatedAll(ws: seq<int>, rows: seq<seq<string>>, maxWidth: int): seq<int> {
    if rows == [] then ws
    else Updated(UpdatedAll(ws, rows[..|rows| - 1], maxWidth), rows[|rows| - 1], maxWidth)
  }

  /** The loop of `parse_widths` over the comma-separated terms. */
  method ParseTerms(terms: seq<string>) returns (res: Result<seq<int>, Error>)
    ensures res == WidthsOf(terms)
  {
    var w: seq<int> := [];
    var k := 0;
    while k < |terms|
      invariant 0 <= k <= |terms|
      invariant WidthsOf(terms[..k]) == Ok(w)
    {
      var x := WidthOf(terms[k]);
      if x.Err? {
        CollectFails(WidthOf, terms, k, w);
        return Err(x.error);
      }
      CollectSnoc(WidthOf, terms, k, w, x.value);
      w := w + [x.value];
      k := k + 1;
    }
    assert terms[..k] == terms;
    res := Ok(w);
  }

  /** The width bookkeeping of `cmd`, the base of the renderers. */
  class WidthTracker {
    var widths: seq<int>
    const maxWidth: int

    constructor(maxWidth: int)
      ensures widths == [] && this.maxWidth == maxWidth
    {
      widths := [];
      this.maxWidth := maxWidth;
    }

    /** `parse_widths`: the list is only replaced once every term is read. */
    method ParseWidths(s: string) returns (res: Result<(), Error>)
      modifies this
      ensures res.Ok? <==> WidthsOf(Split(s, ',')).Ok?
      ensures res.Ok? ==> widths == WidthsOf(Split(s, ',')).value
      ensures res.Err? ==> widths == old(widths) && res.error == WidthsOf(Split(s, ',')).error
    {
      var w := ParseTerms(Split(s, ','));
      if w.Err? {
        return Err(w.error);
      }
      widths := w.value;
      res := Ok(());
    }

    /** `update_widths`: extend with automatic zeros, leave fixed entries
        alone, grow the others to the cell, capped at `maxWidth`. */
    method UpdateWidths(r: seq<string>)
      modifies this
      ensures widths == Updated(old(widths), r, maxWidth)
    {
      if |r| > |widths| {
        widths := widths + seq(|r| - |widths|, _ => 0);
      }
      assert widths == Extended(old(widths), |r|);
      ghost var e := widths;
      var ix := 0;
      while ix < |r|
        invariant 0 <= ix <= |r| <= |widths| == |e|
        invariant forall k :: 0 <= k < ix ==>
                    widths[k] == if e[k] >= 0 then Min(Max(e[k], |r[k]|), maxWidth) else e[k]
        invariant forall k :: ix <= k < |widths| ==> widths[k] == e[k]
      {
        if widths[ix] < 0 {
          // a fixed width
        } else {
          widths := widths[ix := Min(Max(widths[ix], |r[ix]|), maxWidth)];
        }
        ix := ix + 1;
      }
    }

    /** `finalize_widths`: fixed widths lose their sign. */
    method FinalizeWidths()
      modifies this
      ensures |widths| == |old(widths)|
      ensures forall ix :: 0 <= ix < |widths| ==> widths[ix] >= 0
      ensures forall ix :: 0 <= ix < |widths| ==> widths[ix] == Abs(old(widths)[ix])
    {
      var ws := widths;
      widths := seq(|ws|, ix requires 0 <= ix < |ws| => Abs(ws[ix]));
    }
  }

  // ---- lemmas

  /** The list parses exactly when every term does, to one entry per term
      in order: blank terms are automatic (0) and a number `n` becomes `-n`,
      so only a positive number fixes a width. Otherwise the error is that
      of the first term `int()` refuses. */
  lemma WidthsOfTerms(terms: seq<string>)
    ensures WidthsOf(terms).Ok? <==> forall k :: 0 <= k < |terms| ==> WidthOf(terms[k]).Ok?
    ensures WidthsOf(terms).Ok? ==> |WidthsOf(terms).value| == |terms|
    ensures WidthsOf(terms).Ok? ==> forall k :: 0 <= k < |terms| ==> WidthOf(terms[k]) == Ok(WidthsOf(terms).value[k])
    ensures WidthsOf(terms).Err? ==>
              exists k :: 0 <= k < |terms| && WidthOf(terms[k]) == Err(WidthsOf(terms).error) &&
                          terms[k] != "" && ParseInt(terms[k]).None? &&
                          forall j :: 0 <= j < k ==> WidthOf(terms[j]).Ok?
  {
    CollectSpec(WidthOf, terms);
  }

  /** The term `str(n)` is the width `-n`: a positive number fixes the
      width, a negative one such as `-3` starts an automatic width at its
      magnitude, and `0` is automatic. */
  lemma WidthOfNumeral(n: int)
    ensures WidthOf(IntToString(n)) == Ok(-n)
  {
    ParseNumeral(n);
    WidthOfParsed(IntToString(n), n);
  }

  lemma WidthOfParsed(term: string, n: int)
    requires term != "" && ParseInt(term) == Some(n)
    ensures WidthOf(term) == Ok(-n)
  {
  }

  /** `update_widths` gives one entry per column of the longer of the list and
      the row; fixed entries and entries past the row do not change. */
  lemma UpdatedShape(ws: seq<int>, r: seq<string>, maxWidth: int)
    ensures |Updated(ws, r, maxWidth)| == Max(|ws|, |r|)
    ensures forall ix :: 0 <= ix < |ws| && ws[ix] < 0 ==> Updated(ws, r, maxWidth)[ix] == ws[ix]
    ensures forall ix :: |r| <= ix < |ws| ==> Updated(ws, r, maxWidth)[ix] == ws[ix]
  {
  }

  /** An automatic entry within the cap only grows, never past the cap, and
      becomes at least as wide as its cell unless the cap is smaller. */
  lemma UpdatedAutomatic(ws: seq<int>, r: seq<string>, maxWidth: int, ix: nat)
    requires ix < |r|
    requires ix < |ws| ==> 0 <= ws[ix] <= maxWidth
    requires 0 <= maxWidth
    ensures var u := Updated(ws, r, maxWidth)[ix];
            && (ix < |ws| ==> ws[ix] <= u)
            && 0 <= u <= maxWidth
            && Min(|r[ix]|, maxWidth) <= u
  {
  }

  /** With a non-negative cap, automatic entries stay automatic and within the
      cap; after the first update every entry the row reaches is within it. */
  lemma UpdatedBounded(ws: seq<int>, r: seq<string>, maxWidth: int)
    requires 0 <= maxWidth
    ensures forall ix :: 0 <= ix < |ws| && ws[ix] >= 0 ==> Updated(ws, r, maxWidth)[ix] >= 0
    ensures forall ix :: 0 <= ix < |r| && (ix >= |ws| || ws[ix] >= 0) ==> Updated(ws, r, maxWidth)[ix] <= maxWidth
  {
  }

  /** After all rows, an automatic column is as wide as every cell in it, or
      at the cap; so the renderers cut no cell shorter than the cap. */
  lemma {:induction false} UpdatedAllFits(ws: seq<int>, rows: seq<seq<string>>, maxWidth: int, ix: nat)
    requires 0 <= maxWidth
    requires ix < |ws| ==> 0 <= ws[ix] <= maxWidth
    ensures ix < |UpdatedAll(ws, rows, maxWidth)| ==> 0 <= UpdatedAll(ws, rows, maxWidth)[ix] <= maxWidth
    ensures forall k :: 0 <= k < |rows| && ix < |rows[k]| ==>
              ix < |UpdatedAll(ws, rows, maxWidth)| &&
              Min(|rows[k][ix]|, maxWidth) <= UpdatedAll(ws, rows, maxWidth)[ix]
  {
    if rows != [] {
      var init := rows[..|rows| - 1];
      var before := UpdatedAll(ws, init, maxWidth);
      var r := rows[|rows| - 1];
      UpdatedAllFits(ws, init, maxWidth, ix);
      UpdatedShape(before, r, maxWidth);
      if ix < |r| {
        UpdatedAutomatic(before, r, maxWidth, ix);
      }
      forall k | 0 <= k < |rows| && ix < |rows[k]|
        ensures ix < |UpdatedAll(ws, rows, maxWidth)|
        ensures Min(|rows[k][ix]|, maxWidth) <= UpdatedAll(ws, rows, maxWidth)[ix]
      {
        if k < |rows| - 1 {
          assert rows[k] == init[k];
          if ix >= |r| {
            assert UpdatedAll(ws, rows, maxWidth)[ix] == before[ix];
          } else {
            UpdatedAutomatic(before, r, maxWidth, ix);
          }
        }
      }
    }
  }
}
