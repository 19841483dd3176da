/** The NULL-aware reader and writer wrapped around Python's `csv` module
    (csvtool.py:40-85). Splitting a line into fields and quoting them again is
    the `csv` module's work and is not modelled: a raw row is the list of
    strings `csv.reader` yields, and a written row the list of strings handed
    to `csv.writer`. */
module Codec {
  import opened Wrappers
  import opened Strings
  import opened Values

  /** `Reader.next`: a field equal to the input NULL token becomes `Null`; with
      no token configured (the default) nothing does. */
  function ReadRow(inputNull: Option<string>, raw: seq<string>): (row: Row)
    ensures |row| == |raw|
    ensures forall i :: 0 <= i < |raw| ==> (row[i].Null? <==> inputNull == Some(raw[i]))
    ensures forall i :: 0 <= i < |raw| && !row[i].Null? ==> row[i] == Text(raw[i])
  {
    if raw == [] then []
    else [if inputNull == Some(raw[0]) then Null else Text(raw[0])] + ReadRow(inputNull, raw[1..])
  }

  /** `Writer._fixrow`: `Null` becomes the output NULL token, anything else is
      passed on unchanged. */
  function FixRow(outputNull: string, row: Row): (out: Row)
    ensures |out| == |row|
    ensures forall i :: 0 <= i < |row| ==> !out[i].Null?
    ensures forall i :: 0 <= i < |row| ==> out[i] == (if row[i].Null? then Text(outputNull) else row[i])
  {
    if row == [] then []
    else [if row[0].Null? then Text(outputNull) else row[0]] + FixRow(outputNull, row[1..])
  }

  /** `Writer.writerow` up to the dialect: fix the row, then render each field. */
  function WriteRow(outputNull: string, row: Row): (raw: seq<string>)
    ensures |raw| == |row|
  {
    var fixed := FixRow(outputNull, row);
    seq(|fixed|, i requires 0 <= i < |fixed| => Str(fixed[i]))
  }

  /** A row the reader can produce: text and NULL only. */
  predicate Readable(row: Row) {
    forall i :: 0 <= i < |row| ==> !row[i].Int?
  }

  /** Writing a row and reading it back with the same token as input NULL gives
      the row back exactly when no text field equals the token; an empty text
      field stays distinct from NULL whenever the token is not empty. */
  lemma RoundTrip(token: string, row: Row)
    requires Readable(row)
    ensures ReadRow(Some(token), WriteRow(token, row)) == row <==>
            forall i :: 0 <= i < |row| ==> row[i] != Text(token)
  {
    var back := ReadRow(Some(token), WriteRow(token, row));
    if forall i :: 0 <= i < |row| ==> row[i] != Text(token) {
      forall i | 0 <= i < |row|
        ensures back[i] == row[i]
      {
        assert WriteRow(token, row)[i] == Str(FixRow(token, row)[i]);
      }
    } else {
      var i :| 0 <= i < |row| && row[i] == Text(token);
      assert WriteRow(token, row)[i] == token;
      assert back[i] == Null;
    }
  }

  /** With the default settings (no input token, empty output token) a NULL
      read back is indistinguishable from empty text. */
  lemma DefaultsLoseNull(row: Row)
    requires Readable(row)
    ensures ReadRow(None, WriteRow("", row)) ==
            seq(|row|, i requires 0 <= i < |row| => if row[i].Null? then Text("") else row[i])
  {
    var back := ReadRow(None, WriteRow("", row));
    forall i | 0 <= i < |row|
      ensures back[i] == (if row[i].Null? then Text("") else row[i])
    {
      assert WriteRow("", row)[i] == Str(FixRow("", row)[i]);
    }
  }
}
