/** The JSON-lines exporter (internal/exporter/stdout/stdout.go), to compare with the ClickHouse one. */
module Stdout {
  import opened Prelude
  import opened Sample

  datatype Line = Line(table: string, row: Any)

  datatype Error = Cancelled | EncodeFailed

  /** One line per row of the batch, under the batch's own table name. */
  function Lines(b: Batch): seq<Line>
  {
    seq(|Rows(b)|, i requires 0 <= i < |Rows(b)| => Line(Table(b), Rows(b)[i]))
  }

  /** What encoding one row comes to: its line, nothing, or only a part of its line because the writer failed. */
  datatype Encoding = Whole | Refused | Torn

  /** The first row at which Send gives up, if any; an encoder whose writer has failed gives up at once. */
  ghost predicate StopsAt(b: Batch, cancelled: nat -> bool, encoding: nat -> Encoding, broken: bool, k: nat)
  {
    && k <= |Rows(b)|
    && (forall i: nat :: i < k ==> !cancelled(i) && encoding(i).Whole?)
    && (broken ==> k == 0)
    && (k < |Rows(b)| ==> cancelled(k) || !encoding(k).Whole? || broken)
  }

  /** `torn` is the line of which only a part came out, after which the encoder writes nothing any more. */
  class Exporter {
    var written: seq<Line>
    var torn: Option<Line>

    constructor ()
      ensures written == [] && torn == None
    {
      written, torn := [], None;
    }

    /**
      Send. `cancelled(i)` says whether the context is done when row i is about to be written, `encoding(i)` what
      encoding row i comes to. It writes the lines of the longest untroubled prefix, in order, and nothing else but
      a part of the next line when the writer fails at it.
     */
    method Send(b: Batch, cancelled: nat -> bool, encoding: nat -> Encoding) returns (err: Option<Error>)
      modifies this
      ensures exists k: nat :: StopsAt(b, cancelled, encoding, old(torn).Some?, k)
                && written == old(written) + Lines(b)[..k]
                && err == (if k == |Rows(b)| then None
                           else if cancelled(k) then Some(Cancelled) else Some(EncodeFailed))
                && torn == (if err == Some(EncodeFailed) && old(torn) == None && encoding(k).Torn?
                            then Some(Lines(b)[k]) else old(torn))
    {
      var n := Len(b);
      for i := 0 to n
        invariant forall j: nat :: j < i ==> !cancelled(j) && encoding(j).Whole?
        invariant written == old(written) + Lines(b)[..i] && torn == old(torn) && (torn.Some? ==> i == 0)
      {
        if cancelled(i) {
          assert StopsAt(b, cancelled, encoding, torn.Some?, i);
          return Some(Cancelled);
        }
        var row := At(b, i);
        var ok := Encode(Line(Table(b), row), encoding(i));
        if !ok {
          assert StopsAt(b, cancelled, encoding, old(torn).Some?, i);
          return Some(EncodeFailed);
        }
        assert Lines(b)[..i + 1] == Lines(b)[..i] + [Line(Table(b), row)];
      }
      assert StopsAt(b, cancelled, encoding, torn.Some?, n);
      return None;
    }

    /** json.Encoder.Encode */
    method Encode(line: Line, e: Encoding) returns (ok: bool)
      modifies this
      ensures ok <==> e.Whole? && old(torn) == None
      ensures written == if ok then old(written) + [line] else old(written)
      ensures torn == if e.Torn? && old(torn) == None then Some(line) else old(torn)
    {
      ok := torn == None && e.Whole?;
      if ok {
        written := written + [line];
      } else if torn == None && e.Torn? {
        torn := Some(line);
      }
    }
  }

  function RowsWritten(lines: seq<Line>): seq<Any>
  {
    seq(|lines|, i requires 0 <= i < |lines| => lines[i].row)
  }

  /**
    Untroubled, this exporter writes exactly the rows that the ClickHouse exporter enqueues part by part, in the
    same order; stopped at row k, the first k of them. Only the table names of a multi batch differ.
   */
  lemma WritesWhatClickHouseEnqueues(b: Batch, k: nat)
    requires k <= |Rows(b)|
    ensures |Placed(Fanout(b))| == |Rows(b)|
    ensures RowsWritten(Lines(b)[..k]) == Strip(Placed(Fanout(b)))[..k]
    ensures b.Typed? ==> forall i :: 0 <= i < k ==> Lines(b)[i].table == Placed(Fanout(b))[i].0
  {
    FanoutKeepsRows(b);
    assert |Strip(Placed(Fanout(b)))| == |Placed(Fanout(b))|;
    if b.Typed? {
      assert Placed([b]) == Labelled(b.table, b.rows) + Placed([]);
    }
  }
}
