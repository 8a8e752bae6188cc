/** Row batches (internal/sample/sample.go). */
module Sample {
  import opened Prelude

  /** Go's `any`: nil, or a reference to a row, identified by its address. */
  datatype Any = Nil | Ref(address: nat)

  datatype Batch =
    | Typed(table: string, rows: seq<Any>)
    | Multi(parts: seq<Batch>)

  function Table(b: Batch): string
  {
    if b.Typed? then b.table else "<multi>"
  }

  /** The rows of a batch: a typed batch's own, a multi batch's parts one after the other. */
  function Rows(b: Batch): seq<Any>
    decreases b, 1
  {
    match b
    case Typed(_, rows) => rows
    case Multi(parts) => RowsOf(parts)
  }

  function RowsOf(parts: seq<Batch>): seq<Any>
    decreases parts, 0
  {
    if parts == [] then [] else Rows(parts[0]) + RowsOf(parts[1..])
  }

  /** `Len`, through the interface: the loop of MultiBatch.Len adds up its parts. */
  method Len(b: Batch) returns (n: nat)
    ensures n == |Rows(b)|
    decreases b
  {
    match b
    case Typed(_, rows) =>
      n := |rows|;
    case Multi(parts) =>
      n := 0;
      for k := 0 to |parts|
        invariant n + |RowsOf(parts[k..])| == |RowsOf(parts)|
      {
        var m := Len(parts[k]);
        n := n + m;
      }
  }

  /**
    `At`, through the interface. A typed batch indexes its slice, which a caller must keep in range;
    a multi batch seeks through its parts, whatever their nesting, and yields nil past the end.
   */
  method At(b: Batch, index: nat) returns (row: Any)
    requires b.Typed? ==> index < |b.rows|
    ensures row == if index < |Rows(b)| then Rows(b)[index] else Nil
    decreases b
  {
    match b
    case Typed(_, rows) =>
      row := rows[index];
    case Multi(parts) =>
      var i: nat := index;
      for k := 0 to |parts|
        invariant index < |RowsOf(parts)| <==> i < |RowsOf(parts[k..])|
        invariant index < |RowsOf(parts)| ==> RowsOf(parts)[index] == RowsOf(parts[k..])[i]
      {
        var n := Len(parts[k]);
        if i < n {
          row := At(parts[k], i);
          return;
        }
        i := i - n;
      }
      row := Nil;
  }

  /** The batches that the ClickHouse exporter's Send enqueues, one critical section each. */
  function Fanout(b: Batch): seq<Batch>
  {
    if b.Multi? then b.parts else [b]
  }

  function Labelled(table: string, rows: seq<Any>): seq<(string, Any)>
  {
    seq(|rows|, i requires 0 <= i < |rows| => (table, rows[i]))
  }

  /** Where the rows of a run of parts end up: each row under its own part's table. */
  function Placed(parts: seq<Batch>): seq<(string, Any)>
  {
    if parts == [] then [] else Labelled(Table(parts[0]), Rows(parts[0])) + Placed(parts[1..])
  }

  function Strip(placed: seq<(string, Any)>): seq<Any>
  {
    seq(|placed|, i requires 0 <= i < |placed| => placed[i].1)
  }

  lemma {:induction false} PlacedRows(parts: seq<Batch>)
    ensures Strip(Placed(parts)) == RowsOf(parts)
  {
    if parts != [] {
      var head := Labelled(Table(parts[0]), Rows(parts[0]));
      PlacedRows(parts[1..]);
      assert Strip(head + Placed(parts[1..])) == Strip(head) + Strip(Placed(parts[1..]));
      assert Strip(head) == Rows(parts[0]);
    }
  }

  /** Fanning out neither loses, repeats nor reorders rows: the parts carry exactly what `At` enumerates. */
  lemma FanoutKeepsRows(b: Batch)
    ensures Strip(Placed(Fanout(b))) == Rows(b)
  {
    PlacedRows(Fanout(b));
    if b.Typed? {
      assert RowsOf([b]) == Rows(b) + RowsOf([]);
    }
  }

  // ---- Under which table

  /** The rows of a batch, each with the table of the typed batch that holds it. */
  function Owned(b: Batch): seq<(string, Any)>
    decreases b, 1
  {
    match b
    case Typed(table, rows) => Labelled(table, rows)
    case Multi(parts) => OwnedBy(parts)
  }

  function OwnedBy(parts: seq<Batch>): seq<(string, Any)>
    decreases parts, 0
  {
    if parts == [] then [] else Owned(parts[0]) + OwnedBy(parts[1..])
  }

  lemma {:induction false} OwnedRows(b: Batch)
    ensures |Owned(b)| == |Rows(b)| && Strip(Owned(b)) == Rows(b)
    decreases b, 1
  {
    if b.Multi? {
      OwnedByRows(b.parts);
    }
  }

  lemma {:induction false} OwnedByRows(parts: seq<Batch>)
    ensures |OwnedBy(parts)| == |RowsOf(parts)| && Strip(OwnedBy(parts)) == RowsOf(parts)
    decreases parts, 0
  {
    if parts != [] {
      OwnedRows(parts[0]);
      OwnedByRows(parts[1..]);
      assert Strip(Owned(parts[0]) + OwnedBy(parts[1..])) == Strip(Owned(parts[0])) + Strip(OwnedBy(parts[1..]));
    }
  }

  /** A part keeps its rows' tables if it is enqueued under its own name and every row is its own. */
  ghost predicate KeepsTables(part: Batch)
  {
    forall i :: 0 <= i < |Owned(part)| ==> Owned(part)[i].0 == Table(part)
  }

  lemma LabelledIsOwnedIff(part: Batch)
    ensures Labelled(Table(part), Rows(part)) == Owned(part) <==> KeepsTables(part)
  {
    OwnedRows(part);
    if KeepsTables(part) {
      forall i | 0 <= i < |Owned(part)|
        ensures Owned(part)[i] == Labelled(Table(part), Rows(part))[i]
      {
        assert Strip(Owned(part))[i] == Owned(part)[i].1;
      }
    }
  }

  lemma {:induction false} PlacedIsOwnedIff(parts: seq<Batch>)
    ensures Placed(parts) == OwnedBy(parts) <==> forall k :: 0 <= k < |parts| ==> KeepsTables(parts[k])
  {
    if parts != [] {
      var head, rest := Labelled(Table(parts[0]), Rows(parts[0])), Placed(parts[1..]);
      PlacedIsOwnedIff(parts[1..]);
      LabelledIsOwnedIff(parts[0]);
      OwnedRows(parts[0]);
      SplitsAlike(head, rest, Owned(parts[0]), OwnedBy(parts[1..]));
      assert forall k :: 0 < k < |parts| ==> parts[k] == parts[1..][k - 1];
      assert forall k :: 0 <= k < |parts[1..]| ==> parts[1..][k] == parts[k + 1];
    }
  }

  lemma SplitsAlike<T>(a: seq<T>, b: seq<T>, c: seq<T>, d: seq<T>)
    requires |a| == |c|
    ensures a + b == c + d <==> a == c && b == d
  {
    if a + b == c + d {
      assert a == (a + b)[..|a|] == c;
      assert b == (a + b)[|a|..] == d;
    }
  }

  /** No typed batch is named like a multi batch. */
  predicate NamesApart(b: Batch)
  {
    match b
    case Typed(table, _) => table != "<multi>"
    case Multi(parts) => forall k :: 0 <= k < |parts| ==> NamesApart(parts[k])
  }

  lemma {:induction false} NestedRowIsElsewhere(b: Batch, i: nat)
    requires NamesApart(b) && i < |Owned(b)|
    ensures Owned(b)[i].0 != "<multi>"
    decreases b, 1
  {
    if b.Multi? {
      NestedRowsAreElsewhere(b.parts, i);
    }
  }

  lemma {:induction false} NestedRowsAreElsewhere(parts: seq<Batch>, i: nat)
    requires (forall k :: 0 <= k < |parts| ==> NamesApart(parts[k])) && i < |OwnedBy(parts)|
    ensures OwnedBy(parts)[i].0 != "<multi>"
    decreases parts, 0
  {
    if i < |Owned(parts[0])| {
      NestedRowIsElsewhere(parts[0], i);
    } else {
      assert forall k :: 0 <= k < |parts[1..]| ==> parts[1..][k] == parts[k + 1];
      NestedRowsAreElsewhere(parts[1..], i - |Owned(parts[0])|);
    }
  }

  /**
    Send opens only one level of a multi batch. Each row is enqueued under the table of its own typed batch if and
    only if no part with rows is itself a multi batch; those of one that is go to the table "<multi>".
   */
  lemma RowsKeepTablesIff(b: Batch)
    requires NamesApart(b)
    ensures b.Typed? ==> Placed(Fanout(b)) == Owned(b)
    ensures b.Multi? ==>
              (Placed(Fanout(b)) == Owned(b)
               <==> forall k :: 0 <= k < |b.parts| ==> b.parts[k].Typed? || Rows(b.parts[k]) == [])
  {
    var parts := Fanout(b);
    PlacedIsOwnedIff(parts);
    if b.Typed? {
      assert OwnedBy([b]) == Owned(b) + OwnedBy([]);
    }
    forall k | 0 <= k < |parts|
      ensures KeepsTables(parts[k]) <==> parts[k].Typed? || Rows(parts[k]) == []
    {
      OwnedRows(parts[k]);
      if parts[k].Multi? && Rows(parts[k]) != [] {
        NestedRowIsElsewhere(parts[k], 0);
      }
    }
  }
}
