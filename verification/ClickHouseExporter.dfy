/**
  The ClickHouse exporter's in-memory half (internal/exporter/clickhouse/clickhouse.go), on the heap.
  Every method body is one critical section of Exporter.mu.
 */
module ClickHouseExporter {
  import opened Prelude
  import opened Sample
  import opened GoSlice
  import Queue

  class Exporter {
    const queueSize: nat
    var buffers: map<string, Slice>
    /** metrics.ExporterRowsDropped, per table */
    var dropped: map<string, nat>

    /** What the buffers hold, as values. */
    ghost var contents: Queue.Buffers
    /** The arrays that the buffers may write to, each with the one table it belongs to. */
    ghost var live: map<array<Any>, string>
    /** The arrays handed to a flush, with what they held when they were handed over. */
    ghost var frozen: map<array<Any>, seq<Any>>

    ghost predicate Valid()
      reads `buffers, `contents, `live, `frozen, live.Keys, frozen.Keys
    {
      && queueSize > 0
      && live.Keys !! frozen.Keys
      && contents.Keys == buffers.Keys
      && (forall t :: t in buffers ==> Holds(t))
      && (forall a :: a in frozen ==> a[..] == frozen[a])
    }

    ghost predicate Holds(t: string)
      requires t in buffers && contents.Keys == buffers.Keys
      reads `buffers, `contents, `live, live.Keys
    {
      var s := buffers[t];
      && WellFormed(s)
      && s.len <= queueSize
      && (s.arr != null ==> s.arr in live && live[s.arr] == t)
      && View(s) == contents[t]
    }

    /** New, as far as the buffers go. */
    constructor (configuredSize: int)
      ensures Valid() && contents == map[] && dropped == map[] && live == map[] && frozen == map[]
      ensures queueSize == if configuredSize > 0 then configuredSize else 100_000
    {
      Queue.EffectiveSizeIs(configuredSize);
      queueSize := Queue.EffectiveSize(configuredSize);
      buffers, dropped := map[], map[];
      contents, live, frozen := map[], map[], map[];
    }

    /** enqueue: the whole batch goes into its table's buffer inside one critical section. */
    method Enqueue(b: Batch)
      requires Valid()
      modifies this, live.Keys
      ensures Valid() && fresh(live.Keys - old(live.Keys))
      ensures contents == Queue.Enqueue(old(contents), Table(b), Rows(b), queueSize)
      ensures dropped == Queue.CountDrops(old(dropped), old(contents), Table(b), Rows(b), queueSize)
      ensures frozen == old(frozen)
    {
      var n := Len(b);
      if n != 0 {
        var table := Table(b);
        var drops := EnqueueRows(table, b);
        CountDropped(table, drops);
      }
    }

    /** Send: a multi batch's parts one after another, any other batch as it is. */
    method Send(b: Batch)
      requires Valid()
      modifies this, live.Keys
      ensures Valid() && fresh(live.Keys - old(live.Keys)) && frozen == old(frozen)
      ensures contents == Queue.EnqueueAll(old(contents), if b.Multi? then b.parts else [b], queueSize)
      ensures dropped == Queue.CountAllDrops(old(dropped), old(contents), if b.Multi? then b.parts else [b], queueSize)
    {
      if b.Multi? {
        for k := 0 to |b.parts|
          invariant Valid() && fresh(live.Keys - old(live.Keys)) && frozen == old(frozen)
          invariant contents == Queue.EnqueueAll(old(contents), b.parts[..k], queueSize)
          invariant dropped == Queue.CountAllDrops(old(dropped), old(contents), b.parts[..k], queueSize)
        {
          assert Front(b.parts[..k + 1]) == b.parts[..k];
          Enqueue(b.parts[k]);
        }
        assert b.parts[..|b.parts|] == b.parts;
        return;
      }
      assert Front([b]) == [];
      Enqueue(b);
    }

    /** The drop counter's share of enqueue. */
    method CountDropped(table: string, drops: nat)
      requires Valid()
      modifies `dropped
      ensures Valid()
      ensures dropped == Queue.Bump(old(dropped), table, drops)
    {
      if drops > 0 {
        dropped := dropped[table := GetOr(dropped, table, 0) + drops];
      }
    }

    /** The window work of enqueue; `drops` is how often the window slid. */
    method EnqueueRows(table: string, b: Batch) returns (drops: nat)
      requires Valid()
      modifies this`buffers, this`contents, this`live, live.Keys
      ensures Valid() && fresh(live.Keys - old(live.Keys))
      ensures contents == old(contents)[table := Queue.Newest(Queue.Held(old(contents), table) + Rows(b), queueSize)]
      ensures drops == Queue.Overflow(|Queue.Held(old(contents), table)|, |Rows(b)|, queueSize)
    {
      var s := GetOr(buffers, table, NilSlice);
      ghost var before := Queue.Held(contents, table);
      assert View(s) == before && s.len <= queueSize && (s.arr != null ==> s.arr in live && live[s.arr] == table) by {
        assert table in buffers ==> Holds(table);
      }
      var buf;
      buf, drops := AppendRows(s, b, queueSize);
      assert forall t :: t in buffers && t != table ==> Holds(t);
      Install(table, buf, Queue.Newest(before + Rows(b), queueSize));
    }

    /** e.buffers[table] = buf */
    method Install(table: string, buf: Slice, ghost rows: seq<Any>)
      requires queueSize > 0 && live.Keys !! frozen.Keys && contents.Keys == buffers.Keys
      requires forall t :: t in buffers && t != table ==> Holds(t)
      requires forall a :: a in frozen ==> a[..] == frozen[a]
      requires WellFormed(buf) && buf.len <= queueSize && View(buf) == rows
      requires buf.arr != null ==> buf.arr !in frozen && (buf.arr in live ==> live[buf.arr] == table)
      modifies this`buffers, this`contents, this`live
      ensures Valid() && contents == old(contents)[table := rows]
      ensures forall a :: a in live <==> a in old(live) || a == buf.arr
    {
      buffers := buffers[table := buf];
      contents := contents[table := rows];
      if buf.arr != null {
        live := live[buf.arr := table];
      }
      forall t | t in buffers
        ensures Holds(t)
      {
        assert t != table ==> old(Holds(t));
      }
    }

    /** The locked half of flushAll: take every non-empty buffer and leave nil behind. */
    method Snapshot() returns (snapshot: map<string, Slice>)
      requires Valid()
      modifies `buffers, `contents, `live, `frozen
      ensures Valid() && live.Keys <= old(live.Keys)
      ensures contents == Queue.Cleared(old(contents))
      ensures frozen.Keys <= old(frozen.Keys) + old(live.Keys)
      ensures forall a :: a in old(frozen) ==> a in frozen && frozen[a] == old(frozen[a])
      ensures forall t :: t in snapshot <==> t in old(contents) && old(contents)[t] != []
      ensures forall t :: t in snapshot ==> Shows(snapshot[t], old(contents)[t])
    {
      snapshot := TakeAll();
      Freeze(snapshot.Keys);
      forall t | t in buffers
        ensures Holds(t)
        ensures t in snapshot <==> old(contents)[t] != []
        ensures t in snapshot ==> Shows(snapshot[t], old(contents)[t])
      {
        assert old(Holds(t));
      }
    }

    /** Ownership of the taken tables' arrays passes from the buffers to the flush. */
    ghost method Freeze(tables: set<string>)
      requires live.Keys !! frozen.Keys
      modifies `contents, `live, `frozen
      ensures contents == Queue.Cleared(old(contents))
      ensures forall a :: a in live <==> a in old(live) && old(live)[a] !in tables
      ensures forall a :: a in live ==> live[a] == old(live)[a]
      ensures forall a :: a in frozen <==> a in old(frozen) || (a in old(live) && old(live)[a] in tables)
      ensures forall a :: a in frozen ==> frozen[a] == if a in old(frozen) then old(frozen)[a] else a[..]
    {
      contents := Queue.Cleared(contents);
      frozen := frozen + map a | a in live && live[a] in tables :: a[..];
      live := map a | a in live && live[a] !in tables :: live[a];
    }

    /** The loop over the buffers. */
    method TakeAll() returns (snapshot: map<string, Slice>)
      modifies `buffers
      ensures buffers.Keys == old(buffers).Keys
      ensures forall t :: t in snapshot <==> t in old(buffers) && old(buffers)[t].len > 0
      ensures forall t :: t in snapshot ==> snapshot[t] == old(buffers)[t]
      ensures forall t :: t in buffers ==> buffers[t] == (if t in snapshot then NilSlice else old(buffers)[t])
    {
      snapshot := map[];
      var keys := buffers.Keys;
      while keys != {}
        invariant keys <= buffers.Keys == old(buffers).Keys
        invariant forall t :: t in snapshot <==> t in buffers && t !in keys && old(buffers)[t].len > 0
        invariant forall t :: t in snapshot ==> snapshot[t] == old(buffers)[t]
        invariant forall t :: t in buffers ==> buffers[t] == (if t in snapshot then NilSlice else old(buffers)[t])
        decreases keys
      {
        var k :| k in keys;
        if buffers[k].len > 0 {
          snapshot := snapshot[k := buffers[k]];
          buffers := buffers[k := NilSlice];
        }
        keys := keys - {k};
      }
    }

    /** A slice that a flush may read at any later time: its array is frozen, and it shows these rows. */
    ghost predicate Shows(s: Slice, rows: seq<Any>)
      reads this, Backing(s)
    {
      s.arr != null && s.arr in frozen && WellFormed(s) && View(s) == rows
    }
  }

  /** One round of enqueue's loop: slide the window forward if the buffer is full, then append. */
  method AppendRow(s: Slice, row: Any, q: nat) returns (buf: Slice, drops: nat)
    requires q > 0 && WellFormed(s) && s.len <= q
    modifies Backing(s)
    ensures WellFormed(buf)
    ensures buf.arr == s.arr || (buf.arr != null && fresh(buf.arr))
    ensures View(buf) == Queue.PushOne(old(View(s)), row, q)
    ensures drops == if s.len >= q then 1 else 0
  {
    buf, drops := s, 0;
    if buf.len >= q {
      TailView(buf);
      buf, drops := Tail(buf), 1;
    }
    buf := Append(buf, row);
  }

  /** The i-th round, after the rounds before it. */
  method AppendNext(s: Slice, b: Batch, i: nat, q: nat, dropped: nat, ghost before: seq<Any>)
    returns (buf: Slice, drops: nat)
    requires q > 0 && i < |Rows(b)| && Holding(s, dropped, before, Rows(b)[..i], q)
    modifies Backing(s)
    ensures Holding(buf, drops, before, Rows(b)[..i + 1], q)
    ensures buf.arr == s.arr || (buf.arr != null && fresh(buf.arr))
  {
    ghost var rows := Rows(b);
    assert Front(rows[..i + 1]) == rows[..i] && Last(rows[..i + 1]) == rows[i];
    var row := At(b, i);
    var d;
    buf, d := AppendRow(s, row, q);
    drops := dropped + d;
  }

  /** The loop of enqueue. It may write to the backing array it was given, and to no other existing one. */
  method AppendRows(s: Slice, b: Batch, q: nat) returns (buf: Slice, drops: nat)
    requires q > 0 && WellFormed(s) && s.len <= q
    modifies Backing(s)
    ensures WellFormed(buf) && buf.len <= q
    ensures buf.arr == s.arr || (buf.arr != null && fresh(buf.arr))
    ensures View(buf) == Queue.Newest(old(View(s)) + Rows(b), q)
    ensures drops == Queue.Overflow(s.len, |Rows(b)|, q)
  {
    ghost var before := View(s);
    var n := Len(b);
    buf, drops := s, 0;
    for i := 0 to n
      invariant Holding(buf, drops, before, Rows(b)[..i], q)
      invariant buf.arr == s.arr || (buf.arr != null && fresh(buf.arr))
    {
      buf, drops := AppendNext(buf, b, i, q, drops, before);
    }
    assert Rows(b)[..n] == Rows(b);
    Queue.PushEachKeepsNewest(before, Rows(b), q);
  }

  /** The slice and the count after pushing some rows one at a time. */
  ghost predicate Holding(buf: Slice, drops: nat, before: seq<Any>, rows: seq<Any>, q: nat)
    requires q > 0
    reads Backing(buf)
  {
    && WellFormed(buf)
    && buf.len == (if |before| + |rows| > q then q else |before| + |rows|)
    && View(buf) == Queue.PushEach(before, rows, q)
    && drops == Queue.Overflow(|before|, |rows|, q)
  }

  /**
    Any stretch of sends and flushes. The snapshots are looked at only at the very end, after all later
    sends have run: each still shows exactly what the value model says that flush took.
   */
  method Replay(ops: seq<Queue.Op>, configuredSize: int) returns (e: Exporter, snapshots: seq<map<string, Slice>>)
    ensures e.Valid() && e.queueSize == if configuredSize > 0 then configuredSize else 100_000
    ensures e.contents == Queue.Replay(ops, e.queueSize).bufs
    ensures e.dropped == Queue.Replay(ops, e.queueSize).drops
    ensures var taken := Queue.Replay(ops, e.queueSize).taken;
            |snapshots| == |taken|
            && forall k, t :: 0 <= k < |taken| ==>
                 (t in snapshots[k] <==> t in taken[k])
                 && (t in taken[k] ==> e.Shows(snapshots[k][t], taken[k][t]))
  {
    e := new Exporter(configuredSize);
    snapshots := [];
    ghost var size := e.queueSize;
    for i := 0 to |ops|
      invariant e.Valid() && e.queueSize == size
      invariant fresh(e) && fresh(e.live.Keys) && fresh(e.frozen.Keys)
      invariant e.contents == Queue.Replay(ops[..i], e.queueSize).bufs
      invariant e.dropped == Queue.Replay(ops[..i], e.queueSize).drops
      invariant |snapshots| == |Queue.Replay(ops[..i], e.queueSize).taken|
      invariant forall k, t :: 0 <= k < |snapshots| ==>
                  (t in snapshots[k] <==> t in Queue.Replay(ops[..i], e.queueSize).taken[k])
      invariant forall k, t :: 0 <= k < |snapshots| && t in snapshots[k] ==>
                  e.Shows(snapshots[k][t], Queue.Replay(ops[..i], e.queueSize).taken[k][t])
    {
      assert Front(ops[..i + 1]) == ops[..i];
      match ops[i]
      case Push(b) =>
        e.Enqueue(b);
      case Flush =>
        var snapshot := e.Snapshot();
        snapshots := snapshots + [snapshot];
    }
    assert ops[..|ops|] == ops;
  }
}
