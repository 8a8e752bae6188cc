/** The bounded per-table queues as values: what the exporter's buffers must hold. */
module Queue {
  import opened Prelude
  import opened Sample

  const DEFAULT_QUEUE_SIZE: nat := 100_000

  /** New's defaulting of Config.QueueSize. */
  function EffectiveSize(configured: int): (q: nat)
    ensures q > 0
  {
    if configured <= 0 then DEFAULT_QUEUE_SIZE else configured
  }

  /** A positive configured size is the one used, and 100000 otherwise. */
  lemma EffectiveSizeIs(configured: int)
    ensures EffectiveSize(configured) == if configured > 0 then configured else 100_000
  {
  }

  /** The newest n elements. */
  function Newest<T>(s: seq<T>, n: nat): seq<T>
  {
    if |s| <= n then s else s[|s| - n..]
  }

  function Overflow(have: nat, add: nat, q: nat): nat
  {
    if have + add > q then have + add - q else 0
  }

  type Buffers = map<string, seq<Any>>

  function Held(bufs: Buffers, table: string): seq<Any>
  {
    GetOr(bufs, table, [])
  }

  function Enqueue(bufs: Buffers, table: string, rows: seq<Any>, q: nat): Buffers
  {
    if rows == [] then bufs else bufs[table := Newest(Held(bufs, table) + rows, q)]
  }

  /** A counter per table, increased. */
  function Bump(drops: map<string, nat>, table: string, n: nat): map<string, nat>
  {
    if n == 0 then drops else drops[table := GetOr(drops, table, 0) + n]
  }

  function CountDrops(drops: map<string, nat>, bufs: Buffers, table: string, rows: seq<Any>, q: nat): map<string, nat>
  {
    if rows == [] then drops else Bump(drops, table, Overflow(|Held(bufs, table)|, |rows|, q))
  }

  /** Several batches, each in a critical section of its own. */
  function EnqueueAll(bufs: Buffers, parts: seq<Batch>, q: nat): Buffers
  {
    if parts == [] then bufs
    else Enqueue(EnqueueAll(bufs, Front(parts), q), Table(Last(parts)), Rows(Last(parts)), q)
  }

  function CountAllDrops(drops: map<string, nat>, bufs: Buffers, parts: seq<Batch>, q: nat): map<string, nat>
  {
    if parts == [] then drops
    else CountDrops(CountAllDrops(drops, bufs, Front(parts), q), EnqueueAll(bufs, Front(parts), q),
                    Table(Last(parts)), Rows(Last(parts)), q)
  }

  /** What a flush takes: every table with rows. */
  function NonEmpty(bufs: Buffers): Buffers
  {
    map t | t in bufs && bufs[t] != [] :: bufs[t]
  }

  /** What a flush leaves: the same tables, all empty. */
  function Cleared(bufs: Buffers): Buffers
  {
    map t | t in bufs :: []
  }

  ghost predicate AllEmpty(bufs: Buffers)
  {
    forall t :: t in bufs ==> bufs[t] == []
  }

  /** One row: drop the oldest if the buffer is full, then append. */
  function PushOne(buf: seq<Any>, row: Any, q: nat): seq<Any>
    requires q > 0
  {
    (if |buf| >= q then buf[1..] else buf) + [row]
  }

  /** Rows one at a time. */
  function PushEach(buf: seq<Any>, rows: seq<Any>, q: nat): seq<Any>
    requires q > 0
  {
    if rows == [] then buf else PushOne(PushEach(buf, Front(rows), q), Last(rows), q)
  }

  /** Dropping the oldest before every append is keeping the newest at the end. */
  lemma {:induction false} PushEachKeepsNewest(buf: seq<Any>, rows: seq<Any>, q: nat)
    requires q > 0 && |buf| <= q
    ensures PushEach(buf, rows, q) == Newest(buf + rows, q)
  {
    if rows == [] {
      assert buf + rows == buf;
    } else {
      PushEachKeepsNewest(buf, Front(rows), q);
      NewestOfOneMore(buf + Front(rows), Last(rows), q);
      assert buf + rows == buf + Front(rows) + [Last(rows)];
    }
  }

  lemma NewestOfOneMore(s: seq<Any>, row: Any, q: nat)
    requires q > 0
    ensures Newest(s + [row], q) == PushOne(Newest(s, q), row, q)
  {
    if |s| >= q {
      assert (s + [row])[|s| + 1 - q..] == s[|s| + 1 - q..] + [row];
    }
  }

  /** A stretch of exporter activity: batches pushed by any senders, and flushes. */
  datatype Op = Push(batch: Batch) | Flush

  /** Buffers and drop counters at the end of a stretch, and what each flush of it took. */
  datatype Outcome = Outcome(bufs: Buffers, drops: map<string, nat>, taken: seq<Buffers>)

  function Perform(o: Outcome, op: Op, q: nat): Outcome
  {
    match op
    case Push(b) =>
      Outcome(Enqueue(o.bufs, Table(b), Rows(b), q), CountDrops(o.drops, o.bufs, Table(b), Rows(b), q), o.taken)
    case Flush =>
      Outcome(Cleared(o.bufs), o.drops, o.taken + [NonEmpty(o.bufs)])
  }

  function Replay(ops: seq<Op>, q: nat): Outcome
  {
    if ops == [] then Outcome(map[], map[], []) else Perform(Replay(Front(ops), q), Last(ops), q)
  }
}
