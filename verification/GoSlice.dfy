/** Go slices on the heap: a window onto a shared backing array. */
module GoSlice {
  import opened Prelude
  import opened Sample

  /** `arr` is null only for the nil slice; the window is arr[off..off+len] and may grow to off+cap. */
  datatype Slice = Slice(arr: array?<Any>, off: nat, len: nat, cap: nat)

  const NilSlice: Slice := Slice(null, 0, 0, 0)

  ghost predicate WellFormed(s: Slice)
  {
    && s.len <= s.cap
    && if s.arr == null then s.cap == 0 else s.off + s.cap <= s.arr.Length
  }

  ghost function Backing(s: Slice): set<array<Any>>
  {
    if s.arr == null then {} else {s.arr}
  }

  /** The rows a reader of the slice sees. */
  function View(s: Slice): (rows: seq<Any>)
    requires WellFormed(s)
    reads Backing(s)
    ensures |rows| == s.len
  {
    if s.arr == null then [] else s.arr[s.off..s.off + s.len]
  }

  /** buf[1:] */
  function Tail(s: Slice): Slice
    requires s.len > 0 && s.cap > 0
  {
    Slice(s.arr, s.off + 1, s.len - 1, s.cap - 1)
  }

  lemma TailView(s: Slice)
    requires WellFormed(s) && s.len > 0
    ensures WellFormed(Tail(s)) && View(Tail(s)) == View(s)[1..]
    ensures Tail(s).arr == s.arr && Tail(s).cap - Tail(s).len == s.cap - s.len
  {
  }

  /**
    append(s, x). With spare capacity the element is written into the shared backing array; otherwise the
    window moves to a new array, whose size the runtime chooses.
   */
  method Append(s: Slice, x: Any) returns (t: Slice)
    requires WellFormed(s)
    modifies Backing(s)
    ensures WellFormed(t) && t.arr != null
    ensures View(t) == old(View(s)) + [x]
    ensures t.arr == s.arr || fresh(t.arr)
    ensures s.len < s.cap ==> t.arr == s.arr && t.off == s.off && t.cap == s.cap
  {
    ghost var rows := View(s);
    if s.len < s.cap {
      s.arr[s.off + s.len] := x;
      t := s.(len := s.len + 1);
      assert View(t) == rows + [x];
    } else {
      var size: nat :| size > s.len;
      var grown := new Any[size](_ => Nil);
      for i := 0 to s.len
        invariant View(s) == rows && grown[..i] == rows[..i]
      {
        grown[i] := s.arr[s.off + i];
        assert rows[i] == s.arr[s.off + i] && rows[..i + 1] == rows[..i] + [rows[i]];
        assert grown[..i + 1] == grown[..i] + [grown[i]];
      }
      assert grown[..s.len] == rows;
      grown[s.len] := x;
      t := Slice(grown, 0, s.len + 1, size);
      assert View(t) == grown[..s.len] + [x];
    }
  }
}
