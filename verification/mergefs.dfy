/** `File` (mergefs.go:68-141): one logical file spread over several shard
    logs. A write goes whole to one shard; a read asks every shard for the
    records its window meets, merges the answers and copies their bytes. */
module MergeFS {
  import opened Store
  import opened Segs
  import opened Merge
  import Shard

  /** The number of shards `OpenFile` opens (mergefs.go:16). */
  const NumFiles: nat := 2

  datatype File = File(files: seq<Shard.SegFile>, size: nat)

  /** The outcome of `File.ReadAt`: the bytes placed at the front of the
      caller's buffer (the rest of the buffer is left alone), end of file, or
      the index-out-of-range panic Go raises when the seg at hand does not
      hold the next byte to copy (mergefs.go:130-136). */
  datatype ReadResult = Filled(bytes: seq<byte>) | EndOfFile | OutOfRange

  // ------------------------------------------------------------------ open

  /** The size loop of `OpenFile` (mergefs.go:79-90): the largest shard size,
      zero when there is none. */
  function MaxSize(files: seq<Shard.SegFile>): (r: nat)
    ensures forall i | 0 <= i < |files| :: files[i].size <= r
    ensures r == 0 || exists i | 0 <= i < |files| :: r == files[i].size
  {
    if |files| == 0 then 0
    else
      var m := MaxSize(files[..|files| - 1]);
      assert forall i | 0 <= i < |files| - 1 :: files[..|files| - 1][i] == files[i];
      if files[|files| - 1].size > m then files[|files| - 1].size else m
  }

  /** `OpenFile` on the shards' stores: replay each, keep the largest size. */
  function OpenFile(stores: seq<seq<byte>>): (r: File)
    ensures |r.files| == |stores|
    ensures forall i | 0 <= i < |stores| :: r.files[i] == Shard.Open(stores[i])
    ensures forall i | 0 <= i < |stores| :: r.files[i].size <= r.size
    ensures r.size == 0 || exists i | 0 <= i < |stores| :: r.size == r.files[i].size
  {
    var files := seq(|stores|, i requires 0 <= i < |stores| => Shard.Open(stores[i]));
    File(files, MaxSize(files))
  }

  /** The stores of a file's shards, in shard order. */
  function Stores(f: File): (r: seq<seq<byte>>)
    ensures |r| == |f.files|
    ensures forall i | 0 <= i < |f.files| :: r[i] == f.files[i].store
  {
    seq(|f.files|, i requires 0 <= i < |f.files| => f.files[i].store)
  }

  // ----------------------------------------------------------------- write

  /** `File.WriteAt` (mergefs.go:103-110) with the randomly chosen shard
      (mergefs.go:94-96) passed in: the whole write goes to that shard, the
      others are untouched, and the file size grows by the payload length. */
  function WriteAt(f: File, shard: nat, b: seq<byte>, off: nat): (r: File)
    requires shard < |f.files|
    requires off <= Shard.MaxInt64 && |b| <= Shard.MaxInt64
    ensures |r.files| == |f.files|
    ensures r.size == f.size + |b|
    ensures r.files[shard] == Shard.WriteAt(f.files[shard], b, off)
    ensures forall i | 0 <= i < |f.files| && i != shard :: r.files[i] == f.files[i]
  {
    File(f.files[shard := Shard.WriteAt(f.files[shard], b, off)], f.size + |b|)
  }

  // ------------------------------------------------------------------ read

  /** The merge loop of `File.ReadAt` (mergefs.go:119-126): fold the shard
      answers into one list, left to right, starting from the empty list. */
  function MergeAll(qs: seq<seq<Seg>>): seq<Seg>
  {
    if |qs| == 0 then [] else MergeSegs(MergeAll(qs[..|qs| - 1]), qs[|qs| - 1])
  }

  /** The answers of every shard to the window `[off, off+size)`. */
  function Queries(f: File, off: nat, size: nat): (r: seq<seq<Seg>>)
    ensures |r| == |f.files|
    ensures forall j | 0 <= j < |f.files| :: r[j] == Shard.ReadAt(f.files[j], off, size)
  {
    seq(|f.files|, j requires 0 <= j < |f.files| => Shard.ReadAt(f.files[j], off, size))
  }

  /** What the merge loop receives from each shard (mergefs.go:119-124):
      every shard whose descriptors are sorted by offset answers with exactly
      its descriptors that meet the window, in order, each loaded. */
  lemma QueriesFindAllHits(f: File, off: nat, size: nat)
    ensures var qs := Queries(f, off, size);
            |qs| == |f.files| &&
            forall j | 0 <= j < |f.files| && SortedByOff(f.files[j].segs) ::
              qs[j] == Shard.LoadAll(f.files[j].store, Shard.Hits(f.files[j].segs, off, size))
  {
    forall j | 0 <= j < |f.files| && SortedByOff(f.files[j].segs)
      ensures Queries(f, off, size)[j] == Shard.LoadAll(f.files[j].store, Shard.Hits(f.files[j].segs, off, size))
    {
      Shard.ReadAtFindsAllHits(f.files[j], off, size);
    }
  }

  /** The copy loop of `File.ReadAt` (mergefs.go:127-139): for each seg in
      merged order, while the buffer is not full, copy its bytes from the
      current position on and advance the position by what was copied. */
  function CopySegs(segs: seq<Seg>, off: nat, remaining: nat): (r: ReadResult)
    ensures r != EndOfFile
    ensures r.Filled? ==> |r.bytes| <= remaining
  {
    if remaining == 0 || |segs| == 0 then Filled([])
    else
      var s := segs[0];
      if off < s.off || off - s.off > s.size || off - s.off > |s.data| then OutOfRange
      else
        var segOff := off - s.off;
        var readSize := Min(s.size - segOff, remaining);
        var num := Min(readSize, |s.data| - segOff);
        var rest := CopySegs(segs[1..], off + num, remaining - num);
        if rest.Filled? then Filled(s.data[segOff..segOff + num] + rest.bytes) else rest
  }

  /** `File.ReadAt` with a buffer of `size` bytes: end of file only when the
      offset lies past the size; otherwise query, merge and copy. */
  function ReadAt(f: File, size: nat, off: nat): (r: ReadResult)
    ensures r == EndOfFile <==> off > f.size
    ensures r.Filled? ==> |r.bytes| <= size
  {
    if off > f.size then EndOfFile
    else CopySegs(MergeAll(Queries(f, off, size)), off, size)
  }

  // ------------------------------------------------------ merge-loop facts

  /** The fold keeps exactly the elements of the shard answers. */
  lemma {:induction false} MergeAllMembers(qs: seq<seq<Seg>>)
    ensures forall u :: u in MergeAll(qs) <==> exists j | 0 <= j < |qs| :: u in qs[j]
    decreases |qs|
  {
    if |qs| > 0 {
      var front := qs[..|qs| - 1];
      MergeAllMembers(front);
      var r := MergeAll(qs);
      assert r == MergeSegs(MergeAll(front), qs[|qs| - 1]);
      forall u
        ensures u in r <==> exists j | 0 <= j < |qs| :: u in qs[j]
      {
        assert u in r <==> u in multiset(r);
        if u in MergeAll(front) {
          var j :| 0 <= j < |front| && u in front[j];
          assert u in qs[j];
        }
        if exists j | 0 <= j < |qs| :: u in qs[j] {
          var j :| 0 <= j < |qs| && u in qs[j];
          if j < |qs| - 1 {
            assert u in front[j];
          }
        }
      }
    }
  }

  /** Folding sorted answers gives a sorted list. */
  lemma {:induction false} MergeAllSorted(qs: seq<seq<Seg>>)
    requires forall j | 0 <= j < |qs| :: SortedByKey(qs[j])
    ensures SortedByKey(MergeAll(qs))
    decreases |qs|
  {
    if |qs| > 0 {
      MergeAllSorted(qs[..|qs| - 1]);
      MergeSegsSorted(MergeAll(qs[..|qs| - 1]), qs[|qs| - 1]);
    }
  }
}
