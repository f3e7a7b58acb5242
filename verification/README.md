# mergefs in Dafny

A model of the Go package `mergefs`. The package stores one logical file
as several append-only shard logs ("seg files"). Each write goes whole to
one randomly chosen shard as a record: a 16-byte header (logical offset and
length, both little-endian `uint64`) followed by the payload. Opening a
shard replays its log to rebuild the list of record descriptors ("segs").
A read asks every shard for the segs that meet the window, merges the
answers into one list ordered by (offset, length), and copies their bytes
into the caller's buffer.

The model has seven modules, one per file:

- `Store` (store.dfy): a shard's backing file as a byte sequence. Positioned
  writes leave a zero-filled hole past the end; positioned reads go into a
  zeroed buffer.
- `Codec` (codec.dfy): the little-endian `uint64` codec and the 16-byte
  record header.
- `Segs` (segs.dfy): the seg descriptor and the orders on segs.
- `Merge` (merge.dfy): `mergeSegs`. It is given both as a recursive
  reference definition and as the two in-place loops of the Go function.
- `Shard` (shard.dfy): `SegFile`, meaning the replay in `OpenSegFile`,
  `WriteAt` and the lookup in `ReadAt`.
- `MergeFS` (mergefs.dfy): `File`, meaning `OpenFile`, `WriteAt` and
  `ReadAt`.
- `Tiling` (tiling.dfy): the end-to-end guarantee the package's test
  exercises. After any run of appending writes, and after a close and
  reopen, `ReadAt` returns exactly the bytes written. The proof goes through
  `Represents(f, content)`. This predicate says:
  - the file's size is the length of the content;
  - every shard replays to its own descriptors;
  - every shard's descriptors are sorted by (offset, length);
  - every descriptor's payload equals the content it covers;
  - no descriptor starts strictly inside another;
  - every content byte is covered.

The model follows the code in three places where a reader might expect
otherwise:

- `mergeSegs` produces an ASCENDING list. It fills the output from the last
  slot down, taking the larger tail each time.
- `File.ReadAt` returns `io.EOF` only when `off > size` (mergefs.go:116),
  although its doc comment (mergefs.go:114) speaks of end of file in
  general. When every write has appended at the current size, as in
  `Tiling.ReadAtReads`, a read at exactly the size copies nothing and
  reports no error. After other writes the same test can let through a read
  whose merged segs start past the offset. The copy then slices with a
  negative index and Go panics (mergefs.go:130,136); the model returns
  `OutOfRange` there.
- Replay checks only that a whole header is present. A record whose payload
  was torn off still produces a seg, and its missing bytes read as zeros.

Two sizes are kept. After replay, a shard's `SegFile.size` is the end of
its last record (mergefs.go:196). Each `SegFile.WriteAt` then adds `len(b)`
(mergefs.go:217), whatever the offset. `File.WriteAt` adds `len(b)` to the file's size whatever the offset
(mergefs.go:108), and `File` never reads a shard's size after `OpenFile`
(mergefs.go:87-88). For one shard, the size after a write equals the size a
reopen computes exactly when the write started at that shard's size
(`Shard.WriteAtSizeAgreesOnReopen`). For the whole file, the fact proved is
that writes each starting at the end of the content written so far keep the
file's size equal to the size a reopen computes (`Tiling.WriteAtRepresents`,
`Tiling.ReopenRepresents`). The package's test writes that way.

## Model

| member | source | states |
|---|---|---|
| Store.WriteBytes | mergefs.go:213-214 | the written bytes land at `[at, at+len)`; every other byte keeps its value; a gap past the old end reads as zeros; the length becomes the larger of the old length and the end of the write; an empty write past the end is excluded, since it writes nothing and `SegFile.WriteAt` never issues one |
| Store.ReadBytes | mergefs.go:232-233 | a positioned read into a fresh buffer of `size` bytes gives the stored byte where there is one and zero past the end of the store |
| Codec.DecodeEncodeLE | mergefs.go:211-212 | decoding the little-endian encoding of `x` in `width` bytes gives back `x` |
| Codec.EncodeDecodeLE | mergefs.go:190-191 | every byte string is the little-endian encoding of the number it decodes to, and that number fits its width |
| Codec.HeaderRoundTrip | mergefs.go:208-212 | reading back the 16-byte header written for `(off, size)` gives `(off, size)` |
| Codec.HeaderBytesRoundTrip | mergefs.go:189-191 | every 16-byte string is the encoding of the header it decodes to, so the header codec is a bijection |
| Codec.HeaderAtEncoded | mergefs.go:179-191 | the header read at `at` is `h` exactly when 16 bytes remain there and they are the encoding written for `h` (lines 208-212); so a header a write put down is read back as written, and a short read ends the log |
| Merge.MergeSegs | mergefs.go:26-54 | an empty side returns the other side unchanged; otherwise the result is a permutation of the two inputs (equal multisets), so nothing is lost or invented |
| Merge.MergeTailsPerm | mergefs.go:36-53 | the tail merge keeps exactly the elements of both inputs, as multisets |
| Merge.MergeSegsInPlace | mergefs.go:26-54 | the Go function's in-place loops over `append(m, n...)` compute the reference merge `MergeSegs` |
| Merge.MergeLoops | mergefs.go:36-53 | the two loops, with the longer list as `m`, produce the reference tail merge |
| Merge.MergeBoth | mergefs.go:38-47 | the first loop keeps the merge invariant: slots up to `i` still hold `m`'s unmerged prefix, and merging the prefixes in front of the filled slots gives the whole merge; it stops once one list is used up |
| Merge.MergeRest | mergefs.go:48-52 | the second loop keeps the same invariant until `n` is used up |
| Merge.MergeTailsSorted | mergefs.go:38-47 | merging two lists sorted by (offset, length) gives a sorted list |
| Merge.MergeSegsSorted | mergefs.go:26-54 | `mergeSegs` of two sorted lists is sorted ascending by (offset, length) |
| Merge.MergeTailsTies | mergefs.go:38-52 | for sorted inputs, the segs with a given offset and length come out as those of `n` followed by those of `m`, each group in its own order (the comparison at line 39 takes `m`'s tail first on a tie) |
| Merge.MergeSegsTies | mergefs.go:32-39 | for sorted inputs, equal-key segs of the shorter input (of `b` when the lengths are equal) come before those of the other input, each group in its own order |
| Shard.ReplayFrom | mergefs.go:176-197 | replay leaves the store as is and stops at or after where it started, at a position where fewer than 16 bytes remain |
| Shard.ReplayFromSize | mergefs.go:193-196 | replay keeps the descriptors gathered so far as a prefix; the size is the end of the last descriptor it added, or the size it started with |
| Shard.Open | mergefs.go:170-200 | opening a store keeps it as is, stops within 16 bytes of its end, and sets the size to the end of the last descriptor (zero for an empty log) |
| Shard.WriteAt | mergefs.go:207-219 | a write appends one descriptor at the cursor, moves the cursor past header and payload, and grows the size by the payload length; the store keeps its bytes before the cursor and past the new record, holds the encoded header and then the payload, and is zero between its old end and a cursor left past it by a torn payload |
| Shard.WriteAtReplays | mergefs.go:207-219 | after a write to a shard whose descriptors match its replay, a reopen rebuilds the same descriptors and cursor, with size the end of the record just written |
| Shard.WriteAllReplays | mergefs.go:207-219 | any sequence of writes to a replayable shard leaves it replayable |
| Shard.WriteAtSizeAgreesOnReopen | mergefs.go:196-217 | after a write, the in-memory size equals the size a reopen computes exactly when the write started at the current size |
| Shard.ReplayPrefix | mergefs.go:178-197 | a store that agrees with another on every byte replay reads yields the same replay up to where the other stops |
| Shard.TornHeaderIgnored | mergefs.go:180-188 | a trailing partial header (fewer than 16 bytes) is ignored: reopening yields the same descriptors and cursor |
| Shard.Scan | mergefs.go:225-237 | every seg the scan returns is a stored descriptor that meets the window, loaded with its payload |
| Shard.ScanFindsAllHits | mergefs.go:225-237 | on a list sorted by offset, the early-stopping scan returns exactly the descriptors that meet the window, in order, each loaded (checked against the stop-free reference `Hits`) |
| Shard.ReadAtFindsAllHits | mergefs.go:224-239 | a shard read with descriptors sorted by offset returns every seg that meets the window |
| Shard.ScanMissesOutOfOrder | mergefs.go:229-231 | without the ordering the early stop loses a seg: a concrete list where the scan returns nothing although one seg meets the window |
| Shard.ScanSorted | mergefs.go:225-237 | a scan of a list sorted by (offset, length) is sorted the same way |
| MergeFS.MaxSize | mergefs.go:79-90 | the size is at least every shard's size and is one of them, or zero when there is none |
| MergeFS.OpenFile | mergefs.go:78-92 | each shard is the replay of its store, and the file size is the largest shard size |
| MergeFS.WriteAt | mergefs.go:103-110 | the write goes whole to the chosen shard, the other shards are untouched, and the file size grows by the payload length |
| MergeFS.QueriesFindAllHits | mergefs.go:119-124 | the merge loop gets one answer per shard, in shard order; a shard whose descriptors are sorted by offset answers with exactly its descriptors that meet the window, in order, each loaded |
| MergeFS.CopySegs | mergefs.go:127-139 | the copy loop never reports end of file and never copies more than the buffer holds |
| MergeFS.ReadAt | mergefs.go:115-141 | end of file exactly when the offset lies past the size; otherwise at most `len(b)` bytes |
| MergeFS.MergeAllMembers | mergefs.go:119-126 | folding the answers with `mergeSegs` keeps exactly the segs some shard returned |
| MergeFS.MergeAllSorted | mergefs.go:119-126 | folding sorted answers gives a list sorted by (offset, length) |
| Tiling.CopyFills | mergefs.go:127-139 | over a sorted list of loaded segs, none starting inside another, that together cover the bytes to be read, the copy loop returns exactly those content bytes and never indexes outside a seg |
| Tiling.Origin | mergefs.go:119-126 | every seg in the merged answer holds the content it covers, ends past the offset, and has the key of a stored descriptor |
| Tiling.MergedWalkable | mergefs.go:115-126 | the merged answer to a window inside the content meets what the copy loop needs: it is sorted, no seg starts inside another, and the window's bytes are covered |
| Tiling.ReadAtReads | mergefs.go:115-141 | on a file that represents `content`, `ReadAt(b, off)` is end of file when `off > len(content)`; otherwise it is exactly `content[off:off+n]` with `n = min(len(b), len(content)-off)` |
| Tiling.OpenEmpty | mergefs.go:78-92 | opening empty shard stores gives a file that represents the empty content |
| Tiling.ReopenRepresents | mergefs.go:78-92 | closing and reopening a file that represents `content` gives a file that represents the same content, including its size |
| Tiling.WriteAtRepresents | mergefs.go:103-110 | a write of `b` at the end of the represented content, to any shard, gives a file that represents `content + b` |
| Tiling.RunRepresents | mergefs_test.go:33-49 | a run of writes, each starting where the previous ended and each to any shard, extends the represented content by the concatenation of the chunks |
| Tiling.TwoSessions | mergefs_test.go:27-98 | the package test as a theorem: after one session of appending writes from empty shards, and after a reopen and a second session, every `ReadAt` returns the bytes written |

## Left out

- File handling at the operating-system level is left out: `Remove`, `Close`, `os.OpenFile`, shard file names and closing handles. The model works on the stores' contents.
- The random shard choice (`rand.Intn` in `File.file`) is not modelled. The shard index is a parameter, and every theorem holds for every choice.
- I/O errors are not modelled: the error returns of `OpenFile`, `OpenSegFile` and `File.ReadAt`, and the unchecked header write in `SegFile.WriteAt`. A store never fails, and a short read past its end yields zeros, as `make` and `os.File.ReadAt` leave the buffer.
- Fixed-width integers are not modelled. A write's offset and length are naturals bounded by the largest `int64` (the requires of `Shard.WriteAt`). Replay keeps the decoded header fields as naturals up to 2^64-1. Negative offsets are excluded by the `nat` type.
- Shard.ReplayFrom: it does not follow Go on a corrupt log whose header fields do not fit `int64`. Go converts with `int64(f.off)` and `int64(s.off + s.size)` (mergefs.go:194-196). A cursor of 2^63 or more becomes negative, so the next header read fails and `OpenSegFile` returns an error. An end past 2^63-1 makes the shard's size negative. A length field of 2^64-16-cursor or more wraps `f.off += 16 + s.size` modulo 2^64, so the cursor can move back. Go's replay can then loop forever: a length of exactly 2^64-16 brings it back to the same header every time. The model's replay always terminates and keeps the unwrapped values, so `Shard.OpenReplays` holds for every store only in the model.
- In the copy loop, an index out of range (a seg that does not hold the next byte) is the result `OutOfRange` rather than a panic. `Tiling.CopyFills` shows it cannot happen on a file that represents its content.
- The caller's buffer beyond the `n` bytes copied is not modelled. `ReadAt` returns the filled prefix.
- The sharing of slices between `append(m, n...)` and the caller's lists is not modelled. The merge works on values.
- The random chunk sizes, random buffer lengths and random content of the test are universally quantified in `Tiling.TwoSessions`, not drawn.
- Shard.Scan: it does not state that the scan returns every matching seg, because that holds only when the descriptors are sorted by offset. `Shard.ScanFindsAllHits` states it under that condition, and `Shard.ScanMissesOutOfOrder` shows why the condition is needed.
