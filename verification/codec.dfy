/** The record header: the logical offset and the payload length, each as an
    unsigned 64-bit little-endian integer, 16 bytes in all, no padding. */
module Codec {
  import opened Store

  const HeaderSize: nat := 16
  const U64Bound: nat := 0x1_0000_0000_0000_0000

  function Pow256(k: nat): (r: nat)
    ensures r >= 1
  {
    if k == 0 then 1 else 256 * Pow256(k - 1)
  }

  /** `width` bytes holding `x`, least significant byte first. */
  function EncodeLE(x: nat, width: nat): (r: seq<byte>)
    requires x < Pow256(width)
    ensures |r| == width
    decreases width
  {
    if width == 0 then [] else [x % 256] + EncodeLE(x / 256, width - 1)
  }

  /** The unsigned integer a little-endian byte sequence holds. */
  function DecodeLE(bs: seq<byte>): nat
  {
    if |bs| == 0 then 0 else bs[0] + 256 * DecodeLE(bs[1..])
  }

  /** `width` bytes hold less than `256^width`. */
  lemma {:induction false} DecodeLEBound(bs: seq<byte>)
    ensures DecodeLE(bs) < Pow256(|bs|)
  {
    if |bs| > 0 {
      DecodeLEBound(bs[1..]);
    }
  }

  lemma {:induction false} DecodeEncodeLE(x: nat, width: nat)
    requires x < Pow256(width)
    ensures DecodeLE(EncodeLE(x, width)) == x
    decreases width
  {
    if width > 0 {
      var rest := EncodeLE(x / 256, width - 1);
      assert EncodeLE(x, width)[1..] == rest;
      DecodeEncodeLE(x / 256, width - 1);
    }
  }

  lemma {:induction false} EncodeDecodeLE(bs: seq<byte>)
    ensures DecodeLE(bs) < Pow256(|bs|) && EncodeLE(DecodeLE(bs), |bs|) == bs
  {
    DecodeLEBound(bs);
    if |bs| > 0 {
      var d := DecodeLE(bs);
      var d' := DecodeLE(bs[1..]);
      assert d % 256 == bs[0] && d / 256 == d';
      EncodeDecodeLE(bs[1..]);
    }
  }

  datatype Option<T> = None | Some(value: T)

  datatype Header = Header(off: nat, size: nat)

  predicate EncodableHeader(h: Header) {
    h.off < U64Bound && h.size < U64Bound
  }

  /** The 16 bytes written in front of every payload (mergefs.go:211-212). */
  function EncodeHeader(h: Header): (r: seq<byte>)
    requires EncodableHeader(h)
    ensures |r| == HeaderSize
  {
    EncodeLE(h.off, 8) + EncodeLE(h.size, 8)
  }

  /** The header read back from 16 bytes (mergefs.go:190-191). */
  function DecodeHeader(bs: seq<byte>): (r: Header)
    requires |bs| == HeaderSize
    ensures EncodableHeader(r)
  {
    DecodeLEBound(bs[..8]);
    DecodeLEBound(bs[8..]);
    assert Pow256(8) == U64Bound;
    Header(DecodeLE(bs[..8]), DecodeLE(bs[8..]))
  }

  /** Decoding what was encoded gives back the header. */
  lemma HeaderRoundTrip(h: Header)
    requires EncodableHeader(h)
    ensures DecodeHeader(EncodeHeader(h)) == h
  {
    var bs := EncodeHeader(h);
    assert bs[..8] == EncodeLE(h.off, 8);
    assert bs[8..] == EncodeLE(h.size, 8);
    DecodeEncodeLE(h.off, 8);
    DecodeEncodeLE(h.size, 8);
  }

  /** Every 16-byte string is the encoding of the header it decodes to, so
      the codec is a bijection between encodable headers and 16-byte strings. */
  lemma HeaderBytesRoundTrip(bs: seq<byte>)
    requires |bs| == HeaderSize
    ensures EncodeHeader(DecodeHeader(bs)) == bs
  {
    EncodeDecodeLE(bs[..8]);
    EncodeDecodeLE(bs[8..]);
    assert bs == bs[..8] + bs[8..];
  }

  /** The header stored at `at`, or None when fewer than 16 bytes remain
      there: a short read of the header ends the log (mergefs.go:180-188). */
  function HeaderAt(store: seq<byte>, at: nat): (r: Option<Header>)
    ensures r.Some? <==> at + HeaderSize <= |store|
    ensures r.Some? ==> r.value == DecodeHeader(store[at..at + HeaderSize])
  {
    if at + HeaderSize <= |store| then Some(DecodeHeader(store[at..at + HeaderSize])) else None
  }

  /** Reading a header at `at` yields `h` exactly when the 16 bytes there are
      the encoding `SegFile.WriteAt` writes for `h` (mergefs.go:208-212), so
      replay reads back every header a write put in front of its payload and
      nothing else. */
  lemma HeaderAtEncoded(store: seq<byte>, at: nat, h: Header)
    ensures HeaderAt(store, at) == Some(h) <==>
            EncodableHeader(h) && at + HeaderSize <= |store| && store[at..at + HeaderSize] == EncodeHeader(h)
  {
    if at + HeaderSize <= |store| {
      var bs := store[at..at + HeaderSize];
      HeaderBytesRoundTrip(bs);
      if EncodableHeader(h) && bs == EncodeHeader(h) {
        HeaderRoundTrip(h);
      }
    }
  }
}
