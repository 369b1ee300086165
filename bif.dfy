/**
 * The Roku BIF (Base Index Frames) trick-play file that `generate_bif`
 * writes (src/plex/generator.py:182-214), little-endian throughout:
 *
 *   offset 0   8-byte magic 89 42 49 46 0D 0A 1A 0A
 *   offset 8   u32 version (0)
 *   offset 12  u32 number of images N
 *   offset 16  u32 frame interval in milliseconds
 *   offset 20  zero padding up to the end of the 64-byte header
 *   offset 64  N entries (u32 frame number i, u32 absolute offset of image i)
 *              and a sentinel entry (0xFFFFFFFF, offset of the end of file)
 *   then       the images' bytes, concatenated in table order
 *
 * The offsets written into the table assume the 64-byte header, but the
 * source pads with 56 zero bytes, which makes the header 76 bytes long, so
 * every offset it records falls 12 bytes short (AsWrittenMisplaced). The
 * layout is therefore defined for any padding: `BifAsWritten` is the file
 * the source writes, `Bif` the file with the 44 bytes of padding that make
 * the header 64 bytes, and `DecodeBif` a reader proved to recover the images
 * from `Bif` (DecodeEncode). `WriteBif` is the source's writing loop.
 */
module Bif {
  import opened Wrappers
  import opened LittleEndian

  const Magic: seq<Byte> := [0x89, 0x42, 0x49, 0x46, 0x0D, 0x0A, 0x1A, 0x0A]
  const Version: nat := 0
  const HeaderSize: nat := 64
  const Sentinel: nat := 0xFFFF_FFFF

  /** The padding that ends the header at 64 bytes. */
  const Padding: nat := 44

  /** The padding the source writes. */
  const AsWrittenPadding: nat := 56

  function Zeros(n: nat): (r: seq<Byte>)
    ensures |r| == n && forall i | 0 <= i < n :: r[i] == 0
  {
    if n == 0 then [] else Zeros(n - 1) + [0]
  }

  // ---------------------------------------------------------------------------
  // Sizes and offsets.
  // ---------------------------------------------------------------------------

  /** The summed sizes of the first `i` images. */
  function SizeBefore(images: seq<seq<Byte>>, i: nat): nat
    requires i <= |images|
  {
    if i == 0 then 0 else SizeBefore(images, i - 1) + |images[i - 1]|
  }

  /** The summed sizes of all images. */
  function TotalSize(images: seq<seq<Byte>>): nat {
    SizeBefore(images, |images|)
  }

  /** More images never weigh less. */
  lemma {:induction false} SizeMonotone(images: seq<seq<Byte>>, i: nat, j: nat)
    requires i <= j <= |images|
    ensures SizeBefore(images, i) <= SizeBefore(images, j)
    decreases j - i
  {
    if i < j {
      SizeMonotone(images, i, j - 1);
    }
  }

  /** With no empty image, more images weigh strictly more. */
  lemma {:induction false} SizeStrict(images: seq<seq<Byte>>, i: nat, j: nat)
    requires i < j <= |images|
    requires forall k | 0 <= k < |images| :: |images[k]| > 0
    ensures SizeBefore(images, i) < SizeBefore(images, j)
    decreases j - i
  {
    if i < j - 1 {
      SizeStrict(images, i, j - 1);
    }
  }

  /** The index table: one entry per image and the sentinel. */
  function TableSize(n: nat): nat {
    8 + 8 * n
  }

  /** Where the table entries place the first image: after a 64-byte header and the table. */
  function FirstOffset(n: nat): nat {
    HeaderSize + TableSize(n)
  }

  /** The offset table entry `i` holds (`i == N` is the sentinel's). */
  function Offset(images: seq<seq<Byte>>, i: nat): nat
    requires i <= |images|
  {
    FirstOffset(|images|) + SizeBefore(images, i)
  }

  /** The offset the sentinel holds: the file length for a 64-byte header. */
  function FileSize(images: seq<seq<Byte>>): nat {
    FirstOffset(|images|) + TotalSize(images)
  }

  /** Offsets never decrease, and strictly increase when no image is empty. */
  lemma OffsetsOrdered(images: seq<seq<Byte>>, i: nat, j: nat)
    requires i <= j <= |images|
    ensures Offset(images, i) <= Offset(images, j) <= FileSize(images)
    ensures i < j && (forall k | 0 <= k < |images| :: |images[k]| > 0)
      ==> Offset(images, i) < Offset(images, j)
  {
    SizeMonotone(images, i, j);
    SizeMonotone(images, j, |images|);
    if i < j && forall k | 0 <= k < |images| :: |images[k]| > 0 {
      SizeStrict(images, i, j);
    }
  }

  /**
   * `struct.pack` raises unless every field it is given fits in a u32. The
   * interval field is `1000 * interval`; the largest offset is the
   * sentinel's, and the image count and frame numbers are below it.
   */
  predicate Encodable(interval: int, images: seq<seq<Byte>>) {
    FitsU32(1000 * interval) && FitsU32(FileSize(images))
  }

  // ---------------------------------------------------------------------------
  // u32 fields.
  // ---------------------------------------------------------------------------

  predicate AllFit(fs: seq<int>) {
    forall k | 0 <= k < |fs| :: FitsU32(fs[k])
  }

  /** `fs` packed one u32 after another. */
  function Words(fs: seq<int>): (r: seq<Byte>)
    requires AllFit(fs)
    ensures |r| == 4 * |fs|
  {
    if fs == [] then [] else Words(fs[..|fs| - 1]) + PackU32(fs[|fs| - 1])
  }

  lemma UnpackFront(x: seq<Byte>, y: seq<Byte>, pos: nat)
    requires pos + 4 <= |x|
    ensures UnpackU32(x + y, pos) == UnpackU32(x, pos)
  {
  }

  lemma UnpackBack(x: seq<Byte>, y: seq<Byte>, pos: nat)
    requires pos + 4 <= |y|
    ensures UnpackU32(x + y, |x| + pos) == UnpackU32(y, pos)
  {
  }

  /** Word `k` of `Words(fs)` reads back as `fs[k]`. */
  lemma {:induction false} WordAt(fs: seq<int>, k: nat)
    requires AllFit(fs) && k < |fs|
    ensures UnpackU32(Words(fs), 4 * k) == fs[k]
  {
    var n := |fs|;
    var front := fs[..n - 1];
    assert Words(fs) == Words(front) + PackU32(fs[n - 1]);
    if k == n - 1 {
      UnpackBack(Words(front), PackU32(fs[n - 1]), 0);
    } else {
      WordAt(front, k);
      UnpackFront(Words(front), PackU32(fs[n - 1]), 4 * k);
    }
  }

  /** Word `k` of `fs`, placed after `h` and before `p`. */
  lemma WordIn(h: seq<Byte>, fs: seq<int>, p: seq<Byte>, k: nat)
    requires AllFit(fs) && k < |fs|
    ensures UnpackU32(h + Words(fs) + p, |h| + 4 * k) == fs[k]
  {
    WordAt(fs, k);
    UnpackBack(h, Words(fs), 4 * k);
    UnpackFront(h + Words(fs), p, |h| + 4 * k);
  }

  /** Two more fields after `fs`. */
  lemma WordsSnoc2(fs: seq<int>, a: int, b: int)
    requires AllFit(fs) && FitsU32(a) && FitsU32(b)
    ensures AllFit(fs + [a, b])
    ensures Words(fs + [a, b]) == Words(fs) + PackU32(a) + PackU32(b)
  {
    assert (fs + [a, b])[..|fs| + 1] == fs + [a];
    assert (fs + [a])[..|fs|] == fs;
  }

  // ---------------------------------------------------------------------------
  // The file.
  // ---------------------------------------------------------------------------

  function Header(count: nat, intervalMs: nat, pad: nat): (r: seq<Byte>)
    requires FitsU32(count) && FitsU32(intervalMs)
    ensures |r| == 20 + pad
  {
    Magic + PackU32(Version) + PackU32(count) + PackU32(intervalMs) + Zeros(pad)
  }

  /**
   * The table values of the first `i` entries: frame number `k`, then
   * `first` plus the sizes of the images before `k`.
   */
  function TableUpTo(images: seq<seq<Byte>>, first: nat, i: nat): (r: seq<int>)
    requires i <= |images|
    ensures |r| == 2 * i
  {
    if i == 0 then [] else TableUpTo(images, first, i - 1) + [i - 1, first + SizeBefore(images, i - 1)]
  }

  lemma {:induction false} TableUpToAt(images: seq<seq<Byte>>, first: nat, i: nat, k: nat)
    requires k < i <= |images|
    ensures TableUpTo(images, first, i)[2 * k] == k
    ensures TableUpTo(images, first, i)[2 * k + 1] == first + SizeBefore(images, k)
  {
    if k < i - 1 {
      TableUpToAt(images, first, i - 1, k);
    }
  }

  /** All table values, the sentinel's pair included. */
  function Index(images: seq<seq<Byte>>): (r: seq<int>)
    ensures |r| == 2 * |images| + 2
  {
    TableUpTo(images, FirstOffset(|images|), |images|) + [Sentinel, FileSize(images)]
  }

  /** Pair `i` of the index: frame number `i` and `Offset(i)`, or the sentinel and the end offset. */
  lemma IndexAt(images: seq<seq<Byte>>, i: nat)
    requires i <= |images|
    ensures Index(images)[2 * i] == (if i < |images| then i else Sentinel)
    ensures Index(images)[2 * i + 1] == Offset(images, i)
  {
    if i < |images| {
      TableUpToAt(images, FirstOffset(|images|), |images|, i);
    }
  }

  /** Every index value fits in a u32 once the end offset does. */
  lemma IndexFits(images: seq<seq<Byte>>)
    requires FitsU32(FileSize(images))
    ensures AllFit(Index(images))
  {
    forall k | 0 <= k < |Index(images)| ensures FitsU32(Index(images)[k]) {
      var i := k / 2;
      IndexAt(images, i);
      OffsetsOrdered(images, i, |images|);
    }
  }

  /** The bytes of the first `i` images back to back. */
  function PayloadUpTo(images: seq<seq<Byte>>, i: nat): (r: seq<Byte>)
    requires i <= |images|
    ensures |r| == SizeBefore(images, i)
  {
    if i == 0 then [] else PayloadUpTo(images, i - 1) + images[i - 1]
  }

  /** All images' bytes back to back. */
  function Payload(images: seq<seq<Byte>>): (r: seq<Byte>)
    ensures |r| == TotalSize(images)
  {
    PayloadUpTo(images, |images|)
  }

  /** The header with `pad` zero bytes, the table with its sentinel, and the images. */
  function Layout(interval: int, images: seq<seq<Byte>>, pad: nat): (r: seq<Byte>)
    requires Encodable(interval, images)
    ensures |r| + Padding == FileSize(images) + pad
  {
    IndexFits(images);
    Header(|images|, 1000 * interval, pad) + Words(Index(images)) + Payload(images)
  }

  /** The file `generate_bif` writes for the sorted images. */
  function BifAsWritten(interval: int, images: seq<seq<Byte>>): (r: seq<Byte>)
    requires Encodable(interval, images)
    ensures |r| == FileSize(images) + 12
  {
    Layout(interval, images, AsWrittenPadding)
  }

  /** The file with a 64-byte header, whose offsets are where the images are. */
  function Bif(interval: int, images: seq<seq<Byte>>): (r: seq<Byte>)
    requires Encodable(interval, images)
    ensures |r| == FileSize(images)
  {
    Layout(interval, images, Padding)
  }

  // ---------------------------------------------------------------------------
  // Where each field sits.
  // ---------------------------------------------------------------------------

  lemma SliceMid(x: seq<Byte>, y: seq<Byte>, a: nat, c: nat)
    requires a <= c <= |y|
    ensures (x + y)[|x| + a..|x| + c] == y[a..c]
  {
    assert forall k | 0 <= k < c - a :: (x + y)[|x| + a..|x| + c][k] == y[a..c][k];
  }

  /** Among the first `i` images, image `k` sits between the sizes before it and the sizes up to it. */
  lemma {:induction false} PayloadAt(images: seq<seq<Byte>>, i: nat, k: nat)
    requires k < i <= |images|
    ensures SizeBefore(images, k + 1) <= SizeBefore(images, i)
    ensures PayloadUpTo(images, i)[SizeBefore(images, k)..SizeBefore(images, k + 1)] == images[k]
  {
    SizeMonotone(images, k + 1, i);
    if k < i - 1 {
      PayloadAt(images, i - 1, k);
      var lo, hi := SizeBefore(images, k), SizeBefore(images, k + 1);
      var front := PayloadUpTo(images, i - 1);
      assert forall m | 0 <= m < hi - lo :: (front + images[i - 1])[lo..hi][m] == front[lo..hi][m];
    }
  }


  /** The header's fields: the magic, version 0, the count, the interval and `pad` zero bytes. */
  lemma HeaderAt(count: nat, intervalMs: nat, pad: nat)
    requires FitsU32(count) && FitsU32(intervalMs)
    ensures Header(count, intervalMs, pad)[..8] == Magic
    ensures UnpackU32(Header(count, intervalMs, pad), 8) == Version
    ensures UnpackU32(Header(count, intervalMs, pad), 12) == count
    ensures UnpackU32(Header(count, intervalMs, pad), 16) == intervalMs
    ensures forall k | 20 <= k < 20 + pad :: Header(count, intervalMs, pad)[k] == 0
  {
    var m, v, c, d, z := Magic, PackU32(Version), PackU32(count), PackU32(intervalMs), Zeros(pad);
    assert |m| == 8;
    assert Header(count, intervalMs, pad) == m + v + c + d + z;
    UnpackFront(m + v + c + d, z, 8);
    UnpackFront(m + v + c, d, 8);
    UnpackFront(m + v, c, 8);
    UnpackBack(m, v, 0);
    UnpackFront(m + v + c + d, z, 12);
    UnpackFront(m + v + c, d, 12);
    UnpackBack(m + v, c, 0);
    UnpackFront(m + v + c + d, z, 16);
    UnpackBack(m + v + c, d, 0);
    assert forall k | 0 <= k < 8 :: (m + v + c + d + z)[k] == m[k];
  }

  /**
   * The file's header: the magic, version 0, the image count, the interval
   * in milliseconds, and then `pad` zero bytes.
   */
  lemma HeaderFields(interval: int, images: seq<seq<Byte>>, pad: nat)
    requires Encodable(interval, images)
    ensures FitsU32(|images|) && 20 + pad <= |Layout(interval, images, pad)|
    ensures Layout(interval, images, pad)[..8] == Magic
    ensures UnpackU32(Layout(interval, images, pad), 8) == Version
    ensures UnpackU32(Layout(interval, images, pad), 12) == |images|
    ensures UnpackU32(Layout(interval, images, pad), 16) == 1000 * interval
    ensures forall k | 20 <= k < 20 + pad :: Layout(interval, images, pad)[k] == 0
  {
    IndexFits(images);
    var h := Header(|images|, 1000 * interval, pad);
    var w := Words(Index(images));
    var p := Payload(images);
    assert Layout(interval, images, pad) == h + w + p;
    HeaderAt(|images|, 1000 * interval, pad);
    UnpackFront(h + w, p, 8);
    UnpackFront(h, w, 8);
    UnpackFront(h + w, p, 12);
    UnpackFront(h, w, 12);
    UnpackFront(h + w, p, 16);
    UnpackFront(h, w, 16);
    assert forall k | 0 <= k < 8 :: (h + w + p)[k] == h[k];
  }

  /**
   * Table entry `i < N`, just after the header, holds frame number `i` (not
   * seconds) and `Offset(i)`: 72 + 8N plus the sizes of the images before
   * `i`; the sentinel entry holds 0xFFFFFFFF and `FileSize`.
   */
  lemma TableFields(interval: int, images: seq<seq<Byte>>, pad: nat, i: nat)
    requires Encodable(interval, images) && i <= |images|
    ensures 20 + pad + 8 * i + 8 <= |Layout(interval, images, pad)|
    ensures UnpackU32(Layout(interval, images, pad), 20 + pad + 8 * i)
      == (if i < |images| then i else Sentinel)
    ensures UnpackU32(Layout(interval, images, pad), 20 + pad + 8 * i + 4) == Offset(images, i)
  {
    IndexFits(images);
    IndexAt(images, i);
    var h := Header(|images|, 1000 * interval, pad);
    WordIn(h, Index(images), Payload(images), 2 * i);
    WordIn(h, Index(images), Payload(images), 2 * i + 1);
  }

  /** Image `i` lies in `b` between the offsets of entries `i` and `i + 1`, each moved by `shift`. */
  predicate ImageAt(b: seq<Byte>, images: seq<seq<Byte>>, i: nat, shift: nat)
    requires i < |images|
  {
    Offset(images, i) <= Offset(images, i + 1) && shift + Offset(images, i + 1) <= |b|
    && b[shift + Offset(images, i)..shift + Offset(images, i + 1)] == images[i]
  }

  /** In the file with `pad` bytes of padding, image `i` is `pad - 44` bytes after its recorded offsets. */
  lemma ImageFields(interval: int, images: seq<seq<Byte>>, pad: nat, i: nat)
    requires Encodable(interval, images) && Padding <= pad && i < |images|
    ensures ImageAt(Layout(interval, images, pad), images, i, pad - Padding)
  {
    IndexFits(images);
    var hw := Header(|images|, 1000 * interval, pad) + Words(Index(images));
    assert Layout(interval, images, pad) == hw + Payload(images);
    assert |hw| == pad - Padding + FirstOffset(|images|);
    PayloadAt(images, |images|, i);
    SliceMid(hw, Payload(images), SizeBefore(images, i), SizeBefore(images, i + 1));
  }

  // ---------------------------------------------------------------------------
  // Reading a BIF back.
  // ---------------------------------------------------------------------------

  /** What a reader recovers: header fields, the table (sentinel offset included) and the images. */
  datatype BifIndex = BifIndex(
    version: nat,
    intervalMs: nat,
    frameNumbers: seq<nat>,
    offsets: seq<nat>,
    images: seq<seq<Byte>>)

  /** The frame number in table entry `i` of `b`. */
  function EntryNumber(b: seq<Byte>, i: nat): nat
    requires HeaderSize + 8 * i + 8 <= |b|
  {
    UnpackU32(b, HeaderSize + 8 * i)
  }

  /** The offset in table entry `i` of `b`. */
  function EntryOffset(b: seq<Byte>, i: nat): nat
    requires HeaderSize + 8 * i + 8 <= |b|
  {
    UnpackU32(b, HeaderSize + 8 * i + 4)
  }

  /** Entry `i` has an offset no larger than entry `i + 1`'s, which lies within `b`. */
  predicate EntryClimbs(b: seq<Byte>, i: nat)
    requires HeaderSize + 8 * i + 16 <= |b|
  {
    EntryOffset(b, i) <= EntryOffset(b, i + 1) <= |b|
  }

  /** Entries `0..k-1` climb. */
  predicate ClimbsBelow(b: seq<Byte>, k: nat) {
    forall i: nat | i < k :: HeaderSize + 8 * i + 16 <= |b| && EntryClimbs(b, i)
  }

  /** The frame numbers of the first `k` entries. */
  function Numbers(b: seq<Byte>, k: nat): (r: seq<nat>)
    requires HeaderSize + 8 * k <= |b|
    ensures |r| == k
  {
    if k == 0 then [] else Numbers(b, k - 1) + [EntryNumber(b, k - 1)]
  }

  /** The offsets of the first `k` entries. */
  function Offsets(b: seq<Byte>, k: nat): (r: seq<nat>)
    requires HeaderSize + 8 * k <= |b|
    ensures |r| == k
  {
    if k == 0 then [] else Offsets(b, k - 1) + [EntryOffset(b, k - 1)]
  }

  /** `b[lo..hi]`, or nothing when the bounds do not lie within `b` in order. */
  function Between(b: seq<Byte>, lo: nat, hi: nat): seq<Byte> {
    if lo <= hi <= |b| then b[lo..hi] else []
  }

  /** The bytes between consecutive offsets, for the first `k` entries. */
  function Frames(b: seq<Byte>, k: nat): (r: seq<seq<Byte>>)
    requires HeaderSize + 8 * k + 8 <= |b|
    ensures |r| == k
  {
    if k == 0 then [] else Frames(b, k - 1) + [Between(b, EntryOffset(b, k - 1), EntryOffset(b, k))]
  }

  lemma {:induction false} NumbersAt(b: seq<Byte>, k: nat, i: nat)
    requires HeaderSize + 8 * k <= |b| && i < k
    ensures Numbers(b, k)[i] == EntryNumber(b, i)
  {
    if i < k - 1 {
      NumbersAt(b, k - 1, i);
    }
  }

  lemma {:induction false} OffsetsAt(b: seq<Byte>, k: nat, i: nat)
    requires HeaderSize + 8 * k <= |b| && i < k
    ensures Offsets(b, k)[i] == EntryOffset(b, i)
  {
    if i < k - 1 {
      OffsetsAt(b, k - 1, i);
    }
  }

  lemma {:induction false} FramesAt(b: seq<Byte>, k: nat, i: nat)
    requires HeaderSize + 8 * k + 8 <= |b| && i < k
    ensures Frames(b, k)[i] == Between(b, EntryOffset(b, i), EntryOffset(b, i + 1))
  {
    if i < k - 1 {
      FramesAt(b, k - 1, i);
    }
  }

  /**
   * Reads a BIF: checks the magic, reads N, the N + 1 table entries, checks
   * the sentinel and that the offsets climb to the end of the file, and
   * slices out the images.
   */
  function DecodeBif(b: seq<Byte>): Option<BifIndex> {
    if |b| < HeaderSize || b[..8] != Magic then
      None
    else
      var n := UnpackU32(b, 12);
      if |b| < FirstOffset(n) then
        None
      else if EntryNumber(b, n) != Sentinel || EntryOffset(b, n) != |b| || !ClimbsBelow(b, n) then
        None
      else
        Some(BifIndex(UnpackU32(b, 8), UnpackU32(b, 16), Numbers(b, n), Offsets(b, n + 1), Frames(b, n)))
  }

  /** In the file with a 64-byte header, the entries are where the reader looks. */
  lemma EntriesOfBif(interval: int, images: seq<seq<Byte>>, i: nat)
    requires Encodable(interval, images) && i <= |images|
    ensures HeaderSize + 8 * i + 8 <= |Bif(interval, images)|
    ensures EntryNumber(Bif(interval, images), i) == (if i < |images| then i else Sentinel)
    ensures EntryOffset(Bif(interval, images), i) == Offset(images, i)
  {
    TableFields(interval, images, Padding, i);
  }

  /** In the file with a 64-byte header, each image lies between its entry's offset and the next. */
  lemma ClimbsOfBif(interval: int, images: seq<seq<Byte>>)
    requires Encodable(interval, images)
    ensures ClimbsBelow(Bif(interval, images), |images|)
    ensures forall i | 0 <= i < |images| :: ImageAt(Bif(interval, images), images, i, 0)
  {
    var b := Bif(interval, images);
    forall i: nat | i < |images|
      ensures HeaderSize + 8 * i + 16 <= |b| && EntryClimbs(b, i)
      ensures ImageAt(b, images, i, 0)
    {
      EntriesOfBif(interval, images, i);
      EntriesOfBif(interval, images, i + 1);
      ImageFields(interval, images, Padding, i);
    }
  }

  /**
   * Decoding the file with the 64-byte header gives back version 0, the
   * interval in milliseconds, frame numbers 0..N-1, the offsets of the
   * layout, and exactly the input images in order.
   */
  lemma DecodeEncode(interval: int, images: seq<seq<Byte>>)
    requires Encodable(interval, images)
    ensures DecodeBif(Bif(interval, images)).Some?
    ensures var d := DecodeBif(Bif(interval, images)).value;
      && d.version == Version
      && d.intervalMs == 1000 * interval
      && |d.frameNumbers| == |images|
      && (forall i | 0 <= i < |images| :: d.frameNumbers[i] == i)
      && |d.offsets| == |images| + 1
      && (forall i | 0 <= i <= |images| :: d.offsets[i] == Offset(images, i))
      && d.images == images
  {
    var n := |images|;
    var b := Bif(interval, images);
    HeaderFields(interval, images, Padding);
    EntriesOfBif(interval, images, n);
    ClimbsOfBif(interval, images);
    NumbersOfBif(interval, images);
    OffsetsOfBif(interval, images);
    FramesOfBif(interval, images);
  }

  lemma NumbersOfBif(interval: int, images: seq<seq<Byte>>)
    requires Encodable(interval, images)
    ensures HeaderSize + 8 * |images| <= |Bif(interval, images)|
    ensures forall i | 0 <= i < |images| :: Numbers(Bif(interval, images), |images|)[i] == i
  {
    var n := |images|;
    var b := Bif(interval, images);
    EntriesOfBif(interval, images, n);
    forall i | 0 <= i < n ensures Numbers(b, n)[i] == i {
      NumbersAt(b, n, i);
      EntriesOfBif(interval, images, i);
    }
  }

  lemma OffsetsOfBif(interval: int, images: seq<seq<Byte>>)
    requires Encodable(interval, images)
    ensures HeaderSize + 8 * (|images| + 1) <= |Bif(interval, images)|
    ensures forall i | 0 <= i <= |images| :: Offsets(Bif(interval, images), |images| + 1)[i] == Offset(images, i)
  {
    var n := |images|;
    var b := Bif(interval, images);
    EntriesOfBif(interval, images, n);
    forall i | 0 <= i <= n ensures Offsets(b, n + 1)[i] == Offset(images, i) {
      OffsetsAt(b, n + 1, i);
      EntriesOfBif(interval, images, i);
    }
  }

  lemma FramesOfBif(interval: int, images: seq<seq<Byte>>)
    requires Encodable(interval, images)
    ensures HeaderSize + 8 * |images| + 8 <= |Bif(interval, images)|
    ensures Frames(Bif(interval, images), |images|) == images
  {
    OffsetsHoldInBif(interval, images);
    ClimbsOfBif(interval, images);
    FramesFrom(Bif(interval, images), images);
  }

  /** Every entry of `b` holds the offset the layout gives image `i`. */
  predicate OffsetsHold(b: seq<Byte>, images: seq<seq<Byte>>) {
    HeaderSize + 8 * |images| + 8 <= |b|
    && forall i | 0 <= i <= |images| :: EntryOffset(b, i) == Offset(images, i)
  }

  lemma OffsetsHoldInBif(interval: int, images: seq<seq<Byte>>)
    requires Encodable(interval, images)
    ensures OffsetsHold(Bif(interval, images), images)
  {
    EntriesOfBif(interval, images, |images|);
    forall i | 0 <= i <= |images| ensures EntryOffset(Bif(interval, images), i) == Offset(images, i) {
      EntriesOfBif(interval, images, i);
    }
  }

  /** Where the entries hold the layout's offsets and the images lie between them, the reader's frames are the images. */
  lemma FramesFrom(b: seq<Byte>, images: seq<seq<Byte>>)
    requires OffsetsHold(b, images)
    requires forall i | 0 <= i < |images| :: ImageAt(b, images, i, 0)
    ensures Frames(b, |images|) == images
  {
    forall i | 0 <= i < |images| ensures Frames(b, |images|)[i] == images[i] {
      FramesAt(b, |images|, i);
      assert ImageAt(b, images, i, 0);
    }
  }

  /**
   * The file the source writes has a 76-byte header: it is 12 bytes longer
   * than the end offset its sentinel records, and each image starts 12 bytes
   * after the offset its entry records.
   */
  lemma AsWrittenMisplaced(interval: int, images: seq<seq<Byte>>)
    requires Encodable(interval, images)
    ensures |BifAsWritten(interval, images)| == FileSize(images) + 12
    ensures forall k | 20 <= k < 76 :: BifAsWritten(interval, images)[k] == 0
    ensures UnpackU32(BifAsWritten(interval, images), 76 + 8 * |images| + 4) == FileSize(images)
    ensures forall i | 0 <= i < |images| :: ImageAt(BifAsWritten(interval, images), images, i, 12)
  {
    HeaderFields(interval, images, AsWrittenPadding);
    TableFields(interval, images, AsWrittenPadding, |images|);
    assert images[..|images|] == images;
    forall i | 0 <= i < |images| ensures ImageAt(BifAsWritten(interval, images), images, i, 12) {
      ImageFields(interval, images, AsWrittenPadding, i);
    }
  }

  /** A reader that trusts the 64-byte header finds no sentinel in the file written for no images. */
  lemma AsWrittenUnreadable()
    ensures Encodable(5, [])
    ensures DecodeBif(BifAsWritten(5, [])).None?
  {
    HeaderFields(5, [], AsWrittenPadding);
    var b := BifAsWritten(5, []);
    assert b[64] == 0 && b[65] == 0 && b[66] == 0 && b[67] == 0;
    assert EntryNumber(b, 0) == 0;
  }

  // ---------------------------------------------------------------------------
  // The writer.
  // ---------------------------------------------------------------------------

  /**
   * The first loop of `generate_bif` and the sentinel after it: the entries,
   * accumulating the frame number and the running offset from `first`. A
   * `struct.pack` of an offset that does not fit raises, giving `None`.
   */
  method WriteTable(images: seq<seq<Byte>>, first: nat) returns (r: Option<seq<Byte>>)
    requires FitsU32(|images|)
    ensures r.Some? <==> FitsU32(first + TotalSize(images))
    ensures r.Some? ==> (AllFit(TableUpTo(images, first, |images|) + [Sentinel, first + TotalSize(images)])
      && r.value == Words(TableUpTo(images, first, |images|) + [Sentinel, first + TotalSize(images)]))
  {
    var n := |images|;
    var table: seq<Byte> := [];
    ghost var fields: seq<int> := [];
    var imageIndex := first;
    var timestamp := 0;
    var i := 0;
    while i < n
      invariant 0 <= i <= n && timestamp == i
      invariant imageIndex == first + SizeBefore(images, i)
      invariant fields == TableUpTo(images, first, i)
      invariant AllFit(fields) && table == Words(fields)
    {
      if !FitsU32(imageIndex) {
        SizeMonotone(images, i, n);
        return None;
      }
      WordsSnoc2(fields, timestamp, imageIndex);
      table := table + PackU32(timestamp) + PackU32(imageIndex);
      fields := fields + [timestamp, imageIndex];
      timestamp := timestamp + 1;
      imageIndex := imageIndex + |images[i]|;
      i := i + 1;
    }
    if !FitsU32(imageIndex) {
      return None;
    }
    WordsSnoc2(fields, Sentinel, imageIndex);
    assert first + TotalSize(images) == imageIndex;
    return Some(table + PackU32(Sentinel) + PackU32(imageIndex));
  }

  /** The second loop of `generate_bif`: each image's bytes in turn. */
  method WritePayload(images: seq<seq<Byte>>) returns (payload: seq<Byte>)
    ensures payload == Payload(images)
  {
    payload := [];
    var i := 0;
    while i < |images|
      invariant 0 <= i <= |images|
      invariant payload == PayloadUpTo(images, i)
    {
      payload := payload + images[i];
      i := i + 1;
    }
  }

  /**
   * `generate_bif` with `pad` bytes of header padding: the header fields,
   * the table and the images. A `struct.pack` that would raise ends the
   * writing with `None`.
   */
  method WriteBif(interval: int, images: seq<seq<Byte>>, pad: nat) returns (r: Option<seq<Byte>>)
    ensures r.Some? <==> Encodable(interval, images)
    ensures r.Some? ==> r.value == Layout(interval, images, pad)
  {
    var n := |images|;
    if !FitsU32(n) {
      return None;
    }
    if !FitsU32(1000 * interval) {
      return None;
    }
    var header := Magic + PackU32(Version) + PackU32(n) + PackU32(1000 * interval) + Zeros(pad);
    var table := WriteTable(images, HeaderSize + TableSize(n));
    if table.None? {
      return None;
    }
    var payload := WritePayload(images);
    return Some(header + table.value + payload);
  }
}
