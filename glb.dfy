/** The binary side of the export: little-endian 32-bit fields, 4-byte alignment,
    the placement of image bytes in the binary buffer, and the GLB container of
    the Khronos glTF 2.0 specification (the 12-byte header of section 4.4, the
    JSON and BIN chunks of section 4.5). */
module Glb {
  import opened Gltf

  type byte = x: int | 0 <= x < 256

  const Two32: int := 0x1_0000_0000

  const MagicGlTF: int := 0x46546C67   // "glTF"
  const Version: int := 2
  const MagicJson: int := 0x4E4F534A   // "JSON"
  const MagicBin: int := 0x004E4942    // "BIN\0"
  const HeaderSize: int := 12
  const SectionHeaderSize: int := 8

  /** The low 32 bits of an integer: what an unchecked `(int)` or `(uint)` cast
      keeps, read as unsigned. */
  function U32(x: int): (r: int)
    ensures 0 <= r < Two32
    ensures 0 <= x < Two32 ==> r == x
  {
    x % Two32
  }

  /** The low `n` bytes of `x`, least significant first. */
  function LittleEndian(x: nat, n: nat): (b: seq<byte>)
    ensures |b| == n
    decreases n
  {
    if n == 0 then [] else [x % 256] + LittleEndian(x / 256, n - 1)
  }

  /** `BinaryWriter.Write` of a 32-bit value: four bytes, least significant first. */
  function LE32(x: int): (b: seq<byte>)
    requires 0 <= x < Two32
    ensures |b| == 4
  {
    LittleEndian(x, 4)
  }

  /** Reading a little-endian 32-bit field. */
  function ReadLE32(b: seq<byte>): (x: int)
    requires |b| == 4
    ensures 0 <= x < Two32
  {
    var b0: int, b1: int, b2: int, b3: int := b[0], b[1], b[2], b[3];
    b0 + 256 * b1 + 0x1_0000 * b2 + 0x100_0000 * b3
  }

  lemma ReadWriteLE32(x: int)
    requires 0 <= x < Two32
    ensures ReadLE32(LE32(x)) == x
  {
    var x1, x2, x3 := x / 256, x / 256 / 256, x / 256 / 256 / 256;
    assert LittleEndian(x3, 1) == [x3 % 256] + LittleEndian(x3 / 256, 0);
    assert LittleEndian(x2, 2) == [x2 % 256] + LittleEndian(x3, 1);
    assert LittleEndian(x1, 3) == [x1 % 256] + LittleEndian(x2, 2);
    assert LE32(x) == [x % 256, x1 % 256, x2 % 256, x3 % 256];
    assert x3 < 256;
    assert x == x % 256 + 256 * x1;
    assert x1 == x1 % 256 + 256 * x2;
    assert x2 == x2 % 256 + 256 * x3;
  }

  /** n rounded up to a multiple of 4, one step at a time. */
  function RoundUp4(n: nat): (r: nat)
    ensures r % 4 == 0 && n <= r < n + 4
    decreases (4 - n % 4) % 4
  {
    if n % 4 == 0 then n else RoundUp4(n + 1)
  }

  /** `GLTFSceneExporter.CalculateAlignment(n, 4)`, computed as (n + 3) / 4 * 4,
      is the same rounding. */
  lemma CalculateAlignmentIsRoundUp4(n: nat)
    ensures (n + 3) / 4 * 4 == RoundUp4(n)
  {
    var r := RoundUp4(n);
    var q := r / 4;
    assert r == q * 4;
    assert q * 4 <= n + 3 < q * 4 + 4;
  }

  /** `GLTFSceneExporter.AlignToBoundary(stream, pad)`: `pad` appended until the
      length is a multiple of 4. */
  function Pad(s: seq<byte>, pad: byte): (r: seq<byte>)
    ensures |r| == RoundUp4(|s|) && r[..|s|] == s
    ensures forall i :: |s| <= i < |r| ==> r[i] == pad
  {
    s + seq(RoundUp4(|s|) - |s|, _ => pad)
  }

  const Space: byte := 0x20

  /** One character through `Encoding.ASCII`: its code below 128, otherwise '?'. */
  function AsciiByte(c: char): (b: byte)
    ensures (c as int < 128) == (b == c as int)
  {
    if c as int < 128 then c as int else 63
  }

  /** The bytes a `StreamWriter` with `Encoding.ASCII` writes for a text. */
  function AsciiBytes(s: string): (b: seq<byte>)
    ensures |b| == |s|
    decreases |s|
  {
    if |s| == 0 then [] else [AsciiByte(s[0])] + AsciiBytes(s[1..])
  }

  lemma {:induction false} AsciiBytesAt(s: string, i: nat)
    requires i < |s|
    ensures AsciiBytes(s)[i] == AsciiByte(s[i])
    decreases i
  {
    if i > 0 {
      AsciiBytesAt(s[1..], i - 1);
    }
  }

  lemma SliceOfAppend<T>(a: seq<T>, b: seq<T>, i: nat, j: nat)
    requires i <= j <= |b|
    ensures (a + b)[|a| + i..|a| + j] == b[i..j]
  {
  }

  lemma SliceOfPrefix<T>(s: seq<T>, p: seq<T>, i: nat, j: nat)
    requires |p| <= |s| && s[..|p|] == p && i <= j <= |p|
    ensures s[i..j] == p[i..j]
  {
    assert forall k :: i <= k < j ==> s[k] == s[..|p|][k];
  }

  // ---------------------------------------------------------------------------
  // The image region of the binary buffer.
  // ---------------------------------------------------------------------------

  /** The images' bytes copied back to back. */
  function Concat(raws: seq<seq<byte>>): (r: seq<byte>)
    decreases |raws|
  {
    if |raws| == 0 then [] else Concat(raws[..|raws| - 1]) + raws[|raws| - 1]
  }

  lemma {:induction false} ConcatPrefix(raws: seq<seq<byte>>, k: nat)
    requires k < |raws|
    ensures Concat(raws[..k + 1]) == Concat(raws[..k]) + raws[k]
    ensures |Concat(raws[..k + 1])| <= |Concat(raws)|
    ensures Concat(raws)[..|Concat(raws[..k + 1])|] == Concat(raws[..k + 1])
    decreases |raws|
  {
    assert raws[..k + 1][..k] == raws[..k];
    if k + 1 < |raws| {
      var front := raws[..|raws| - 1];
      assert front[..k + 1] == raws[..k + 1] && front[..k] == raws[..k];
      ConcatPrefix(front, k);
      assert Concat(raws) == Concat(front) + raws[|raws| - 1];
    } else {
      assert raws[..k + 1] == raws;
    }
  }

  /** Image k's bytes lie in the concatenation at the combined length of the
      images before it. */
  lemma ConcatSlice(raws: seq<seq<byte>>, k: nat)
    requires k < |raws|
    ensures var at := |Concat(raws[..k])|;
            at + |raws[k]| <= |Concat(raws)| && Concat(raws)[at..at + |raws[k]|] == raws[k]
  {
    ConcatPrefix(raws, k);
    var at := |Concat(raws[..k])|;
    var whole := Concat(raws);
    var upto := Concat(raws[..k + 1]);
    assert whole[at..at + |raws[k]|] == upto[at..at + |raws[k]|];
  }

  /** The buffer views that AddImage creates for images with the given raw bytes,
      after a .bin of `pre` bytes, one image at a time. */
  function ImageViews(buffer: BufferId, pre: nat, raws: seq<seq<byte>>): (views: seq<BufferView>)
    ensures |views| == |raws|
    decreases |raws|
  {
    if |raws| == 0 then []
    else
      var front := raws[..|raws| - 1];
      ImageViews(buffer, pre, front) + [BufferView(buffer, pre + |Concat(front)|, RoundUp4(|raws[|raws| - 1]|))]
  }

  /** View k starts `pre` plus the raw (unpadded) lengths of the images before it,
      and its declared length is image k's length rounded up to a multiple of 4. */
  lemma {:induction false} ImageViewsAt(buffer: BufferId, pre: nat, raws: seq<seq<byte>>, k: nat)
    requires k < |raws|
    ensures ImageViews(buffer, pre, raws)[k] == BufferView(buffer, pre + |Concat(raws[..k])|, RoundUp4(|raws[k]|))
    decreases |raws|
  {
    var front := raws[..|raws| - 1];
    if k < |front| {
      ImageViewsAt(buffer, pre, front, k);
      assert front[..k] == raws[..k];
    }
  }

  /** One more image adds one view, at the end of the bytes before it. */
  lemma ImageViewsSnoc(buffer: BufferId, pre: nat, raws: seq<seq<byte>>, raw: seq<byte>)
    ensures ImageViews(buffer, pre, raws + [raw])
            == ImageViews(buffer, pre, raws) + [BufferView(buffer, pre + |Concat(raws)|, RoundUp4(|raw|))]
  {
    var r := raws + [raw];
    assert r[..|r| - 1] == raws;
  }

  /** A view addresses an image in the BIN chunk's payload when the image's bytes
      start at the view's offset. */
  predicate Addresses(payload: seq<byte>, view: BufferView, raw: seq<byte>)
  {
    view.byteOffset + |raw| <= |payload| && payload[view.byteOffset..view.byteOffset + |raw|] == raw
  }

  /** The BIN chunk's payload: the zero-padded .bin, then the zero-padded images. */
  function BinPayload(bin: seq<byte>, raws: seq<seq<byte>>): seq<byte>
  {
    Pad(bin, 0) + Pad(Concat(raws), 0)
  }

  /** When the .bin length is already a multiple of 4, the views as created address
      their images. */
  lemma ImageViewsAddressWhenAligned(buffer: BufferId, bin: seq<byte>, raws: seq<seq<byte>>, k: nat)
    requires |bin| % 4 == 0 && k < |raws|
    ensures Addresses(BinPayload(bin, raws), ImageViews(buffer, |bin|, raws)[k], raws[k])
  {
    ConcatSlice(raws, k);
    ImageViewsAt(buffer, |bin|, raws, k);
    var whole := Concat(raws);
    PadAligned(bin, 0);
    SliceInPayload(bin, Pad(whole, 0), whole, |Concat(raws[..k])|, |raws[k]|);
  }

  lemma PadAligned(s: seq<byte>, pad: byte)
    requires |s| % 4 == 0
    ensures Pad(s, pad) == s
  {
  }

  /** A slice of the images' bytes, found again after the .bin and under the padding. */
  lemma SliceInPayload(bin: seq<byte>, padded: seq<byte>, whole: seq<byte>, at: nat, len: nat)
    requires |whole| <= |padded| && padded[..|whole|] == whole && at + len <= |whole|
    ensures |bin| + at + len <= |bin + padded|
    ensures (bin + padded)[|bin| + at..|bin| + at + len] == whole[at..at + len]
  {
    SliceOfAppend(bin, padded, at, at + len);
    SliceOfPrefix(padded, whole, at, at + len);
  }

  /** A one-byte .bin and a one-byte image: the view says offset 1, but the
      padding of the .bin puts the image at offset 4. */
  lemma ImageViewsMisaddressUnalignedBin()
    ensures ImageViews(BufferId(0, null), 1, [[1]])[0].byteOffset == 1
    ensures BinPayload([0], [[1]]) == [0, 0, 0, 0, 1, 0, 0, 0]
    ensures !Addresses(BinPayload([0], [[1]]), ImageViews(BufferId(0, null), 1, [[1]])[0], [1])
  {
    var raws: seq<seq<byte>> := [[1]];
    ImageViewsAt(BufferId(0, null), 1, raws, 0);
    assert raws[..0] == [];
    assert Concat(raws) == [1] by { assert raws[..0] == []; }
    assert Pad([0], 0) == [0, 0, 0, 0];
    assert Pad([1], 0) == [1, 0, 0, 0];
    var payload: seq<byte> := [0, 0, 0, 0, 1, 0, 0, 0];
    assert payload[1..2] == [0];
  }

  /** Two images of one and two bytes after an empty .bin: the second view claims
      bytes 1 to 5 of a buffer declared 4 bytes long, overlapping the first. */
  lemma ImageViewsOverrunBuffer()
    ensures var views := ImageViews(BufferId(0, null), 0, [[1], [2, 2]]);
            && views[1].byteOffset + views[1].byteLength == 5
            && 0 + |Pad(Concat([[1], [2, 2]]), 0)| == 4
            && views[0].byteOffset + views[0].byteLength > views[1].byteOffset
  {
    var raws: seq<seq<byte>> := [[1], [2, 2]];
    ImageViewsAt(BufferId(0, null), 0, raws, 0);
    ImageViewsAt(BufferId(0, null), 0, raws, 1);
    assert raws[..0] == [] && raws[..1] == [[1]];
    assert Concat(raws[..1]) == [1] by { assert raws[..1][..0] == []; }
    assert Concat(raws) == [1, 2, 2] by { assert raws[..1] == [[1]]; }
  }

  /** The placement the padding of both streams calls for: the images start
      after the padded .bin, each image padded to a multiple of 4. */
  function AlignedImages(raws: seq<seq<byte>>): (r: seq<byte>)
    ensures |r| % 4 == 0
    decreases |raws|
  {
    if |raws| == 0 then [] else AlignedImages(raws[..|raws| - 1]) + Pad(raws[|raws| - 1], 0)
  }

  function AlignedImageViews(buffer: BufferId, bin: seq<byte>, raws: seq<seq<byte>>): (views: seq<BufferView>)
    ensures |views| == |raws|
    ensures forall k :: 0 <= k < |raws| ==>
              views[k] == BufferView(buffer, AlignedOffset(bin, raws, k), RoundUp4(|raws[k]|))
  {
    seq(|raws|, k requires 0 <= k < |raws| => BufferView(buffer, AlignedOffset(bin, raws, k), RoundUp4(|raws[k]|)))
  }

  function AlignedBinPayload(bin: seq<byte>, raws: seq<seq<byte>>): seq<byte>
  {
    Pad(bin, 0) + AlignedImages(raws)
  }

  lemma {:induction false} AlignedImagesPrefix(raws: seq<seq<byte>>, k: nat)
    requires k < |raws|
    ensures AlignedImages(raws[..k + 1]) == AlignedImages(raws[..k]) + Pad(raws[k], 0)
    ensures |AlignedImages(raws[..k + 1])| <= |AlignedImages(raws)|
    ensures AlignedImages(raws)[..|AlignedImages(raws[..k + 1])|] == AlignedImages(raws[..k + 1])
    decreases |raws|
  {
    assert raws[..k + 1][..k] == raws[..k];
    if k + 1 < |raws| {
      var front := raws[..|raws| - 1];
      assert front[..k + 1] == raws[..k + 1] && front[..k] == raws[..k];
      AlignedImagesPrefix(front, k);
    } else {
      assert raws[..k + 1] == raws;
    }
  }

  /** Image k's bytes lie in the aligned image region at the combined padded
      length of the images before it. */
  lemma AlignedImagesSlice(raws: seq<seq<byte>>, k: nat)
    requires k < |raws|
    ensures var at := |AlignedImages(raws[..k])|;
            at + RoundUp4(|raws[k]|) <= |AlignedImages(raws)|
            && AlignedImages(raws)[at..at + |raws[k]|] == raws[k]
  {
    AlignedImagesPrefix(raws, k);
    var raw := raws[k];
    var before := AlignedImages(raws[..k]);
    var upto := AlignedImages(raws[..k + 1]);
    SliceOfAppend(before, Pad(raw, 0), 0, |raw|);
    SliceOfPrefix(AlignedImages(raws), upto, |before|, |before| + |raw|);
  }

  /** With the aligned placement every view addresses its image, every view is
      aligned to 4 bytes, and every view ends inside the buffer. */
  lemma AlignedImageViewsAddress(buffer: BufferId, bin: seq<byte>, raws: seq<seq<byte>>, k: nat)
    requires k < |raws|
    ensures var view := AlignedImageViews(buffer, bin, raws)[k];
            && Addresses(AlignedBinPayload(bin, raws), view, raws[k])
            && view.byteOffset % 4 == 0
            && view.byteOffset + view.byteLength <= |AlignedBinPayload(bin, raws)|
  {
    var view := AlignedImageViews(buffer, bin, raws)[k];
    AlignedOffsetFacts(bin, raws, k);
    assert view.byteOffset == AlignedOffset(bin, raws, k);
  }

  function AlignedOffset(bin: seq<byte>, raws: seq<seq<byte>>, k: nat): nat
    requires k <= |raws|
  {
    RoundUp4(|bin|) + |AlignedImages(raws[..k])|
  }

  lemma AlignedOffsetFacts(bin: seq<byte>, raws: seq<seq<byte>>, k: nat)
    requires k < |raws|
    ensures var at := AlignedOffset(bin, raws, k);
            && at % 4 == 0
            && at + RoundUp4(|raws[k]|) <= |AlignedBinPayload(bin, raws)|
            && AlignedBinPayload(bin, raws)[at..at + |raws[k]|] == raws[k]
  {
    AlignedImagesSlice(raws, k);
    var at := |AlignedImages(raws[..k])|;
    AlignedSum(RoundUp4(|bin|), at);
    SliceOfAppend(Pad(bin, 0), AlignedImages(raws), at, at + |raws[k]|);
  }

  /** With the aligned placement consecutive views do not overlap. */
  lemma AlignedImageViewsDisjoint(buffer: BufferId, bin: seq<byte>, raws: seq<seq<byte>>, k: nat)
    requires k + 1 < |raws|
    ensures var views := AlignedImageViews(buffer, bin, raws);
            views[k].byteOffset + views[k].byteLength == views[k + 1].byteOffset
  {
    AlignedImagesPrefix(raws, k);
  }

  // ---------------------------------------------------------------------------
  // The container.
  // ---------------------------------------------------------------------------

  /** The 12-byte header: magic, version, total length. */
  function Header(total: int): (h: seq<byte>)
    ensures |h| == HeaderSize
  {
    LE32(MagicGlTF) + LE32(Version) + LE32(U32(total))
  }

  /** A chunk: its length field, its type field, then its data. */
  function Chunk(length: int, chunkType: int, data: seq<byte>): (c: seq<byte>)
    requires 0 <= length < Two32 && 0 <= chunkType < Two32
    ensures |c| == SectionHeaderSize + |data|
  {
    LE32(length) + LE32(chunkType) + data
  }

  lemma HeaderFields(total: int)
    ensures var h := Header(total);
            ReadLE32(h[0..4]) == MagicGlTF && ReadLE32(h[4..8]) == Version && ReadLE32(h[8..12]) == U32(total)
  {
    var h := Header(total);
    assert h[0..4] == LE32(MagicGlTF) && h[4..8] == LE32(Version) && h[8..12] == LE32(U32(total));
    ReadWriteLE32(MagicGlTF);
    ReadWriteLE32(Version);
    ReadWriteLE32(U32(total));
  }

  lemma ChunkFields(length: int, chunkType: int, data: seq<byte>)
    requires 0 <= length < Two32 && 0 <= chunkType < Two32
    ensures var c := Chunk(length, chunkType, data);
            ReadLE32(c[0..4]) == length && ReadLE32(c[4..8]) == chunkType && c[8..] == data
  {
    var c := Chunk(length, chunkType, data);
    assert c[0..4] == LE32(length) && c[4..8] == LE32(chunkType) && c[8..] == data;
    ReadWriteLE32(length);
    ReadWriteLE32(chunkType);
  }

  /** The bytes written to the .glb file for an already padded JSON chunk and BIN
      chunk parts: the header, the JSON chunk, then the BIN chunk holding the .bin
      followed by the images.  The integer casts and the integer sum of the two
      BIN lengths keep 32 bits. */
  function Container(json: seq<byte>, bin: seq<byte>, img: seq<byte>): (g: seq<byte>)
    ensures |g| == HeaderSize + SectionHeaderSize + |json| + SectionHeaderSize + |bin| + |img|
  {
    var total := HeaderSize + SectionHeaderSize + |json| + SectionHeaderSize + |bin| + |img|;
    Header(total) + Chunk(U32(|json|), MagicJson, json) + Chunk(U32(|bin| + |img|), MagicBin, bin + img)
  }

  /** The container splits into its header, its JSON chunk and its BIN chunk. */
  lemma ContainerParts(json: seq<byte>, bin: seq<byte>, img: seq<byte>)
    ensures var g := Container(json, bin, img);
            var j := HeaderSize + SectionHeaderSize + |json|;
            && g[..HeaderSize] == Header(|g|)
            && g[HeaderSize..j] == Chunk(U32(|json|), MagicJson, json)
            && g[j..] == Chunk(U32(|bin| + |img|), MagicBin, bin + img)
  {
    var g := Container(json, bin, img);
    var h := Header(|g|);
    var c0 := Chunk(U32(|json|), MagicJson, json);
    var c1 := Chunk(U32(|bin| + |img|), MagicBin, bin + img);
    assert g == (h + c0) + c1;
    assert (h + c0)[HeaderSize..] == c0;
  }

  lemma ContainerHeader(json: seq<byte>, bin: seq<byte>, img: seq<byte>)
    ensures var g := Container(json, bin, img);
            ReadLE32(g[0..4]) == MagicGlTF && ReadLE32(g[4..8]) == Version && ReadLE32(g[8..12]) == U32(|g|)
  {
    var g := Container(json, bin, img);
    ContainerParts(json, bin, img);
    var h := Header(|g|);
    HeaderFields(|g|);
    SliceOfPrefix(g, h, 0, 4);
    SliceOfPrefix(g, h, 4, 8);
    SliceOfPrefix(g, h, 8, 12);
  }

  lemma ContainerJsonChunk(json: seq<byte>, bin: seq<byte>, img: seq<byte>)
    ensures var g := Container(json, bin, img);
            var j := HeaderSize + SectionHeaderSize;
            ReadLE32(g[12..16]) == U32(|json|) && ReadLE32(g[16..20]) == MagicJson && g[j..j + |json|] == json
  {
    var g := Container(json, bin, img);
    var j := HeaderSize + SectionHeaderSize;
    ContainerParts(json, bin, img);
    ChunkFields(U32(|json|), MagicJson, json);
    var c0 := g[HeaderSize..j + |json|];
    assert g[12..16] == c0[0..4] && g[16..20] == c0[4..8] && g[j..j + |json|] == c0[8..];
  }

  lemma ContainerBinChunk(json: seq<byte>, bin: seq<byte>, img: seq<byte>)
    ensures var g := Container(json, bin, img);
            var j := HeaderSize + SectionHeaderSize + |json|;
            var b := j + SectionHeaderSize;
            && ReadLE32(g[j..j + 4]) == U32(|bin| + |img|) && ReadLE32(g[j + 4..b]) == MagicBin
            && g[b..b + |bin|] == bin && g[b + |bin|..] == img
  {
    var g := Container(json, bin, img);
    var j := HeaderSize + SectionHeaderSize + |json|;
    var b := j + SectionHeaderSize;
    ContainerParts(json, bin, img);
    ChunkFields(U32(|bin| + |img|), MagicBin, bin + img);
    var c1 := g[j..];
    assert g[j..j + 4] == c1[0..4] && g[j + 4..b] == c1[4..8];
    assert g[b..] == c1[8..] == bin + img;
    assert g[b..b + |bin|] == (bin + img)[..|bin|];
    assert g[b + |bin|..] == (bin + img)[|bin|..];
  }

  /** The header and chunk fields of the container, read back: the declared total
      length is the file's length (modulo 2^32), the JSON chunk's length is the
      JSON length, the BIN chunk's length covers the .bin and the images, and the
      payloads come in the order JSON, .bin, images. */
  lemma ContainerLayout(json: seq<byte>, bin: seq<byte>, img: seq<byte>)
    ensures var g := Container(json, bin, img);
            var j := HeaderSize + SectionHeaderSize;
            var b := j + |json| + SectionHeaderSize;
            && ReadLE32(g[0..4]) == MagicGlTF
            && ReadLE32(g[4..8]) == Version
            && ReadLE32(g[8..12]) == U32(|g|)
            && ReadLE32(g[12..16]) == U32(|json|)
            && ReadLE32(g[16..20]) == MagicJson
            && g[j..j + |json|] == json
            && ReadLE32(g[j + |json|..j + |json| + 4]) == U32(|bin| + |img|)
            && ReadLE32(g[j + |json| + 4..b]) == MagicBin
            && g[b..b + |bin|] == bin
            && g[b + |bin|..] == img
  {
    ContainerHeader(json, bin, img);
    ContainerJsonChunk(json, bin, img);
    ContainerBinChunk(json, bin, img);
  }

  /** With padded parts the file's length is a multiple of 4. */
  lemma ContainerAligned(json: seq<byte>, bin: seq<byte>, img: seq<byte>)
    requires |json| % 4 == 0 && |bin| % 4 == 0 && |img| % 4 == 0
    ensures |Container(json, bin, img)| % 4 == 0
  {
    var n := |Container(json, bin, img)|;
    assert n == 28 + (|json| + (|bin| + |img|));
    AlignedSum(|bin|, |img|);
    AlignedSum(|json|, |bin| + |img|);
    AlignedSum(28, |json| + (|bin| + |img|));
  }

  lemma AlignedSum(a: int, b: int)
    requires a % 4 == 0 && b % 4 == 0
    ensures (a + b) % 4 == 0
  {
  }
}
