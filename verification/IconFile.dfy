/**
  The icon encoder of build.rs: a BMP image stored bottom-up in BGRA order, and an
  ICO file whose directory points at the images packed behind it.
 */
module IconFile {
  import opened Prelude

  type Byte = n: nat | n < 256

  type Bytes = seq<Byte>

  const I32_MAX: nat := 0x7FFF_FFFF
  const U32_MAX: nat := 0xFFFF_FFFF

  datatype Error = WidthTooBig | HeightTooBig | HeaderTooBig | ImageTooBig | OffsetTooBig

  function U16(n: nat): (r: Bytes)
    ensures |r| == 2
  {
    [n % 256, n / 256 % 256]
  }

  function U32(n: nat): (r: Bytes)
    ensures |r| == 4
  {
    [n % 256, n / 256 % 256, n / 65536 % 256, n / 16777216 % 256]
  }

  // ----- One image -----

  function MaskSize(size: nat): nat {
    (size + 31) / 32 * 4 * size
  }

  function BitmapHeader(size: nat): (r: Bytes)
    ensures |r| == 40
  {
    U32(40) + U32(size) + U32(2 * size) + U16(1) + U16(32) + U32(0) + U32(0) + U32(0) + U32(0) + U32(0) + U32(0)
  }

  /** The four bytes of a pixel, blue first. */
  function Bgra(rgba: Bytes, p: nat): (r: Bytes)
    requires p + 4 <= |rgba|
    ensures |r| == 4
  {
    [rgba[p + 2], rgba[p + 1], rgba[p], rgba[p + 3]]
  }

  /** `row * size * 4`, by adding up rows. */
  function RowStart(size: nat, row: nat): nat {
    if row == 0 then 0 else RowStart(size, row - 1) + 4 * size
  }

  lemma {:induction false} RowStartIsProduct(size: nat, row: nat)
    ensures RowStart(size, row) == row * size * 4
  {
    if row > 0 {
      RowStartIsProduct(size, row - 1);
      assert row * size == (row - 1) * size + size;
    }
  }

  lemma {:induction false} RowStartMonotone(size: nat, a: nat, b: nat)
    requires a <= b
    ensures RowStart(size, a) <= RowStart(size, b)
    decreases b
  {
    if a < b {
      RowStartMonotone(size, a, b - 1);
    }
  }

  /** The first `n` pixels of the row that starts at byte `start`. */
  function RowPixels(rgba: Bytes, start: nat, n: nat): (r: Bytes)
    requires start + 4 * n <= |rgba|
    ensures |r| == 4 * n
  {
    if n == 0 then [] else RowPixels(rgba, start, n - 1) + Bgra(rgba, start + 4 * (n - 1))
  }

  lemma {:induction false} RowFits(size: nat, row: nat)
    requires row < size
    ensures RowStart(size, row) + 4 * size <= RowStart(size, size)
  {
    RowStartMonotone(size, row + 1, size);
  }

  /** The lowest `k` rows, lowest first. */
  function BottomRows(rgba: Bytes, size: nat, k: nat): (r: Bytes)
    requires |rgba| >= RowStart(size, size) && k <= size
    ensures |r| == RowStart(size, k)
  {
    if k == 0 then []
    else
      RowFits(size, size - k);
      BottomRows(rgba, size, k - 1) + RowPixels(rgba, RowStart(size, size - k), size)
  }

  function Zeros(n: nat): (r: Bytes)
    ensures |r| == n
  {
    seq(n, _ => 0)
  }

  /** The inner loop: one row, left to right. */
  method EncodeRow(rgba: Bytes, start: nat, size: nat, before: Bytes) returns (out: Bytes)
    requires start + 4 * size <= |rgba|
    ensures out == before + RowPixels(rgba, start, size)
  {
    out := before;
    for col := 0 to size
      invariant out == before + RowPixels(rgba, start, col)
    {
      var p := start + 4 * col;
      Regroup(before, RowPixels(rgba, start, col), Bgra(rgba, p));
      out := out + [rgba[p + 2], rgba[p + 1], rgba[p], rgba[p + 3]];
    }
  }

  /** The buffer must hold the pixels if it is read at all; bytes behind them are ignored. */
  method EncodeBmpDib(rgba: Bytes, size: nat) returns (r: Result<Bytes, Error>)
    requires 2 * size <= I32_MAX ==> |rgba| >= RowStart(size, size)
    ensures r == if size > I32_MAX then Err(WidthTooBig) else if 2 * size > I32_MAX then Err(HeightTooBig)
                 else Ok(Dib(rgba, size))
  {
    if size > I32_MAX {
      return Err(WidthTooBig);
    }
    if 2 * size > I32_MAX {
      return Err(HeightTooBig);
    }
    var header := BitmapHeader(size);
    var out: Bytes := header;
    var row: nat := size;
    while row > 0
      invariant row <= size
      invariant out == header + BottomRows(rgba, size, size - row)
    {
      row := row - 1;
      RowFits(size, row);
      out := EncodeRow(rgba, RowStart(size, row), size, out);
      Regroup(header, BottomRows(rgba, size, size - row - 1), RowPixels(rgba, RowStart(size, row), size));
    }
    r := Ok(out + Zeros(MaskSize(size)));
  }

  // ----- Reading an image back -----

  /** Blue and red are exchanged, green and alpha stay. */
  function ChannelAt(channel: nat): nat
    requires channel < 4
  {
    if channel == 3 then 3 else 2 - channel
  }

  /** Where byte `channel` of the pixel at `row`, `col` of the RGBA image is kept among the bottom-up rows. */
  function StoredAt(size: nat, row: nat, col: nat, channel: nat): nat
    requires row < size && channel < 4
  {
    RowStart(size, size - 1 - row) + 4 * col + ChannelAt(channel)
  }

  lemma {:induction false} PixelOfRow(rgba: Bytes, start: nat, n: nat, col: nat)
    requires start + 4 * n <= |rgba| && col < n
    ensures RowPixels(rgba, start, n)[4 * col..4 * col + 4] == Bgra(rgba, start + 4 * col)
  {
    if col < n - 1 {
      PixelOfRow(rgba, start, n - 1, col);
      assert RowPixels(rgba, start, n)[4 * col..4 * col + 4] == RowPixels(rgba, start, n - 1)[4 * col..4 * col + 4];
    }
  }

  /** Kept at byte `a` of `rows` is the row of the image that starts at byte `start`. */
  ghost predicate RowKept(rgba: Bytes, size: nat, rows: Bytes, a: nat, start: nat) {
    a + 4 * size <= |rows| && start + 4 * size <= |rgba| && rows[a..a + 4 * size] == RowPixels(rgba, start, size)
  }

  lemma {:induction false} RowStaysKept(rgba: Bytes, size: nat, rows: Bytes, a: nat, start: nat, more: Bytes)
    requires RowKept(rgba, size, rows, a, start)
    ensures RowKept(rgba, size, rows + more, a, start)
  {
    assert (rows + more)[a..a + 4 * size] == rows[a..a + 4 * size];
  }

  lemma {:induction false} NewRowIsKept(rgba: Bytes, size: nat, rows: Bytes, start: nat)
    requires start + 4 * size <= |rgba|
    ensures RowKept(rgba, size, rows + RowPixels(rgba, start, size), |rows|, start)
  {
  }

  lemma {:induction false} RowOfImage(rgba: Bytes, size: nat, k: nat, j: nat)
    requires |rgba| >= RowStart(size, size) && j < k <= size
    ensures RowKept(rgba, size, BottomRows(rgba, size, k), RowStart(size, j), RowStart(size, size - 1 - j))
  {
    RowFits(size, size - k);
    var before, start := BottomRows(rgba, size, k - 1), RowStart(size, size - k);
    if j + 1 < k {
      RowOfImage(rgba, size, k - 1, j);
      RowStaysKept(rgba, size, before, RowStart(size, j), RowStart(size, size - 1 - j), RowPixels(rgba, start, size));
    } else {
      NewRowIsKept(rgba, size, before, start);
    }
  }

  lemma {:induction false} RowsHoldImage(rgba: Bytes, size: nat, row: nat, col: nat, channel: nat)
    requires |rgba| >= RowStart(size, size) && row < size && col < size && channel < 4
    ensures RowStart(size, row) + 4 * col + channel < |rgba|
    ensures StoredAt(size, row, col, channel) < |BottomRows(rgba, size, size)|
    ensures BottomRows(rgba, size, size)[StoredAt(size, row, col, channel)] == rgba[RowStart(size, row) + 4 * col + channel]
  {
    RowFits(size, row);
    RowOfImage(rgba, size, size, size - 1 - row);
    ReadPixel(BottomRows(rgba, size, size), RowStart(size, size - 1 - row), rgba, RowStart(size, row), size, col, channel);
  }

  /** A row of pixels stored at `a` gives back the bytes it was made from. */
  lemma {:induction false} ReadPixel(rows: Bytes, a: nat, rgba: Bytes, start: nat, n: nat, col: nat, channel: nat)
    requires a + 4 * n <= |rows| && start + 4 * n <= |rgba| && col < n && channel < 4
    requires rows[a..a + 4 * n] == RowPixels(rgba, start, n)
    ensures rows[a + 4 * col + ChannelAt(channel)] == rgba[start + 4 * col + channel]
  {
    PixelOfRow(rgba, start, n, col);
    SameByte(rows, a, 4 * n, 4 * col, ChannelAt(channel), Bgra(rgba, start + 4 * col));
  }

  /** The whole image file of one size. */
  function Dib(rgba: Bytes, size: nat): (r: Bytes)
    requires |rgba| >= RowStart(size, size)
    ensures |r| == 40 + RowStart(size, size) + MaskSize(size)
  {
    BitmapHeader(size) + BottomRows(rgba, size, size) + Zeros(MaskSize(size))
  }

  lemma {:induction false} Middle(header: Bytes, rows: Bytes, mask: Bytes, at: nat)
    requires at < |rows|
    ensures (header + rows + mask)[|header| + at] == rows[at]
  {
  }

  lemma {:induction false} DibLength(rgba: Bytes, size: nat)
    requires |rgba| >= RowStart(size, size)
    ensures |Dib(rgba, size)| == 40 + size * size * 4 + MaskSize(size)
  {
    RowStartIsProduct(size, size);
  }

  /** Every RGBA byte can be read back: bottom-up rows, blue and red exchanged. */
  lemma {:induction false} DibHoldsImage(rgba: Bytes, size: nat, row: nat, col: nat, channel: nat)
    requires |rgba| >= RowStart(size, size) && row < size && col < size && channel < 4
    ensures |Dib(rgba, size)| == 40 + size * size * 4 + MaskSize(size)
    ensures RowStart(size, row) + 4 * col + channel < |rgba|
    ensures 40 + StoredAt(size, row, col, channel) < |Dib(rgba, size)|
    ensures Dib(rgba, size)[40 + StoredAt(size, row, col, channel)] == rgba[RowStart(size, row) + 4 * col + channel]
  {
    DibLength(rgba, size);
    RowsHoldImage(rgba, size, row, col, channel);
    Middle(BitmapHeader(size), BottomRows(rgba, size, size), Zeros(MaskSize(size)), StoredAt(size, row, col, channel));
  }

  lemma {:induction false} SameByte(rows: Bytes, a: nat, width: nat, p: nat, offset: nat, pixel: Bytes)
    requires a + width <= |rows| && p + 4 <= width && offset < 4 && rows[a..a + width][p..p + 4] == pixel
    ensures |pixel| == 4 && rows[a + p + offset] == pixel[offset]
  {
    assert rows[a..a + width][p..p + 4][offset] == rows[a + p + offset];
  }

  // ----- The file -----

  function Total(images: seq<Bytes>): nat {
    if images == [] then 0 else Total(images[..|images| - 1]) + |images[|images| - 1]|
  }

  function Packed(images: seq<Bytes>): (r: Bytes)
    ensures |r| == Total(images)
  {
    if images == [] then [] else Packed(images[..|images| - 1]) + images[|images| - 1]
  }

  /** The offsets of images packed from `header` on. */
  predicate Tiles(header: nat, images: seq<Bytes>, offsets: seq<nat>) {
    && |offsets| == |images|
    && forall i :: 0 <= i < |images| ==> offsets[i] == header + Total(images[..i])
  }

  method ImageOffsets(headerSize: nat, images: seq<Bytes>) returns (r: Result<seq<nat>, Error>)
    ensures r.Ok? <==> headerSize + Total(images) <= U32_MAX
    ensures r.Ok? ==> Tiles(headerSize, images, r.value)
  {
    if headerSize > U32_MAX {
      return Err(HeaderTooBig);
    }
    var offset: nat, offsets: seq<nat> := headerSize, [];
    for i := 0 to |images|
      invariant offset == headerSize + Total(images[..i]) <= U32_MAX
      invariant Tiles(headerSize, images[..i], offsets)
    {
      assert images[..i + 1][..i] == images[..i];
      TotalGrows(images, i + 1);
      forall k | 0 <= k <= i
        ensures images[..i + 1][..k] == images[..k]
      {
      }
      forall k | 0 <= k < i
        ensures images[..i][..k] == images[..k]
      {
      }
      offsets := offsets + [offset];
      if |images[i]| > U32_MAX {
        return Err(ImageTooBig);
      }
      if offset + |images[i]| > U32_MAX {
        return Err(OffsetTooBig);
      }
      offset := offset + |images[i]|;
    }
    assert images[..|images|] == images;
    r := Ok(offsets);
  }

  lemma {:induction false} TotalGrows(images: seq<Bytes>, n: nat)
    requires n <= |images|
    ensures Total(images[..n]) <= Total(images)
    decreases |images|
  {
    if n < |images| {
      assert images[..|images| - 1][..n] == images[..n];
      TotalGrows(images[..|images| - 1], n);
    } else {
      assert images[..n] == images;
    }
  }

  function DirectoryEntry(size: nat, length: nat, offset: nat): (r: Bytes)
    requires size <= 256
    ensures |r| == 16
  {
    var dimension: Byte := if size == 256 then 0 else size;
    [dimension, dimension, 0, 0] + U16(1) + U16(32) + U32(length) + U32(offset)
  }

  function Entries(sizes: seq<nat>, images: seq<Bytes>, offsets: seq<nat>): (r: seq<Bytes>)
    requires |sizes| == |images| == |offsets| && forall i :: 0 <= i < |sizes| ==> sizes[i] <= 256
    ensures |r| == |sizes| && forall i :: 0 <= i < |r| ==> |r[i]| == 16
  {
    seq(|sizes|, (i: nat) requires i < |sizes| => DirectoryEntry(sizes[i], |images[i]|, offsets[i]))
  }

  function Directory(sizes: seq<nat>, images: seq<Bytes>, offsets: seq<nat>): (r: Bytes)
    requires |sizes| == |images| == |offsets| && forall i :: 0 <= i < |sizes| ==> sizes[i] <= 256
    ensures |r| == 16 * |sizes|
  {
    SixteenEach(Entries(sizes, images, offsets));
    Packed(Entries(sizes, images, offsets))
  }

  lemma {:induction false} SixteenEach(entries: seq<Bytes>)
    requires forall i :: 0 <= i < |entries| ==> |entries[i]| == 16
    ensures Total(entries) == 16 * |entries|
  {
    if entries != [] {
      SixteenEach(entries[..|entries| - 1]);
    }
  }

  function IcoFile(sizes: seq<nat>, images: seq<Bytes>, offsets: seq<nat>): (r: Bytes)
    requires |sizes| == |images| == |offsets| && forall i :: 0 <= i < |sizes| ==> sizes[i] <= 256
    ensures |r| == 6 + 16 * |sizes| + Total(images)
  {
    U16(0) + U16(1) + U16(|sizes|) + Directory(sizes, images, offsets) + Packed(images)
  }

  lemma {:induction false} PackedConcat(a: seq<Bytes>, b: seq<Bytes>)
    ensures Packed(a + b) == Packed(a) + Packed(b)
    decreases |b|
  {
    if b == [] {
      assert a + b == a;
    } else {
      var init, last := b[..|b| - 1], b[|b| - 1];
      assert (a + b)[..|a + b| - 1] == a + init;
      PackedConcat(a, init);
      Regroup(Packed(a), Packed(init), last);
    }
  }

  lemma {:induction false} PackedImage(images: seq<Bytes>, i: nat)
    requires i < |images|
    ensures Total(images[..i]) + |images[i]| == Total(images[..i + 1]) <= Total(images)
    ensures Packed(images)[Total(images[..i])..Total(images[..i + 1])] == images[i]
  {
    var before, rest := images[..i], images[i + 1..];
    assert images[..i + 1] == before + [images[i]] && images == images[..i + 1] + rest;
    assert (before + [images[i]])[..i] == before;
    PackedConcat(images[..i + 1], rest);
    SliceInside(Packed(before), images[i], Packed(rest), 0, |images[i]|);
  }

  /**
    The images tile the file: the first starts right behind the directory, each one starts
    where the one before ends, the last ends with the file, and each offset holds its image.
   */
  lemma {:induction false} OffsetsTileTheFile(sizes: seq<nat>, images: seq<Bytes>, offsets: seq<nat>, i: nat)
    requires |sizes| == |images| == |offsets| && forall k :: 0 <= k < |sizes| ==> sizes[k] <= 256
    requires Tiles(6 + 16 * |sizes|, images, offsets) && i < |images|
    ensures var file := IcoFile(sizes, images, offsets);
      && offsets[0] == 6 + 16 * |sizes|
      && offsets[i] + |images[i]| == (if i + 1 < |images| then offsets[i + 1] else |file|)
      && offsets[i] + |images[i]| <= |file|
      && file[offsets[i]..offsets[i] + |images[i]|] == images[i]
  {
    TilesMeet(6 + 16 * |sizes|, images, offsets, i);
    PackedImage(images, i);
    ImageInFile(sizes, images, offsets, Total(images[..i]), Total(images[..i + 1]));
  }

  lemma {:induction false} TilesMeet(header: nat, images: seq<Bytes>, offsets: seq<nat>, i: nat)
    requires Tiles(header, images, offsets) && i < |images|
    ensures offsets[0] == header && offsets[i] == header + Total(images[..i])
    ensures header + Total(images[..i + 1]) == if i + 1 < |images| then offsets[i + 1] else header + Total(images)
  {
    assert images[..0] == [];
    assert images[..|images|] == images;
  }

  lemma {:induction false} ImageInFile(sizes: seq<nat>, images: seq<Bytes>, offsets: seq<nat>, p: nat, q: nat)
    requires |sizes| == |images| == |offsets| && forall k :: 0 <= k < |sizes| ==> sizes[k] <= 256
    requires p <= q <= Total(images)
    ensures var front := 6 + 16 * |sizes|; IcoFile(sizes, images, offsets)[front + p..front + q] == Packed(images)[p..q]
  {
    SliceBehind(U16(0) + U16(1) + U16(|sizes|) + Directory(sizes, images, offsets), Packed(images), p, q);
  }

  lemma {:induction false} SliceBehind(a: Bytes, b: Bytes, p: nat, q: nat)
    requires p <= q <= |b|
    ensures (a + b)[|a| + p..|a| + q] == b[p..q]
  {
  }

  // ----- Finding an image through the directory -----

  function ReadU32(b: Bytes, p: nat): nat
    requires p + 4 <= |b|
  {
    var b0: nat, b1: nat, b2: nat, b3: nat := b[p], b[p + 1], b[p + 2], b[p + 3];
    b0 + 256 * b1 + 65536 * b2 + 16777216 * b3
  }

  lemma {:induction false} U32RoundTrips(n: nat)
    requires n <= U32_MAX
    ensures ReadU32(U32(n), 0) == n
  {
    var a, b, c := n / 256, n / 65536, n / 16777216;
    assert b == a / 256 && c == b / 256 && c < 256;
  }

  lemma {:induction false} ReadSlice(b: Bytes, at: nat, part: Bytes, p: nat)
    requires at + |part| <= |b| && b[at..at + |part|] == part && p + 4 <= |part|
    ensures ReadU32(b, at + p) == ReadU32(part, p)
  {
    assert forall k :: 0 <= k < |part| ==> part[k] == b[at + k];
    assert part[p] == b[at + p] && part[p + 1] == b[at + (p + 1)];
    assert part[p + 2] == b[at + (p + 2)] && part[p + 3] == b[at + (p + 3)];
  }

  lemma {:induction false} EntryFields(size: nat, length: nat, offset: nat)
    requires size <= 256 && length <= U32_MAX && offset <= U32_MAX
    ensures ReadU32(DirectoryEntry(size, length, offset), 8) == length
    ensures ReadU32(DirectoryEntry(size, length, offset), 12) == offset
  {
    U32RoundTrips(length);
    U32RoundTrips(offset);
    var dimension: Byte := if size == 256 then 0 else size;
    FieldSlices([dimension, dimension, 0, 0] + U16(1) + U16(32), U32(length), U32(offset));
    var e := DirectoryEntry(size, length, offset);
    ReadSlice(e, 8, U32(length), 0);
    ReadSlice(e, 12, U32(offset), 0);
  }

  /** What the directory entry at `at` leads to, by its offset and length. */
  function ImageAt(file: Bytes, at: nat): Option<Bytes>
    requires at + 16 <= |file|
  {
    var offset, length := ReadU32(file, at + 12), ReadU32(file, at + 8);
    if offset + length <= |file| then Some(file[offset..offset + length]) else None
  }

  lemma {:induction false} EntryPointsTo(file: Bytes, at: nat, size: nat, image: Bytes, offset: nat)
    requires size <= 256 && offset + |image| <= |file| <= U32_MAX && file[offset..offset + |image|] == image
    requires at + 16 <= |file| && file[at..at + 16] == DirectoryEntry(size, |image|, offset)
    ensures ImageAt(file, at) == Some(image)
  {
    EntryFields(size, |image|, offset);
    var entry := DirectoryEntry(size, |image|, offset);
    ReadSlice(file, at, entry, 8);
    ReadSlice(file, at, entry, 12);
  }

  lemma {:induction false} FieldSlices(a: Bytes, b: Bytes, c: Bytes)
    requires |a| == 8 && |b| == 4 && |c| == 4
    ensures (a + b + c)[8..12] == b && (a + b + c)[12..16] == c
  {
  }

  lemma {:induction false} SliceInside(a: Bytes, b: Bytes, c: Bytes, p: nat, q: nat)
    requires p <= q <= |b|
    ensures (a + b + c)[|a| + p..|a| + q] == b[p..q]
  {
  }

  lemma {:induction false} EntryInFile(sizes: seq<nat>, images: seq<Bytes>, offsets: seq<nat>, i: nat)
    requires |sizes| == |images| == |offsets| && i < |sizes| && forall k :: 0 <= k < |sizes| ==> sizes[k] <= 256
    ensures IcoFile(sizes, images, offsets)[6 + 16 * i..6 + 16 * i + 16] == DirectoryEntry(sizes[i], |images[i]|, offsets[i])
  {
    PackedEntry(Entries(sizes, images, offsets), i);
    var front, directory := U16(0) + U16(1) + U16(|sizes|), Directory(sizes, images, offsets);
    SliceInside(front, directory, Packed(images), 16 * i, 16 * i + 16);
  }

  lemma {:induction false} PackedEntry(entries: seq<Bytes>, i: nat)
    requires i < |entries| && forall k :: 0 <= k < |entries| ==> |entries[k]| == 16
    ensures 16 * i + 16 <= |Packed(entries)| && Packed(entries)[16 * i..16 * i + 16] == entries[i]
  {
    SixteenEach(entries[..i]);
    SixteenEach(entries[..i + 1]);
    PackedImage(entries, i);
  }

  /** Following entry `i` of the directory in the file, by its stored offset and length, yields image `i`. */
  lemma {:induction false} DirectoryFindsImages(sizes: seq<nat>, images: seq<Bytes>, offsets: seq<nat>, i: nat)
    requires |sizes| == |images| == |offsets| && i < |sizes| && forall k :: 0 <= k < |sizes| ==> sizes[k] <= 256
    requires Tiles(6 + 16 * |sizes|, images, offsets) && 6 + 16 * |sizes| + Total(images) <= U32_MAX
    ensures ImageAt(IcoFile(sizes, images, offsets), 6 + 16 * i) == Some(images[i])
  {
    OffsetsTileTheFile(sizes, images, offsets, i);
    EntryInFile(sizes, images, offsets, i);
    EntryPointsTo(IcoFile(sizes, images, offsets), 6 + 16 * i, sizes[i], images[i], offsets[i]);
  }

  // ----- What an image says about itself -----

  lemma {:induction false} FirstThreeFields(a: Bytes, b: Bytes, c: Bytes, rest: Bytes)
    requires |a| == 4 && |b| == 4 && |c| == 4
    ensures var all := a + b + c + rest; all[0..4] == a && all[4..8] == b && all[8..12] == c
  {
  }

  lemma {:induction false} HeaderGivesSizes(size: nat)
    requires 2 * size <= I32_MAX
    ensures var header := BitmapHeader(size); ReadU32(header, 0) == 40 && ReadU32(header, 4) == size && ReadU32(header, 8) == 2 * size
  {
    HeaderFields(BitmapHeader(size), size, U16(1) + U16(32) + U32(0) + U32(0) + U32(0) + U32(0) + U32(0) + U32(0));
  }

  /** The image's header gives its own length, the width and twice the height, and everything behind the pixels is zero. */
  lemma {:induction false} HeaderDescribesImage(rgba: Bytes, size: nat)
    requires |rgba| >= RowStart(size, size) && 2 * size <= I32_MAX
    ensures var dib := Dib(rgba, size);
      && ReadU32(dib, 0) == 40 && ReadU32(dib, 4) == size && ReadU32(dib, 8) == 2 * size
      && forall p :: 40 + RowStart(size, size) <= p < |dib| ==> dib[p] == 0
  {
    HeaderGivesSizes(size);
    HeaderInFront(BitmapHeader(size), BottomRows(rgba, size, size), Zeros(MaskSize(size)));
  }

  lemma {:induction false} HeaderInFront(header: Bytes, rows: Bytes, mask: Bytes)
    requires |header| == 40
    ensures forall p :: 0 <= p <= 36 ==> ReadU32(header + rows + mask, p) == ReadU32(header, p)
    ensures forall p :: 40 + |rows| <= p < 40 + |rows| + |mask| ==> (header + rows + mask)[p] == mask[p - 40 - |rows|]
  {
    var dib := header + rows + mask;
    forall p | 0 <= p <= 36
      ensures ReadU32(dib, p) == ReadU32(header, p)
    {
      assert dib[p] == header[p] && dib[p + 1] == header[p + 1] && dib[p + 2] == header[p + 2] && dib[p + 3] == header[p + 3];
    }
  }

  lemma {:induction false} HeaderFields(dib: Bytes, size: nat, rest: Bytes)
    requires dib == U32(40) + U32(size) + U32(2 * size) + rest && 2 * size <= I32_MAX
    ensures ReadU32(dib, 0) == 40 && ReadU32(dib, 4) == size && ReadU32(dib, 8) == 2 * size
  {
    FirstThreeFields(U32(40), U32(size), U32(2 * size), rest);
    U32RoundTrips(40);
    U32RoundTrips(size);
    U32RoundTrips(2 * size);
    ReadSlice(dib, 0, U32(40), 0);
    ReadSlice(dib, 4, U32(size), 0);
    ReadSlice(dib, 8, U32(2 * size), 0);
  }
}
