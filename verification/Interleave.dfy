/** Interleaving the component planes of a decoded image into packed bytes: the
    pixel loop of the Grok shim and the row loops of the other two. */
module Interleave {
  import opened Options
  import opened Powers
  import opened OutputLength

  // ----- what a packed image is -----

  /** The bytes of one pixel: `channels` samples. */
  type Pixel = seq<nat>

  /** A pixel for every column of every row. */
  type Picture = seq<seq<Pixel>>

  predicate IsPicture(p: Picture, width: nat, height: nat, channels: nat) {
    |p| == height && forall row :: 0 <= row < height ==> IsRow(p[row], width, channels)
  }

  predicate IsRow(pixels: seq<Pixel>, width: nat, channels: nat) {
    |pixels| == width && forall col :: 0 <= col < width ==> |pixels[col]| == channels
  }

  function Flatten<T>(s: seq<seq<T>>): seq<T> {
    if s == [] then [] else Flatten(s[..|s| - 1]) + s[|s| - 1]
  }

  /** Row by row, pixel by pixel, sample by sample. */
  function Packed(p: Picture): seq<nat> {
    if p == [] then [] else Packed(p[..|p| - 1]) + Flatten(p[|p| - 1])
  }

  lemma {:induction false} FlattenLength<T>(s: seq<seq<T>>, n: nat)
    requires forall i :: 0 <= i < |s| ==> |s[i]| == n
    ensures |Flatten(s)| == |s| * n
  {
    if s != [] {
      FlattenLength(s[..|s| - 1], n);
      NextProduct(|s| - 1, n);
    }
  }

  lemma NextProduct(a: nat, n: nat)
    ensures (a + 1) * n == a * n + n
  {
  }

  lemma PackedLength(p: Picture, width: nat, channels: nat)
    requires IsPicture(p, width, |p|, channels)
    ensures |Packed(p)| == |p| * (width * channels)
    ensures forall row :: 0 <= row < |p| ==> |Flatten(p[row])| == width * channels
  {
    hide Packed, Flatten;
    forall row | 0 <= row < |p| ensures |Flatten(p[row])| == width * channels {
      FlattenLength(p[row], channels);
    }
    RowsAddUp(p, width * channels);
  }

  lemma {:induction false} RowsAddUp(p: Picture, n: nat)
    requires forall row :: 0 <= row < |p| ==> |Flatten(p[row])| == n
    ensures |Packed(p)| == |p| * n
  {
    hide Flatten;
    if p == [] {
      assert |p| * n == 0;
    } else {
      RowsAddUp(p[..|p| - 1], n);
      NextProduct(|p| - 1, n);
    }
  }

  lemma {:induction false} FlattenAt<T>(s: seq<seq<T>>, n: nat, i: nat, j: nat)
    requires i < |s| && j < n && forall k :: 0 <= k < |s| ==> |s[k]| == n
    ensures i * n + j < |s| * n == |Flatten(s)|
    ensures Flatten(s)[i * n + j] == s[i][j]
    decreases |s|
  {
    FlattenLength(s, n);
    FlattenLength(s[..|s| - 1], n);
    NextProduct(i, n);
    Ordered(i + 1, |s|, n);
    if i < |s| - 1 {
      FlattenAt(s[..|s| - 1], n, i, j);
      Ordered(i + 1, |s| - 1, n);
    }
  }

  lemma {:induction false} RowAt(p: Picture, width: nat, channels: nat, row: nat, j: nat)
    requires IsPicture(p, width, |p|, channels) && row < |p| && j < width * channels
    ensures row * (width * channels) + j < |Packed(p)| && j < |Flatten(p[row])|
    ensures Packed(p)[row * (width * channels) + j] == Flatten(p[row])[j]
    decreases |p|
  {
    hide Flatten;
    var n := width * channels;
    PackedLength(p, width, channels);
    PackedLength(p[..|p| - 1], width, channels);
    NextProduct(row, n);
    Ordered(row + 1, |p|, n);
    if row < |p| - 1 {
      RowAt(p[..|p| - 1], width, channels, row, j);
    }
  }

  /** Every sample lies at its own index `(row * width + col) * channels + c`. */
  lemma PackedAt(p: Picture, width: nat, channels: nat, row: nat, col: nat, c: nat)
    requires IsPicture(p, width, |p|, channels) && row < |p| && col < width && c < channels
    ensures var at := (row * width + col) * channels + c;
      at < |Packed(p)| && Packed(p)[at] == p[row][col][c]
  {
    SplitIndex(row, width, col, channels, c);
    FlattenAt(p[row], channels, col, c);
    RowAt(p, width, channels, row, col * channels + c);
  }

  lemma SplitIndex(row: nat, width: nat, col: nat, channels: nat, c: nat)
    ensures (row * width + col) * channels + c == row * (width * channels) + (col * channels + c)
  {
  }

  // ----- every index belongs to one sample -----

  /** Each index of the bytes is that of some sample, */
  lemma IndexOfSome(i: nat, width: nat, height: nat, channels: nat) returns (row: nat, col: nat, c: nat)
    requires i < (height * width) * channels
    ensures row < height && col < width && c < channels && i == (row * width + col) * channels + c
  {
    var pixel;
    pixel, c := Splits(i, height * width, channels);
    row, col := Splits(pixel, height, width);
  }

  /** and of no other. */
  lemma IndexOfOne(width: nat, channels: nat, row: nat, col: nat, c: nat, row': nat, col': nat, c': nat)
    requires col < width && col' < width && c < channels && c' < channels
    requires (row * width + col) * channels + c == (row' * width + col') * channels + c'
    ensures row == row' && col == col' && c == c'
  {
    DivMul(row * width + col, channels, c);
    DivMul(row' * width + col', channels, c');
    DivMul(row, width, col);
    DivMul(row', width, col');
  }

  lemma Splits(i: nat, count: nat, size: nat) returns (q: nat, r: nat)
    requires i < count * size
    ensures q < count && r < size && i == q * size + r
  {
    assert count * 0 == 0;
    q, r := Quotient(i, size), i % size;
    if q >= count {
      Ordered(count, q, size);
    }
  }

  // ----- the Grok shim: planes and a pixel loop -----

  datatype DataType = Int8 | Int16 | Int32 | OtherType

  /** A component plane; `data` may be missing. */
  datatype Component = Component(w: nat, h: nat, stride: nat, data: Option<seq<int>>, dataType: DataType)

  function Clamp(v: int): nat {
    if v < 0 then 0 else if v > 255 then 255 else v
  }

  /** Clamping gives the byte that is nearest. */
  lemma ClampIsNearest(v: int, byte: nat)
    requires byte <= 255
    ensures Clamp(v) <= 255
    ensures var far, near := byte - v, Clamp(v) - v; (if near < 0 then -near else near) <= if far < 0 then -far else far
  {
  }

  /** The index of a sample in its plane, with every step checked. */
  function ComponentIndex(c: Component, row: nat, col: nat, sizeMax: nat): Option<nat> {
    if c.data == None || c.w == 0 || c.h == 0 || c.stride == 0 then None
    else if row >= c.h || col >= c.w || c.stride < c.w then None
    else
      match MulByDivision(row, c.stride, sizeMax)
      case None => None
      case Some(offset) => if offset > sizeMax then None else CheckedAdd(offset, col, sizeMax)
  }

  /** There is an index exactly for the pixels of a plane with data and a wide
      enough stride, as far as it fits the word. */
  lemma ComponentIndexExactly(c: Component, row: nat, col: nat, sizeMax: nat)
    ensures ComponentIndex(c, row, col, sizeMax) ==
      if c.data.Some? && row < c.h && col < c.w <= c.stride && row * c.stride + col <= sizeMax
      then Some(row * c.stride + col) else None
  {
    DivisionGuards(row, c.stride, sizeMax);
  }

  /** The plane holds `stride * height` samples. */
  predicate Holds(c: Component) {
    c.data.Some? ==> |c.data.value| >= c.stride * c.h
  }

  function ComponentSample(c: Component, index: nat): Option<nat>
    requires c.data.Some? && index < |c.data.value|
  {
    if c.dataType == OtherType then None else Some(Clamp(c.data.value[index]))
  }

  /** The check of the last pixel implies the check of every pixel, and each
      index is inside the plane. */
  lemma LastIndexImpliesAll(c: Component, height: nat, width: nat, row: nat, col: nat, sizeMax: nat)
    requires row < height && col < width && Holds(c)
    requires ComponentIndex(c, height - 1, width - 1, sizeMax).Some?
    ensures ComponentIndex(c, row, col, sizeMax) == Some(row * c.stride + col)
    ensures c.data.Some? && row * c.stride + col < |c.data.value|
  {
    DivisionGuards(row, c.stride, sizeMax);
    DivisionGuards(height - 1, c.stride, sizeMax);
    Ordered(row, height - 1, c.stride);
    NextProduct(row, c.stride);
    Ordered(row + 1, c.h, c.stride);
    Commutes(c.h, c.stride);
  }

  predicate ComponentCountOk(count: nat, channels: nat) {
    count != 0 && (channels == 1 || (channels == 3 && (count == 1 || count >= 3)))
  }

  /** Which plane feeds channel `k`. */
  function PlaneOf(count: nat, k: nat): nat {
    if count == 1 then 0 else k
  }

  /** The planes that are read have a known sample type. */
  predicate Readable(comps: seq<Component>, channels: nat)
    requires ComponentCountOk(|comps|, channels)
  {
    forall k :: 0 <= k < channels ==> comps[PlaneOf(|comps|, k)].dataType != OtherType
  }

  predicate LastIndexOk(comps: seq<Component>, width: nat, height: nat, channels: nat, sizeMax: nat)
    requires ComponentCountOk(|comps|, channels) && width > 0 && height > 0
  {
    forall k :: 0 <= k < channels ==> ComponentIndex(comps[PlaneOf(|comps|, k)], height - 1, width - 1, sizeMax).Some?
  }

  function SampleAt(c: Component, row: nat, col: nat): nat
    requires c.data.Some? && row * c.stride + col < |c.data.value|
  {
    Clamp(c.data.value[row * c.stride + col])
  }

  predicate InPlane(c: Component, row: nat, col: nat) {
    c.data.Some? && row * c.stride + col < |c.data.value|
  }

  /** `pixel` holds `channels` samples, a single plane being replicated. */
  ghost predicate PixelOf(comps: seq<Component>, channels: nat, row: nat, col: nat, pixel: Pixel)
    requires ComponentCountOk(|comps|, channels)
  {
    |pixel| == channels && forall k :: 0 <= k < channels ==>
      var c := comps[PlaneOf(|comps|, k)]; InPlane(c, row, col) && pixel[k] == SampleAt(c, row, col)
  }

  ghost predicate RowOf(comps: seq<Component>, channels: nat, row: nat, pixels: seq<Pixel>)
    requires ComponentCountOk(|comps|, channels)
  {
    forall col :: 0 <= col < |pixels| ==> PixelOf(comps, channels, row, col, pixels[col])
  }

  ghost predicate PictureOf(comps: seq<Component>, channels: nat, width: nat, p: Picture)
    requires ComponentCountOk(|comps|, channels)
  {
    forall row :: 0 <= row < |p| ==> |p[row]| == width && RowOf(comps, channels, row, p[row])
  }

  /** One sample, if its index checks out and its type is known. */
  method ReadSample(c: Component, row: nat, col: nat, sizeMax: nat) returns (r: Option<nat>)
    requires Holds(c)
    ensures r.Some? ==> InPlane(c, row, col) && r.value == SampleAt(c, row, col)
    ensures r == None <==> ComponentIndex(c, row, col, sizeMax) == None || c.dataType == OtherType
  {
    var index := ComponentIndex(c, row, col, sizeMax);
    if index == None {
      return None;
    }
    LastIndexImpliesAll(c, row + 1, col + 1, row, col, sizeMax);
    return ComponentSample(c, index.value);
  }

  // ----- the buffer -----

  /** The bytes before `n` have been stored, and no others. */
  ghost predicate PutUpTo(put: map<nat, nat>, n: nat) {
    forall i: nat :: i in put <==> i < n
  }

  /** A freshly allocated buffer.  `put` is what has been stored in it; nothing is
      ever stored where something has been, and the rest is as it was allocated. */
  class Buffer {
    const bytes: array<nat>
    ghost const initial: seq<nat>
    ghost var put: map<nat, nat>

    ghost predicate Valid()
      reads this, bytes
    {
      && |initial| == bytes.Length && (forall i :: i in put ==> i < bytes.Length)
      && forall i :: 0 <= i < bytes.Length ==> bytes[i] == if i in put then put[i] else initial[i]
    }

    constructor (length: nat)
      ensures Valid() && bytes.Length == length && put == map[] && fresh(bytes)
    {
      var store := new nat[length];
      bytes := store;
      initial := store[..];
      put := map[];
    }

    method Put(i: nat, value: nat)
      requires Valid() && i < bytes.Length && i !in put
      modifies this`put, bytes
      ensures Valid() && put == old(put)[i := value]
      ensures bytes[..] == old(bytes[..])[i := value]
    {
      bytes[i] := value;
      put := put[i := value];
    }
  }

  /** `now` is `before` with `values` from `dst` on, and nothing else changed. */
  ghost predicate Replaced(before: seq<nat>, now: seq<nat>, dst: nat, values: seq<nat>) {
    && dst + |values| <= |before| == |now|
    && now == before[..dst] + values + before[dst + |values|..]
  }

  lemma OneReplaced(before: seq<nat>, dst: nat, v: nat)
    requires dst < |before|
    ensures Replaced(before, before[dst := v], dst, [v])
  {
  }

  lemma ThreeReplaced(before: seq<nat>, dst: nat, v0: nat, v1: nat, v2: nat)
    requires dst + 2 < |before|
    ensures Replaced(before, before[dst := v0][dst + 1 := v1][dst + 2 := v2], dst, [v0, v1, v2])
  {
  }

  method PutOne(packed: Buffer, dst: nat, v: nat)
    requires packed.Valid() && PutUpTo(packed.put, dst) && dst < packed.bytes.Length
    modifies packed`put, packed.bytes
    ensures packed.Valid() && PutUpTo(packed.put, dst + 1)
    ensures Replaced(old(packed.bytes[..]), packed.bytes[..], dst, [v])
  {
    hide Replaced, Buffer.Valid;
    OneReplaced(packed.bytes[..], dst, v);
    packed.Put(dst, v);
  }

  method PutThree(packed: Buffer, dst: nat, v0: nat, v1: nat, v2: nat)
    requires packed.Valid() && PutUpTo(packed.put, dst) && dst + 2 < packed.bytes.Length
    modifies packed`put, packed.bytes
    ensures packed.Valid() && PutUpTo(packed.put, dst + 3)
    ensures Replaced(old(packed.bytes[..]), packed.bytes[..], dst, [v0, v1, v2])
  {
    hide Replaced, Buffer.Valid;
    ThreeReplaced(packed.bytes[..], dst, v0, v1, v2);
    packed.Put(dst, v0);
    packed.Put(dst + 1, v1);
    packed.Put(dst + 2, v2);
  }

  /** Writes the samples of one pixel at `dst`, behind all that is written. */
  method WritePixel(comps: seq<Component>, channels: nat, row: nat, col: nat, sizeMax: nat, packed: Buffer, dst: nat)
    returns (ok: bool, ghost pixel: Pixel)
    requires ComponentCountOk(|comps|, channels) && (forall k :: 0 <= k < |comps| ==> Holds(comps[k]))
    requires forall k :: 0 <= k < channels ==> ComponentIndex(comps[PlaneOf(|comps|, k)], row, col, sizeMax).Some?
    requires packed.Valid() && PutUpTo(packed.put, dst) && dst + channels <= packed.bytes.Length
    modifies packed`put, packed.bytes
    ensures packed.Valid() && (ok <==> Readable(comps, channels))
    ensures ok ==> |pixel| == channels && PixelOf(comps, channels, row, col, pixel) && PutUpTo(packed.put, dst + channels)
    ensures if ok then Replaced(old(packed.bytes[..]), packed.bytes[..], dst, pixel) else packed.bytes[..] == old(packed.bytes[..])
  {
    hide Holds, ComponentIndex, InPlane, SampleAt, PutUpTo, Buffer.Valid;
    hide Replaced;
    pixel := [];
    var v0 := ReadSample(comps[0], row, col, sizeMax);
    if v0 == None {
      assert PlaneOf(|comps|, 0) == 0;
      return false, pixel;
    }
    if channels == 1 {
      PutOne(packed, dst, v0.value);
      pixel := [v0.value];
      return true, pixel;
    }
    if |comps| == 1 {
      PutThree(packed, dst, v0.value, v0.value, v0.value);
      pixel := [v0.value, v0.value, v0.value];
      return true, pixel;
    }
    var v1 := ReadSample(comps[1], row, col, sizeMax);
    var v2 := ReadSample(comps[2], row, col, sizeMax);
    if v1 == None || v2 == None {
      assert PlaneOf(|comps|, 1) == 1 && PlaneOf(|comps|, 2) == 2;
      return false, pixel;
    }
    PutThree(packed, dst, v0.value, v1.value, v2.value);
    pixel := [v0.value, v1.value, v2.value];
    return true, pixel;
  }

  lemma PixelFits(row: nat, col: nat, width: nat, height: nat, channels: nat)
    requires row < height && col < width
    ensures (row * width + col) * channels + channels <= width * height * channels
    ensures (row * width + (col + 1)) * channels == (row * width + col) * channels + channels
  {
    NextProduct(row, width);
    NextProduct(row * width + col, channels);
    Ordered(row + 1, height, width);
    Commutes(width, height);
    Ordered(row * width + col + 1, width * height, channels);
  }

  /** `packed` holds the finished rows and the finished pixels of this one. */
  ghost predicate Filled(packed: seq<nat>, done: Picture, line: seq<Pixel>, end: nat) {
    end <= |packed| && packed[..end] == Packed(done) + Flatten(line)
  }

  lemma FilledPixel(before: seq<nat>, after: seq<nat>, done: Picture, line: seq<Pixel>, end: nat, pixel: Pixel)
    requires Filled(before, done, line, end) && Replaced(before, after, end, pixel)
    ensures Filled(after, done, line + [pixel], end + |pixel|)
  {
  }

  lemma FilledRow(packed: seq<nat>, done: Picture, line: seq<Pixel>, end: nat)
    requires Filled(packed, done, line, end)
    ensures Filled(packed, done + [line], [], end)
  {
  }

  lemma NothingFilled(packed: seq<nat>, width: nat, channels: nat)
    ensures (0 * width) * channels == 0 && Filled(packed, [], [], (0 * width) * channels)
  {
  }

  lemma FilledAll(packed: seq<nat>, done: Picture, width: nat, height: nat, channels: nat)
    requires Filled(packed, done, [], (height * width) * channels) && |packed| == width * height * channels
    ensures packed == Packed(done)
  {
  }

  lemma EmptyRow(comps: seq<Component>, channels: nat, row: nat)
    requires ComponentCountOk(|comps|, channels)
    ensures RowOf(comps, channels, row, [])
  {
  }

  lemma RowOfAdds(comps: seq<Component>, channels: nat, row: nat, line: seq<Pixel>, pixel: Pixel)
    requires ComponentCountOk(|comps|, channels) && RowOf(comps, channels, row, line)
    requires PixelOf(comps, channels, row, |line|, pixel)
    ensures RowOf(comps, channels, row, line + [pixel])
  {
    hide PixelOf;
  }

  lemma AllIndicesOk(comps: seq<Component>, width: nat, height: nat, channels: nat, row: nat, col: nat, sizeMax: nat)
    requires ComponentCountOk(|comps|, channels) && (forall k :: 0 <= k < |comps| ==> Holds(comps[k]))
    requires row < height && col < width && LastIndexOk(comps, width, height, channels, sizeMax)
    ensures forall k :: 0 <= k < channels ==> ComponentIndex(comps[PlaneOf(|comps|, k)], row, col, sizeMax).Some?
  {
    hide ComponentIndex;
    forall k | 0 <= k < channels ensures ComponentIndex(comps[PlaneOf(|comps|, k)], row, col, sizeMax).Some? {
      LastIndexImpliesAll(comps[PlaneOf(|comps|, k)], height, width, row, col, sizeMax);
    }
  }

  /** One row of the pixel loop. */
  method InterleaveRow(comps: seq<Component>, width: nat, height: nat, channels: nat, row: nat, sizeMax: nat, packed: Buffer, ghost done: Picture)
    returns (ok: bool, ghost line: seq<Pixel>)
    requires ComponentCountOk(|comps|, channels) && (forall k :: 0 <= k < |comps| ==> Holds(comps[k]))
    requires row < height && width > 0 && LastIndexOk(comps, width, height, channels, sizeMax)
    requires packed.Valid() && packed.bytes.Length == width * height * channels
    requires Filled(packed.bytes[..], done, [], (row * width) * channels) && PutUpTo(packed.put, (row * width) * channels)
    modifies packed`put, packed.bytes
    ensures packed.Valid() && (ok <==> Readable(comps, channels))
    ensures ok ==> |line| == width && RowOf(comps, channels, row, line)
    ensures ok ==> Filled(packed.bytes[..], done, line, (row * width + width) * channels)
    ensures ok ==> PutUpTo(packed.put, (row * width + width) * channels)
  {
    hide RowOf, PixelOf, Filled, LastIndexOk, ComponentIndex, Readable, Holds, PlaneOf, PutUpTo, Replaced;
    line := [];
    assert RowOf(comps, channels, row, line) by {
      EmptyRow(comps, channels, row);
    }
    for col := 0 to width
      invariant packed.Valid() && |line| == col && RowOf(comps, channels, row, line)
      invariant Filled(packed.bytes[..], done, line, (row * width + col) * channels)
      invariant PutUpTo(packed.put, (row * width + col) * channels)
      invariant col > 0 ==> Readable(comps, channels)
    {
      var dst := (row * width + col) * channels;
      PixelFits(row, col, width, height, channels);
      AllIndicesOk(comps, width, height, channels, row, col, sizeMax);
      ghost var before := packed.bytes[..];
      ghost var pixel;
      ok, pixel := WritePixel(comps, channels, row, col, sizeMax, packed, dst);
      if !ok {
        return;
      }
      FilledPixel(before, packed.bytes[..], done, line, dst, pixel);
      RowOfAdds(comps, channels, row, line, pixel);
      line := line + [pixel];
    }
    ok := true;
  }

  /** The pixel loop over a buffer of exactly the output length: it fails only
      for an unknown sample type, and otherwise fills the buffer exactly with the
      packed picture, every byte once. */
  method InterleaveAll(comps: seq<Component>, width: nat, height: nat, channels: nat, sizeMax: nat, packed: Buffer)
    returns (ok: bool, ghost picture: Picture)
    requires ComponentCountOk(|comps|, channels) && (forall k :: 0 <= k < |comps| ==> Holds(comps[k]))
    requires width > 0 && height > 0 && LastIndexOk(comps, width, height, channels, sizeMax)
    requires packed.Valid() && packed.bytes.Length == width * height * channels && packed.put == map[]
    modifies packed`put, packed.bytes
    ensures packed.Valid() && (ok <==> Readable(comps, channels))
    ensures ok ==> IsPicture(picture, width, height, channels) && PictureOf(comps, channels, width, picture)
    ensures ok ==> packed.bytes[..] == Packed(picture) && PutUpTo(packed.put, packed.bytes.Length)
  {
    hide Packed, Filled, Flatten, LastIndexOk;
    picture := [];
    NothingFilled(packed.bytes[..], width, channels);
    for row := 0 to height
      invariant packed.Valid() && |picture| == row && PictureOf(comps, channels, width, picture)
      invariant Filled(packed.bytes[..], picture, [], (row * width) * channels)
      invariant PutUpTo(packed.put, (row * width) * channels)
      invariant row > 0 ==> Readable(comps, channels)
    {
      ghost var line;
      ok, line := InterleaveRow(comps, width, height, channels, row, sizeMax, packed, picture);
      if !ok {
        return;
      }
      NextProduct(row, width);
      FilledRow(packed.bytes[..], picture, line, (row * width + width) * channels);
      picture := picture + [line];
    }
    Commutes(height, width);
    FilledAll(packed.bytes[..], picture, width, height, channels);
    ok := true;
  }

  /** The Grok shim from the decoded image on: which images it accepts, and the
      bytes it hands out. */
  method GrokPack(comps: seq<Component>, decompressWidth: nat, decompressHeight: nat, channels: nat, sizeMax: nat)
    returns (r: Option<(seq<nat>, nat, nat)>, ghost picture: Picture)
    requires (forall k :: 0 <= k < |comps| ==> Holds(comps[k]) && IsU32(comps[k].w) && IsU32(comps[k].h))
    requires IsU32(decompressWidth) && IsU32(decompressHeight) && IsU32(channels) && sizeMax >= U32_MAX
    ensures r.Some? ==> comps != [] && ComponentCountOk(|comps|, channels)
    ensures r.Some? ==> IsPicture(picture, r.value.1, r.value.2, channels) && PictureOf(comps, channels, r.value.1, picture)
    ensures r.Some? ==> r.value.1 == if decompressWidth != 0 then decompressWidth else comps[0].w
    ensures r.Some? ==> r.value.2 == if decompressHeight != 0 then decompressHeight else comps[0].h
    ensures r.Some? ==> r.value.0 == Packed(picture) && OutputLen(r.value.1, r.value.2, channels) == Some(|r.value.0|)
    ensures r.Some? <==> Packable(comps, decompressWidth, decompressHeight, channels, sizeMax)
  {
    hide Packed, PictureOf, Flatten;
    picture := [];
    if comps == [] {
      return None, picture;
    }
    var width := if decompressWidth != 0 then decompressWidth else comps[0].w;
    var height := if decompressHeight != 0 then decompressHeight else comps[0].h;
    OutputLengthsAgree(width, height, channels, sizeMax);
    var total := GrokOutputLen(width, height, channels, sizeMax);
    if !ComponentCountOk(|comps|, channels) || total == None {
      return None, picture;
    }
    if exists k :: 0 <= k < channels && ComponentIndex(comps[PlaneOf(|comps|, k)], height - 1, width - 1, sizeMax) == None {
      return None, picture;
    }
    var packed := new Buffer(total.value);
    var ok: bool;
    ok, picture := InterleaveAll(comps, width, height, channels, sizeMax, packed);
    return if ok then Some((packed.bytes[..], width, height)) else None, picture;
  }

  /** One plane serves every channel; otherwise each of three has its own, and a
      single channel takes the first of any number. */
  predicate PlanesFit(count: nat, channels: nat) {
    (count >= 1 && channels == 1) || (count == 1 && channels == 3) || (count >= 3 && channels == 3)
  }

  /** The images the shim accepts. */
  predicate Packable(comps: seq<Component>, decompressWidth: nat, decompressHeight: nat, channels: nat, sizeMax: nat) {
    PlanesFit(|comps|, channels) &&
    var width := if decompressWidth != 0 then decompressWidth else comps[0].w;
    var height := if decompressHeight != 0 then decompressHeight else comps[0].h;
    && OutputLen(width, height, channels).Some?
    && LastIndexOk(comps, width, height, channels, sizeMax) && Readable(comps, channels)
  }
}
