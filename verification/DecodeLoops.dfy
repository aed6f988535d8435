/** The loops that fill the decoded image: decodeColor, decodeChannel and decodeAlpha for one
    block, BCDecoder_decodeThread for the blocks of a task, and the tasks of a split in the
    order they are submitted. Each leaves exactly the stores that BlockDecoder lists for it;
    TaskSplit then says which pixels those are. */
module DecodeLoops {
  import opened Bits
  import opened BlockPalette
  import opened BlockDecoder
  import opened Options
  import opened TaskSplit

  // ---- where a texel is stored ----

  /** The first texel of row `j` of a block, from the address of the block. */
  lemma RowAddress(width: nat, y: nat, x: nat, j: nat)
    ensures Flat(width, y, x, 0) + j * (width * 4) == Flat(width, y + j, x, 0)
  {
    TimesAdds(y, j, width);
    TimesIsProduct(j, width);
  }

  /** A row of texels of the image, from `x` on, at address `at`. */
  ghost predicate FramesRow(dst: array<byte>, at: nat, x: nat, row: nat, width: nat, height: nat) {
    dst.Length == ImageBytes(width, height) && row < height && x < width && at == Flat(width, row, x, 0)
  }

  /** A call that decodes a block at (x, y) into the image, at address `at`. */
  ghost predicate Frames(dst: array<byte>, at: nat, x: nat, y: nat, width: nat, endY: nat, stride: nat, height: nat) {
    dst.Length == ImageBytes(width, height) && endY <= height && y < endY && x < width && stride == width * 4
    && at == Flat(width, y, x, 0)
  }

  /** One more channel of a texel. */
  lemma TexelStep(d: seq<byte>, p: Plane, row: nat, col: nat, i: nat, n: nat, width: nat, height: nat)
    requires |d| == ImageBytes(width, height) && row < height && col < width && n < 4
    ensures Inside(TexelWrites(p, row, col, i, n), width, height)
    ensures Inside(TexelWrites(p, row, col, i, n + 1), width, height)
    ensures Flat(width, row, col, n) < |d|
    ensures var before := Apply(d, TexelWrites(p, row, col, i, n), width, height);
      Apply(d, TexelWrites(p, row, col, i, n + 1), width, height)
      == if p(i, n).Some? then before[Flat(width, row, col, n) := p(i, n).value] else before
  {
    TexelInside(p, row, col, i, n, width, height);
    TexelInside(p, row, col, i, n + 1, width, height);
    FlatInside(width, height, row, col, n);
    var ws := TexelWrites(p, row, col, i, n);
    if p(i, n).Some? {
      var w := Write(row, col, n, p(i, n).value);
      assert (ws + [w])[..|ws + [w]| - 1] == ws;
    } else {
      assert ws + [] == ws;
    }
  }

  /** The image `e` is `d` with the first `i` texels of a row stored. */
  ghost predicate RowDone(e: seq<byte>, d: seq<byte>, p: Plane, x: nat, row: nat, j: nat, i: nat, width: nat,
      height: nat) {
    |d| == ImageBytes(width, height) && Inside(Joined(RowParts(p, x, row, j), i), width, height)
    && e == Apply(d, Joined(RowParts(p, x, row, j), i), width, height)
  }

  /** One more texel of a row, and one more row of a block. */
  lemma RowStep(e: seq<byte>, f: seq<byte>, d: seq<byte>, p: Plane, x: nat, row: nat, j: nat, i: nat, width: nat,
      height: nat)
    requires RowDone(e, d, p, x, row, j, i, width, height) && row < height && x + i < width
    requires Inside(TexelWrites(p, row, x + i, 4 * j + i, 4), width, height)
    requires f == Apply(e, TexelWrites(p, row, x + i, 4 * j + i, 4), width, height)
    ensures RowDone(f, d, p, x, row, j, i + 1, width, height)
  {
    RowInside(p, x, row, j, i + 1, width, height);
    ApplyConcat(d, Joined(RowParts(p, x, row, j), i), TexelWrites(p, row, x + i, 4 * j + i, 4), width, height);
  }

  /** The image `e` is `d` with the first `j` rows of a block stored. */
  ghost predicate PlaneDone(e: seq<byte>, d: seq<byte>, p: Plane, x: nat, y: nat, j: nat, width: nat, height: nat) {
    |d| == ImageBytes(width, height) && Inside(PlaneWrites(p, x, y, width, j), width, height)
    && e == Apply(d, PlaneWrites(p, x, y, width, j), width, height)
  }

  lemma PlaneStep(e: seq<byte>, f: seq<byte>, d: seq<byte>, p: Plane, x: nat, y: nat, j: nat, width: nat, height: nat)
    requires PlaneDone(e, d, p, x, y, j, width, height) && y + j < height
    requires Inside(Joined(RowParts(p, x, y + j, j), Clip(x, width)), width, height)
    requires f == Apply(e, Joined(RowParts(p, x, y + j, j), Clip(x, width)), width, height)
    ensures PlaneDone(f, d, p, x, y, j + 1, width, height)
  {
    PlaneInside(p, x, y, width, j + 1, height);
    ApplyConcat(d, PlaneWrites(p, x, y, width, j), Joined(RowParts(p, x, y + j, j), Clip(x, width)), width, height);
  }

  // ---- one block ----

  /** The colour a texel selects is an entry of the palette: the casts lose nothing. */
  lemma SelectedColor(c0: nat, c1: nat, idx: nat, hasAlpha: bool, separate: bool, i: nat, ch: nat)
    requires ch < 4
    ensures ColorIdx(idx, i) < 4
    ensures ColorEntry(c0, c1, hasAlpha, separate, ColorIdx(idx, i), ch)
        == ColorTexel(c0, c1, idx, hasAlpha, separate, i, ch)
  {
    ColorIdxIsDigit(idx, i);
    SmallColor(c0, c1, hasAlpha, separate, ColorIdx(idx, i), ch);
  }

  lemma SmallColor(c0: nat, c1: nat, hasAlpha: bool, separate: bool, k: nat, ch: nat)
    requires k < 4 && ch < 4
    ensures ColorEntry(c0, c1, hasAlpha, separate, k % 4, ch) % 256 == ColorEntry(c0, c1, hasAlpha, separate, k, ch)
  {
    assert k % 4 == k;
    ColorEntryMeans(c0, c1, hasAlpha, separate, k, ch);
    SmallByte(ColorEntry(c0, c1, hasAlpha, separate, k, ch));
  }

  lemma SmallByte(e: int)
    requires 0 <= e < 256
    ensures e % 256 == e
  {}

  lemma ColorSelected(c0: nat, c1: nat, idx: nat, hasAlpha: bool, separate: bool, i: nat)
    ensures ColorIdx(idx, i) < 4
    ensures forall ch: nat | ch < 4 ::
              ColorPlane(c0, c1, idx, hasAlpha, separate)(i, ch) ==
              Some(ColorEntry(c0, c1, hasAlpha, separate, ColorIdx(idx, i), ch))
  {
    forall ch: nat | ch < 4
      ensures ColorIdx(idx, i) < 4
      ensures ColorPlane(c0, c1, idx, hasAlpha, separate)(i, ch)
           == Some(ColorEntry(c0, c1, hasAlpha, separate, ColorIdx(idx, i), ch))
    {
      SelectedColor(c0, c1, idx, hasAlpha, separate, i, ch);
    }
    SelectedColor(c0, c1, idx, hasAlpha, separate, i, 0);
  }

  /** Texel `t` of a plane is entry `k` of a palette. */
  ghost predicate Shows(p: Plane, t: nat, c: array2<int>, k: nat)
    reads c
  {
    c.Length0 == 4 && c.Length1 == 4 && k < 4 && forall ch: nat | ch < 4 :: p(t, ch).Some? && p(t, ch).value == c[k, ch]
  }

  method PutColor(c: array2<int>, k: nat, dst: array<byte>, at: nat, ghost p: Plane, ghost t: nat,
                  ghost row: nat, ghost col: nat, ghost width: nat, ghost height: nat)
    requires Shows(p, t, c, k)
    requires dst.Length == ImageBytes(width, height) && row < height && col < width && at == Flat(width, row, col, 0)
    modifies dst
    ensures Inside(TexelWrites(p, row, col, t, 4), width, height)
    ensures dst[..] == Apply(old(dst[..]), TexelWrites(p, row, col, t, 4), width, height)
  {
    ghost var d := dst[..];
    TexelStep(d, p, row, col, t, 0, width, height);
    TexelStep(d, p, row, col, t, 1, width, height);
    TexelStep(d, p, row, col, t, 2, width, height);
    TexelStep(d, p, row, col, t, 3, width, height);
    dst[at + 0] := c[k, 0];
    dst[at + 1] := c[k, 1];
    dst[at + 2] := c[k, 2];
    dst[at + 3] := c[k, 3];
  }

  method StoreColor(c: array2<int>, k: nat, dst: array<byte>, at: nat, ghost d: seq<byte>, ghost p: Plane, ghost x: nat,
                    ghost row: nat, ghost j: nat, ghost i: nat, ghost width: nat, ghost height: nat)
    requires RowDone(dst[..], d, p, x, row, j, i, width, height) && row < height && x + i < width
    requires dst.Length == ImageBytes(width, height) && at == Flat(width, row, x + i, 0)
    requires Shows(p, 4 * j + i, c, k)
    modifies dst
    ensures RowDone(dst[..], d, p, x, row, j, i + 1, width, height)
  {
    ghost var e := dst[..];
    PutColor(c, k, dst, at, p, 4 * j + i, row, x + i, width, height);
    RowStep(e, dst[..], d, p, x, row, j, i, width, height);
  }

  ghost predicate HoldsPalette(c: array2<int>, c0: nat, c1: nat, hasAlpha: bool, separate: bool)
    reads c
  {
    c.Length0 == 4 && c.Length1 == 4
    && forall k: nat, ch: nat | k < 4 && ch < 4 :: c[k, ch] == ColorEntry(c0, c1, hasAlpha, separate, k, ch)
  }

  /** One row of texels of a colour block. */
  method DecodeColorRow(c: array2<int>, idx: nat, srcOffset: nat, dst: array<byte>, at: nat, x: nat, width: nat,
                        ghost c0: nat, ghost c1: nat, ghost hasAlpha: bool, ghost separate: bool,
                        ghost j: nat, ghost row: nat, ghost height: nat)
    requires HoldsPalette(c, c0, c1, hasAlpha, separate) && srcOffset == 4 * j
        && FramesRow(dst, at, x, row, width, height)
    modifies dst
    ensures Inside(Joined(RowParts(ColorPlane(c0, c1, idx, hasAlpha, separate), x, row, j), Clip(x, width)), width,
        height)
    ensures dst[..] == Apply(old(dst[..]),
        Joined(RowParts(ColorPlane(c0, c1, idx, hasAlpha, separate), x, row, j), Clip(x, width)), width, height)
  {
    ghost var p, d := ColorPlane(c0, c1, idx, hasAlpha, separate), dst[..];
    var i, dstOffset := 0, at;
    RowInside(p, x, row, j, 0, width, height);
    while i < 4 && x + i < width
      invariant i <= Clip(x, width) && dstOffset == at + 4 * i && RowDone(dst[..], d, p, x, row, j, i, width, height)
      invariant HoldsPalette(c, c0, c1, hasAlpha, separate)
    {
      ColorSelected(c0, c1, idx, hasAlpha, separate, srcOffset + i);
      StoreColor(c, ColorIdx(idx, srcOffset + i), dst, dstOffset, d, p, x, row, j, i, width, height);
      i, dstOffset := i + 1, dstOffset + 4;
    }
  }

  method DecodeColor(c0: nat, c1: nat, idx: nat, dst: array<byte>, at: nat, x: nat, y: nat, width: nat, endY: nat,
                     stride: nat, hasAlpha: bool, separate: bool, ghost height: nat)
    requires Frames(dst, at, x, y, width, endY, stride, height)
    modifies dst
    ensures Inside(PlaneWrites(ColorPlane(c0, c1, idx, hasAlpha, separate), x, y, width, Clip(y, endY)), width, height)
    ensures dst[..] == Apply(old(dst[..]),
        PlaneWrites(ColorPlane(c0, c1, idx, hasAlpha, separate), x, y, width, Clip(y, endY)), width, height)
  {
    ghost var p, d := ColorPlane(c0, c1, idx, hasAlpha, separate), dst[..];
    var c := FillColorPalette(c0, c1, hasAlpha, separate);
    var j := 0;
    PlaneInside(p, x, y, width, 0, height);
    while j < 4 && y + j < endY
      invariant j <= Clip(y, endY) && PlaneDone(dst[..], d, p, x, y, j, width, height)
      invariant HoldsPalette(c, c0, c1, hasAlpha, separate)
    {
      ghost var e := dst[..];
      RowAddress(width, y, x, j);
      DecodeColorRow(c, idx, j * 4, dst, at + j * stride, x, width, c0, c1, hasAlpha, separate, j, y + j, height);
      PlaneStep(e, dst[..], d, p, x, y, j, width, height);
      j := j + 1;
    }
  }

  ghost predicate OnlyChannel(p: Plane, i: nat, channel: nat) {
    forall ch: nat :: p(i, ch).Some? <==> ch == channel
  }

  /** A plane of one channel stores one byte a texel. */
  lemma OneChannel(d: seq<byte>, p: Plane, channel: nat, row: nat, col: nat, i: nat, width: nat, height: nat)
    requires channel < 4 && OnlyChannel(p, i, channel)
    requires |d| == ImageBytes(width, height) && row < height && col < width
    ensures Inside(TexelWrites(p, row, col, i, 4), width, height) && Flat(width, row, col, channel) < |d|
    ensures Apply(d, TexelWrites(p, row, col, i, 4), width, height)
        == d[Flat(width, row, col, channel) := p(i, channel).value]
  {
    TexelStep(d, p, row, col, i, 0, width, height);
    TexelStep(d, p, row, col, i, 1, width, height);
    TexelStep(d, p, row, col, i, 2, width, height);
    TexelStep(d, p, row, col, i, 3, width, height);
    assert Apply(d, TexelWrites(p, row, col, i, 0), width, height) == d;
  }

  method PutByte(v: byte, dst: array<byte>, at: nat, ghost p: Plane, ghost channel: nat, ghost t: nat,
                 ghost row: nat, ghost col: nat, ghost width: nat, ghost height: nat)
    requires dst.Length == ImageBytes(width, height) && row < height && col < width && channel < 4
    requires at == Flat(width, row, col, channel) && OnlyChannel(p, t, channel) && p(t, channel) == Some(v)
    modifies dst
    ensures Inside(TexelWrites(p, row, col, t, 4), width, height)
    ensures dst[..] == Apply(old(dst[..]), TexelWrites(p, row, col, t, 4), width, height)
  {
    OneChannel(dst[..], p, channel, row, col, t, width, height);
    dst[at] := v;
  }

  method StoreByte(v: byte, dst: array<byte>, at: nat, ghost d: seq<byte>, ghost p: Plane, ghost channel: nat,
                   ghost x: nat, ghost row: nat, ghost j: nat, ghost i: nat, ghost width: nat, ghost height: nat)
    requires RowDone(dst[..], d, p, x, row, j, i, width, height) && row < height && x + i < width && channel < 4
    requires dst.Length == ImageBytes(width, height) && at == Flat(width, row, x + i, channel)
    requires OnlyChannel(p, 4 * j + i, channel) && p(4 * j + i, channel) == Some(v)
    modifies dst
    ensures RowDone(dst[..], d, p, x, row, j, i + 1, width, height)
  {
    ghost var e := dst[..];
    PutByte(v, dst, at, p, channel, 4 * j + i, row, x + i, width, height);
    RowStep(e, dst[..], d, p, x, row, j, i, width, height);
  }

  ghost predicate HoldsChannel(c: array<int>, data: nat, isSigned: bool)
    reads c
  {
    c.Length == 8
    && forall k: nat | k < 8 ::
         c[k] == ChannelEntry(Endpoint(data, 0, isSigned), Endpoint(data, 1, isSigned), isSigned, k)
  }

  method DecodeChannelRow(c: array<int>, data: nat, srcOffset: nat, dst: array<byte>, at: nat, x: nat, width: nat,
                          channel: nat, ghost isSigned: bool, ghost j: nat, ghost row: nat, ghost height: nat)
    requires HoldsChannel(c, data, isSigned) && srcOffset == 4 * j && channel < 4
        && FramesRow(dst, at, x, row, width, height)
    modifies dst
    ensures Inside(Joined(RowParts(ChannelPlane(data, channel, isSigned), x, row, j), Clip(x, width)), width, height)
    ensures dst[..] == Apply(old(dst[..]),
        Joined(RowParts(ChannelPlane(data, channel, isSigned), x, row, j), Clip(x, width)), width, height)
  {
    ghost var p, d := ChannelPlane(data, channel, isSigned), dst[..];
    var i, dstOffset := 0, at + channel;
    RowInside(p, x, row, j, 0, width, height);
    while i < 4 && x + i < width
      invariant i <= Clip(x, width) && RowDone(dst[..], d, p, x, row, j, i, width, height)
      invariant HoldsChannel(c, data, isSigned)
    {
      ChannelOnly(data, channel, isSigned, srcOffset + i);
      var v := c[ChannelIdx(data, srcOffset + i)] % 256;
      StoreByte(v, dst, dstOffset + i * 4, d, p, channel, x, row, j, i, width, height);
      i := i + 1;
    }
  }

  lemma ChannelOnly(data: nat, channel: nat, isSigned: bool, i: nat)
    ensures ChannelIdx(data, i) < 8
    ensures OnlyChannel(ChannelPlane(data, channel, isSigned), i, channel)
    ensures ChannelPlane(data, channel, isSigned)(i, channel)
      == Some(ChannelEntry(Endpoint(data, 0, isSigned), Endpoint(data, 1, isSigned), isSigned,
          ChannelIdx(data, i)) % 256)
  {
    ChannelTexelFits(data, isSigned, i);
    SmallIndex(ChannelIdx(data, i));
    assert ChannelTexel(data, isSigned, i)
      == ChannelEntry(Endpoint(data, 0, isSigned), Endpoint(data, 1, isSigned), isSigned, ChannelIdx(data, i)) % 256;
  }

  lemma SmallIndex(k: nat)
    requires k < 8
    ensures k % 8 == k
  {}

  method DecodeChannel(data: nat, dst: array<byte>, at: nat, x: nat, y: nat, width: nat, endY: nat, stride: nat,
                       channel: nat, isSigned: bool, ghost height: nat)
    requires Frames(dst, at, x, y, width, endY, stride, height) && channel < 4
    modifies dst
    ensures Inside(PlaneWrites(ChannelPlane(data, channel, isSigned), x, y, width, Clip(y, endY)), width, height)
    ensures dst[..] == Apply(old(dst[..]),
        PlaneWrites(ChannelPlane(data, channel, isSigned), x, y, width, Clip(y, endY)), width, height)
  {
    ghost var p, d := ChannelPlane(data, channel, isSigned), dst[..];
    var c := FillChannelPalette(data, isSigned);
    var j := 0;
    PlaneInside(p, x, y, width, 0, height);
    while j < 4 && y + j < endY
      invariant j <= Clip(y, endY) && PlaneDone(dst[..], d, p, x, y, j, width, height)
      invariant HoldsChannel(c, data, isSigned)
    {
      ghost var e := dst[..];
      RowAddress(width, y, x, j);
      DecodeChannelRow(c, data, j * 4, dst, at + j * stride, x, width, channel, isSigned, j, y + j, height);
      PlaneStep(e, dst[..], d, p, x, y, j, width, height);
      j := j + 1;
    }
  }

  method DecodeAlphaRow(data: nat, srcOffset: nat, dst: array<byte>, at: nat, x: nat, width: nat,
                        ghost j: nat, ghost row: nat, ghost height: nat)
    requires srcOffset == 4 * j && FramesRow(dst, at, x, row, width, height)
    modifies dst
    ensures Inside(Joined(RowParts(AlphaPlane(data), x, row, j), Clip(x, width)), width, height)
    ensures dst[..] == Apply(old(dst[..]), Joined(RowParts(AlphaPlane(data), x, row, j), Clip(x, width)), width, height)
  {
    ghost var p, d := AlphaPlane(data), dst[..];
    var i, dstRow := 0, at + 3;
    RowInside(p, x, row, j, 0, width, height);
    while i < 4 && x + i < width
      invariant i <= Clip(x, width) && dstRow == at + 3 + 4 * i && RowDone(dst[..], d, p, x, row, j, i, width, height)
    {
      AlphaOnly(data, srcOffset + i);
      StoreByte(Alpha(data, srcOffset + i), dst, dstRow, d, p, 3, x, row, j, i, width, height);
      i, dstRow := i + 1, dstRow + 4;
    }
  }

  lemma AlphaOnly(data: nat, i: nat)
    ensures OnlyChannel(AlphaPlane(data), i, 3)
    ensures AlphaPlane(data)(i, 3) == Some(Alpha(data, i))
  {}

  method DecodeAlpha(data: nat, dst: array<byte>, at: nat, x: nat, y: nat, width: nat, endY: nat, stride: nat,
      ghost height: nat)
    requires Frames(dst, at, x, y, width, endY, stride, height)
    modifies dst
    ensures Inside(PlaneWrites(AlphaPlane(data), x, y, width, Clip(y, endY)), width, height)
    ensures dst[..] == Apply(old(dst[..]), PlaneWrites(AlphaPlane(data), x, y, width, Clip(y, endY)), width, height)
  {
    ghost var p, d := AlphaPlane(data), dst[..];
    var j, rowAt := 0, at;
    PlaneInside(p, x, y, width, 0, height);
    while j < 4 && y + j < endY
      invariant j <= Clip(y, endY) && PlaneDone(dst[..], d, p, x, y, j, width, height)
      invariant rowAt == at + j * stride
    {
      ghost var e := dst[..];
      RowAddress(width, y, x, j);
      DecodeAlphaRow(data, j * 4, dst, rowAt, x, width, j, y + j, height);
      PlaneStep(e, dst[..], d, p, x, y, j, width, height);
      Distribute(stride, j, 1);
      j, rowAt := j + 1, rowAt + stride;
    }
  }

  // ---- one task ----

  /** One more plane of a block. */
  lemma BlockStep(d: seq<byte>, planes: seq<Plane>, x: nat, y: nat, width: nat, m: nat, n: nat, height: nat)
    requires |d| == ImageBytes(width, height) && y + m <= height && n < |planes|
    ensures Inside(BlockWrites(planes, x, y, width, m, n), width, height)
    ensures Inside(BlockWrites(planes, x, y, width, m, n + 1), width, height)
    ensures Inside(PlaneWrites(planes[n], x, y, width, m), width, height)
    ensures Apply(Apply(d, BlockWrites(planes, x, y, width, m, n), width, height),
                  PlaneWrites(planes[n], x, y, width, m), width, height)
      == Apply(d, BlockWrites(planes, x, y, width, m, n + 1), width, height)
  {
    BlockInside(planes, x, y, width, m, n, height);
    BlockInside(planes, x, y, width, m, n + 1, height);
    PlaneInside(planes[n], x, y, width, m, height);
    ApplyConcat(d, BlockWrites(planes, x, y, width, m, n), PlaneWrites(planes[n], x, y, width, m), width, height);
  }

  /** The first `n` planes of a block are stored. */
  ghost predicate BlockDone(dst: array<byte>, d: seq<byte>, planes: seq<Plane>, x: nat, y: nat, width: nat, endY: nat,
      n: nat, height: nat)
    reads dst
  {
    n <= |planes| && |d| == ImageBytes(width, height)
    && Inside(BlockWrites(planes, x, y, width, Clip(y, endY), n), width, height)
    && dst[..] == Apply(d, BlockWrites(planes, x, y, width, Clip(y, endY), n), width, height)
  }

  method PutColorPlane(c0: nat, c1: nat, idx: nat, dst: array<byte>, at: nat, x: nat, y: nat, width: nat, endY: nat,
                       stride: nat, hasAlpha: bool, separate: bool,
                       ghost d: seq<byte>, ghost planes: seq<Plane>, ghost n: nat, ghost height: nat)
    requires Frames(dst, at, x, y, width, endY, stride, height)
        && BlockDone(dst, d, planes, x, y, width, endY, n, height)
    requires n < |planes| && planes[n] == ColorPlane(c0, c1, idx, hasAlpha, separate)
    modifies dst
    ensures BlockDone(dst, d, planes, x, y, width, endY, n + 1, height)
  {
    DecodeColor(c0, c1, idx, dst, at, x, y, width, endY, stride, hasAlpha, separate, height);
    BlockStep(d, planes, x, y, width, Clip(y, endY), n, height);
  }

  method PutChannelPlane(data: nat, dst: array<byte>, at: nat, x: nat, y: nat, width: nat, endY: nat, stride: nat,
                         channel: nat, isSigned: bool,
                         ghost d: seq<byte>, ghost planes: seq<Plane>, ghost n: nat, ghost height: nat)
    requires Frames(dst, at, x, y, width, endY, stride, height)
        && BlockDone(dst, d, planes, x, y, width, endY, n, height)
    requires n < |planes| && planes[n] == ChannelPlane(data, channel, isSigned) && channel < 4
    modifies dst
    ensures BlockDone(dst, d, planes, x, y, width, endY, n + 1, height)
  {
    DecodeChannel(data, dst, at, x, y, width, endY, stride, channel, isSigned, height);
    BlockStep(d, planes, x, y, width, Clip(y, endY), n, height);
  }

  method PutAlphaPlane(data: nat, dst: array<byte>, at: nat, x: nat, y: nat, width: nat, endY: nat, stride: nat,
                       ghost d: seq<byte>, ghost planes: seq<Plane>, ghost n: nat, ghost height: nat)
    requires Frames(dst, at, x, y, width, endY, stride, height)
        && BlockDone(dst, d, planes, x, y, width, endY, n, height)
    requires n < |planes| && planes[n] == AlphaPlane(data)
    modifies dst
    ensures BlockDone(dst, d, planes, x, y, width, endY, n + 1, height)
  {
    DecodeAlpha(data, dst, at, x, y, width, endY, stride, height);
    BlockStep(d, planes, x, y, width, Clip(y, endY), n, height);
  }

  /** How far the source pointers move from one block to the next. */
  function BlockStride(bcN: nat): nat { if bcN == 1 || bcN == 4 then 8 else 16 }

  /** The address of the k-th block of a task. */
  function BlockAddress(t: Task, k: nat): nat {
    if t.bcN == 1 || t.bcN == 4 then t.src + 8 * k else t.src + 16 * k
  }

  /** The bodies of the loops of BCDecoder_decodeThread, one for each format. */
  method DecodeBc1(mem: Memory, t: Task, src: nat, dst: array<byte>, at: nat, x: nat, y: nat, stride: nat,
                    ghost k: nat, ghost height: nat)
    requires t.bcN == 1 && Frames(dst, at, x, y, t.width, t.endY, stride, height) && src == BlockAddress(t, k)
    modifies dst
    ensures BlockDone(dst, old(dst[..]), Planes(mem, t, k), x, y, t.width, t.endY, |Planes(mem, t, k)|, height)
  {
    ghost var d, planes := dst[..], Planes(mem, t, k);
    BlockInside(planes, x, y, t.width, Clip(y, t.endY), 0, height);
    PutColorPlane(U16(mem, src), U16(mem, src + 2), U32(mem, src + 4), dst, at, x, y, t.width, t.endY, stride,
        t.isAlpha, false, d, planes, 0, height);
  }

  method DecodeBc2(mem: Memory, t: Task, src: nat, dst: array<byte>, at: nat, x: nat, y: nat, stride: nat,
                    ghost k: nat, ghost height: nat)
    requires t.bcN == 2 && Frames(dst, at, x, y, t.width, t.endY, stride, height) && src == BlockAddress(t, k)
    modifies dst
    ensures BlockDone(dst, old(dst[..]), Planes(mem, t, k), x, y, t.width, t.endY, |Planes(mem, t, k)|, height)
  {
    ghost var d, planes := dst[..], Planes(mem, t, k);
    BlockInside(planes, x, y, t.width, Clip(y, t.endY), 0, height);
    PutColorPlane(U16(mem, src + 8), U16(mem, src + 10), U32(mem, src + 12), dst, at, x, y, t.width, t.endY, stride,
        t.isAlpha, true, d, planes, 0, height);
    PutAlphaPlane(U64(mem, src), dst, at, x, y, t.width, t.endY, stride, d, planes, 1, height);
  }

  method DecodeBc3(mem: Memory, t: Task, src: nat, dst: array<byte>, at: nat, x: nat, y: nat, stride: nat,
                    ghost k: nat, ghost height: nat)
    requires t.bcN == 3 && Frames(dst, at, x, y, t.width, t.endY, stride, height) && src == BlockAddress(t, k)
    modifies dst
    ensures BlockDone(dst, old(dst[..]), Planes(mem, t, k), x, y, t.width, t.endY, |Planes(mem, t, k)|, height)
  {
    ghost var d, planes := dst[..], Planes(mem, t, k);
    BlockInside(planes, x, y, t.width, Clip(y, t.endY), 0, height);
    PutColorPlane(U16(mem, src + 8), U16(mem, src + 10), U32(mem, src + 12), dst, at, x, y, t.width, t.endY, stride,
        t.isAlpha, true, d, planes, 0, height);
    PutChannelPlane(U64(mem, src), dst, at, x, y, t.width, t.endY, stride, 3, t.isSigned, d, planes, 1, height);
  }

  method DecodeBc4(mem: Memory, t: Task, src: nat, dst: array<byte>, at: nat, x: nat, y: nat, stride: nat,
                    ghost k: nat, ghost height: nat)
    requires t.bcN == 4 && Frames(dst, at, x, y, t.width, t.endY, stride, height) && src == BlockAddress(t, k)
    modifies dst
    ensures BlockDone(dst, old(dst[..]), Planes(mem, t, k), x, y, t.width, t.endY, |Planes(mem, t, k)|, height)
  {
    ghost var d, planes := dst[..], Planes(mem, t, k);
    BlockInside(planes, x, y, t.width, Clip(y, t.endY), 0, height);
    PutChannelPlane(U64(mem, src), dst, at, x, y, t.width, t.endY, stride, 0, t.isSigned, d, planes, 0, height);
  }

  lemma Bc5Planes(mem: Memory, t: Task, src: nat, k: nat)
    requires t.bcN == 5 && src == BlockAddress(t, k)
    ensures Planes(mem, t, k)
         == [ChannelPlane(U64(mem, src), 0, t.isSigned), ChannelPlane(U64(mem, src + 8), 1, t.isSigned)]
  {}

  method DecodeBc5(mem: Memory, t: Task, src: nat, dst: array<byte>, at: nat, x: nat, y: nat, stride: nat,
                    ghost k: nat, ghost height: nat)
    requires t.bcN == 5 && Frames(dst, at, x, y, t.width, t.endY, stride, height) && src == BlockAddress(t, k)
    modifies dst
    ensures BlockDone(dst, old(dst[..]), Planes(mem, t, k), x, y, t.width, t.endY, |Planes(mem, t, k)|, height)
  {
    ghost var d, planes := dst[..], Planes(mem, t, k);
    Bc5Planes(mem, t, src, k);
    BlockInside(planes, x, y, t.width, Clip(y, t.endY), 0, height);
    PutChannelPlane(U64(mem, src), dst, at, x, y, t.width, t.endY, stride, 0, t.isSigned, d, planes, 0, height);
    PutChannelPlane(U64(mem, src + 8), dst, at, x, y, t.width, t.endY, stride, 1, t.isSigned, d, planes, 1, height);
  }

  method DecodeBlock(mem: Memory, t: Task, src: nat, dst: array<byte>, at: nat, x: nat, y: nat, stride: nat,
                     ghost k: nat, ghost height: nat)
    requires Frames(dst, at, x, y, t.width, t.endY, stride, height) && src == BlockAddress(t, k)
    modifies dst
    ensures BlockDone(dst, old(dst[..]), Planes(mem, t, k), x, y, t.width, t.endY, |Planes(mem, t, k)|, height)
  {
    match t.bcN {
      case 1 => DecodeBc1(mem, t, src, dst, at, x, y, stride, k, height);
      case 2 => DecodeBc2(mem, t, src, dst, at, x, y, stride, k, height);
      case 3 => DecodeBc3(mem, t, src, dst, at, x, y, stride, k, height);
      case 4 => DecodeBc4(mem, t, src, dst, at, x, y, stride, k, height);
      case 5 => DecodeBc5(mem, t, src, dst, at, x, y, stride, k, height);
      case _ => BlockInside([], x, y, t.width, Clip(y, t.endY), 0, height);
    }
  }

  /** One more block of a row of blocks, and one more row of blocks of a task. */
  lemma BlockRowStep(d: seq<byte>, blocks: nat -> seq<Plane>, width: nat, y: nat, endY: nat, k: nat, b: nat,
      height: nat)
    requires |d| == ImageBytes(width, height) && y < endY <= height
    ensures BlockRowInside(blocks, width, y, endY, k, b, height)
        && BlockRowInside(blocks, width, y, endY, k, b + 1, height)
    ensures Inside(BlockRowParts(blocks, width, y, endY, k)(b), width, height)
    ensures Apply(Apply(d, Joined(BlockRowParts(blocks, width, y, endY, k), b), width, height),
                  BlockRowParts(blocks, width, y, endY, k)(b), width, height)
      == Apply(d, Joined(BlockRowParts(blocks, width, y, endY, k), b + 1), width, height)
  {
    var parts := BlockRowParts(blocks, width, y, endY, k);
    forall i: nat | i < b + 1
      ensures Inside(parts(i), width, height)
    {
      BlockInside(blocks(k + i), 4 * i, y, width, Clip(y, endY), |blocks(k + i)|, height);
    }
    JoinedInside(parts, b, width, height);
    JoinedInside(parts, b + 1, width, height);
    ApplyConcat(d, Joined(parts, b), parts(b), width, height);
  }

  ghost predicate BlockRowInside(blocks: nat -> seq<Plane>, width: nat, y: nat, endY: nat, k: nat, b: nat,
      height: nat) {
    Inside(Joined(BlockRowParts(blocks, width, y, endY, k), b), width, height)
  }

  ghost predicate BlockRowDone(dst: array<byte>, d: seq<byte>, blocks: nat -> seq<Plane>, width: nat, y: nat, endY: nat,
      k: nat, b: nat, height: nat)
    reads dst
  {
    |d| == ImageBytes(width, height) && BlockRowInside(blocks, width, y, endY, k, b, height)
    && dst[..] == Apply(d, Joined(BlockRowParts(blocks, width, y, endY, k), b), width, height)
  }

  /** `blocks` lists what the task's blocks decode to. */
  ghost predicate Lists(blocks: nat -> seq<Plane>, mem: Memory, t: Task) {
    forall k: nat {:trigger Planes(mem, t, k)} :: blocks(k) == Planes(mem, t, k)
  }

  method DecodeListed(mem: Memory, t: Task, src: nat, dst: array<byte>, at: nat, x: nat, y: nat, stride: nat,
                      ghost blocks: nat -> seq<Plane>, ghost k: nat, ghost height: nat)
    requires Frames(dst, at, x, y, t.width, t.endY, stride, height) && src == BlockAddress(t, k)
        && Lists(blocks, mem, t)
    modifies dst
    ensures BlockDone(dst, old(dst[..]), blocks(k), x, y, t.width, t.endY, |blocks(k)|, height)
  {
    DecodeBlock(mem, t, src, dst, at, x, y, stride, k, height);
    assert blocks(k) == Planes(mem, t, k);
  }

  method DecodeNextBlock(mem: Memory, t: Task, src: nat, dst: array<byte>, at: nat, x: nat, y: nat, stride: nat,
                         ghost d: seq<byte>, ghost blocks: nat -> seq<Plane>, ghost k: nat, ghost b: nat,
                         ghost height: nat)
    requires Frames(dst, at, x, y, t.width, t.endY, stride, height) && x == 4 * b && src == BlockAddress(t, k + b)
    requires BlockRowDone(dst, d, blocks, t.width, y, t.endY, k, b, height)
    requires Lists(blocks, mem, t)
    modifies dst
    ensures BlockRowDone(dst, d, blocks, t.width, y, t.endY, k, b + 1, height)
  {
    BlockRowStep(d, blocks, t.width, y, t.endY, k, b, height);
    DecodeListed(mem, t, src, dst, at, x, y, stride, blocks, k + b, height);
  }

  /** The inner loop of BCDecoder_decodeThread: a row of blocks whose first has number `k`. */
  method DecodeBlockRow(mem: Memory, t: Task, src0: nat, dst: array<byte>, at: nat, y: nat, stride: nat,
                        ghost blocks: nat -> seq<Plane>, ghost k: nat, ghost height: nat) returns (src: nat)
    requires dst.Length == ImageBytes(t.width, height) && y < t.endY <= height && stride == t.width * 4
    requires at == Flat(t.width, y, 0, 0) && src0 == BlockAddress(t, k)
    requires Lists(blocks, mem, t)
    modifies dst
    ensures src == BlockAddress(t, k + BlockWidth(t.width))
    ensures BlockRowDone(dst, old(dst[..]), blocks, t.width, y, t.endY, k, BlockWidth(t.width), height)
  {
    ghost var d, b: nat := dst[..], 0;
    var x, dstRow := 0, at;
    src := src0;
    while x < t.width
      invariant x == 4 * b && dstRow == at + 4 * x && b <= BlockWidth(t.width)
      invariant src == BlockAddress(t, k + b)
      invariant BlockRowDone(dst, d, blocks, t.width, y, t.endY, k, b, height)
    {
      DecodeNextBlock(mem, t, src, dst, dstRow, x, y, stride, d, blocks, k, b, height);
      x, src, dstRow, b := x + 4, src + BlockStride(t.bcN), dstRow + 16, b + 1;
    }
  }

  ghost predicate RowsDone(dst: array<byte>, d: seq<byte>, blocks: nat -> seq<Plane>, width: nat, startY: nat,
      endY: nat, n: nat, height: nat)
    reads dst
  {
    |d| == ImageBytes(width, height) && Inside(Joined(RowsParts(blocks, width, startY, endY), n), width, height)
    && dst[..] == Apply(d, Joined(RowsParts(blocks, width, startY, endY), n), width, height)
  }

  lemma RowsStep(d: seq<byte>, blocks: nat -> seq<Plane>, width: nat, startY: nat, endY: nat, n: nat, height: nat)
    requires |d| == ImageBytes(width, height) && startY + 4 * n < endY <= height
    ensures Inside(Joined(RowsParts(blocks, width, startY, endY), n), width, height)
    ensures Inside(Joined(RowsParts(blocks, width, startY, endY), n + 1), width, height)
    ensures Inside(RowOfBlocks(blocks, width, startY, endY, n), width, height)
    ensures Apply(Apply(d, Joined(RowsParts(blocks, width, startY, endY), n), width, height),
                  RowOfBlocks(blocks, width, startY, endY, n), width, height)
      == Apply(d, Joined(RowsParts(blocks, width, startY, endY), n + 1), width, height)
  {
    var parts := RowsParts(blocks, width, startY, endY);
    forall i: nat | i < n + 1
      ensures Inside(parts(i), width, height)
    {
      RowOfBlocksInside(blocks, width, startY, endY, i, height);
    }
    JoinedInside(parts, n, width, height);
    JoinedInside(parts, n + 1, width, height);
    ApplyConcat(d, Joined(parts, n), parts(n), width, height);
  }

  method DecodeNextRow(mem: Memory, t: Task, src0: nat, dst: array<byte>, at: nat, y: nat, stride: nat,
                       ghost d: seq<byte>, ghost blocks: nat -> seq<Plane>, ghost br: nat, ghost height: nat)
    returns (src: nat)
    requires dst.Length == ImageBytes(t.width, height) && y == t.startY + 4 * br && y < t.endY <= height
        && stride == t.width * 4
    requires at == Flat(t.width, y, 0, 0) && src0 == BlockAddress(t, Times(br, BlockWidth(t.width)))
    requires Lists(blocks, mem, t) && RowsDone(dst, d, blocks, t.width, t.startY, t.endY, br, height)
    modifies dst
    ensures src == BlockAddress(t, Times(br + 1, BlockWidth(t.width)))
    ensures RowsDone(dst, d, blocks, t.width, t.startY, t.endY, br + 1, height)
  {
    RowsStep(d, blocks, t.width, t.startY, t.endY, br, height);
    src := DecodeBlockRow(mem, t, src0, dst, at, y, stride, blocks, Times(br, BlockWidth(t.width)), height);
  }

  /** The outer loop of BCDecoder_decodeThread. */
  method DecodeRows(mem: Memory, t: Task, dst: array<byte>, ghost blocks: nat -> seq<Plane>, ghost height: nat)
    requires dst.Length == ImageBytes(t.width, height) && t.startY <= t.endY <= height
        && t.dst == Flat(t.width, t.startY, 0, 0)
    requires Lists(blocks, mem, t)
    modifies dst
    ensures RowsDone(dst, old(dst[..]), blocks, t.width, t.startY, t.endY, BlockRows(t.startY, t.endY), height)
  {
    ghost var d, br: nat := dst[..], 0;
    var stride := t.width * 4;
    var dy := stride * 4;
    var y, src, at := t.startY, t.src, t.dst;
    while y < t.endY
      invariant y == t.startY + 4 * br && br <= BlockRows(t.startY, t.endY) && at == Flat(t.width, y, 0, 0)
      invariant src == BlockAddress(t, Times(br, BlockWidth(t.width)))
      invariant RowsDone(dst, d, blocks, t.width, t.startY, t.endY, br, height)
    {
      RowAddress(t.width, y, 0, 4);
      RowCount(t.startY, t.endY, br);
      src := DecodeNextRow(mem, t, src, dst, at, y, stride, d, blocks, br, height);
      y, at, br := y + 4, at + dy, br + 1;
    }
    RowCount(t.startY, t.endY, br);
  }

  lemma RowCount(startY: nat, endY: nat, br: nat)
    requires startY <= endY && br <= BlockRows(startY, endY)
    ensures startY + 4 * br < endY <==> br < BlockRows(startY, endY)
  {}

  /** BCDecoder_decodeThread leaves exactly the stores listed for its task. */
  method DecodeThread(mem: Memory, t: Task, dst: array<byte>, ghost height: nat)
    requires dst.Length == ImageBytes(t.width, height) && t.startY <= t.endY <= height
        && t.dst == Flat(t.width, t.startY, 0, 0)
    modifies dst
    ensures Inside(ThreadWrites(mem, t), t.width, height)
    ensures dst[..] == Apply(old(dst[..]), ThreadWrites(mem, t), t.width, height)
  {
    DecodeRows(mem, t, dst, Blocks(mem, t), height);
  }

  // ---- all tasks of an image ----

  /** The first `i` tasks have run. */
  ghost predicate TasksDone(dst: array<byte>, d: seq<byte>, traces: seq<seq<Write>>, i: nat, width: nat, height: nat)
    reads dst
  {
    i <= |traces| && |d| == ImageBytes(width, height) && Inside(InTurn(traces, i), width, height)
    && dst[..] == Apply(d, InTurn(traces, i), width, height)
  }

  method RunTask(mem: Memory, t: Task, dst: array<byte>, ghost d: seq<byte>, ghost traces: seq<seq<Write>>,
      ghost i: nat, ghost height: nat)
    requires dst.Length == ImageBytes(t.width, height) && t.startY <= t.endY <= height
        && t.dst == Flat(t.width, t.startY, 0, 0)
    requires TasksDone(dst, d, traces, i, t.width, height) && i < |traces| && traces[i] == ThreadWrites(mem, t)
    modifies dst
    ensures TasksDone(dst, d, traces, i + 1, t.width, height)
  {
    DecodeThread(mem, t, dst, height);
    ApplyConcat(d, InTurn(traces, i), traces[i], t.width, height);
  }

  lemma TaskFrame(mem: Memory, img: Image, n: nat, i: nat)
    requires Splits(img, n) && Fits16(img) && i < n
    ensures var t := PlanTask(img, n, i);
      && t.width == img.width && t.startY <= t.endY <= img.height && t.dst == Flat(t.width, t.startY, 0, 0)
      && Traces(mem, img, n)[i] == ThreadWrites(mem, t)
  {
    var t, f := TaskFields(img, n, i);
    TaskSource(img, n, i);
  }

  /** BCDecoder_decode, with the tasks run in the order they are submitted; every other order
      and interleaving leaves the same image, by ParallelDecode. */
  method Decode(mem: Memory, img: Image, dst: array<byte>, hasPool: bool, threads: nat)
    requires Fits16(img) && dst.Length == ImageBytes(img.width, img.height) && (hasPool ==> threads >= 1)
    modifies dst
    ensures TasksDone(dst, old(dst[..]), Traces(mem, img, NumTasks(img.height, hasPool, threads)),
                      NumTasks(img.height, hasPool, threads), img.width, img.height)
    ensures Sound(img, NumTasks(img.height, hasPool, threads)) ==> dst[..] == Decoded(mem, img, old(dst[..]))
  {
    ghost var d := dst[..];
    var n := NumTasks(img.height, hasPool, threads);
    ghost var traces := Traces(mem, img, n);
    for i := 0 to n
      invariant TasksDone(dst, d, traces, i, img.width, img.height)
    {
      TaskFrame(mem, img, n, i);
      RunTask(mem, PlanTask(img, n, i), dst, d, traces, i, img.height);
    }
    InTurnInterleaves(traces, n);
    if Sound(img, n) { ParallelDecode(mem, img, n, InTurn(traces, n), d); }
  }
}
