/** Decoding a whole BC image: the nested loops of BCDecoder_decodeThread over the blocks of
    a task, the clipping at the image's edges, and the split of BCDecoder_decode into tasks
    that run in parallel. A task's stores are listed in order as `Write`s, so that an
    arbitrary interleaving of the tasks is an interleaving of lists. TaskSplit has the split
    and DecodeLoops the loops. */
module BlockDecoder {
  import opened Bits
  import opened BlockPalette
  import opened Options

  /** The compressed image and whatever lies behind it in memory. */
  type Memory = nat -> byte

  function U16(mem: Memory, a: nat): nat { mem(a) as int + 256 * mem(a + 1) as int }
  function U32(mem: Memory, a: nat): nat { U16(mem, a) + 0x1_0000 * U16(mem, a + 2) }
  function U64(mem: Memory, a: nat): nat { U32(mem, a) + WRAP * U32(mem, a + 4) }

  /** The block's fields are stored with the low byte first. */
  lemma LoadedBytes(mem: Memory, a: nat)
    ensures U16(mem, a) == mem(a) as int + 0x100 * mem(a + 1) as int
    ensures U32(mem, a) == mem(a) as int + 0x100 * mem(a + 1) as int
                         + 0x1_0000 * mem(a + 2) as int + 0x100_0000 * mem(a + 3) as int
    ensures U64(mem, a) == U32(mem, a) + 0x1_0000_0000 * mem(a + 4) as int + 0x100_0000_0000 * mem(a + 5) as int
                         + 0x1_0000_0000_0000 * mem(a + 6) as int + 0x100_0000_0000_0000 * mem(a + 7) as int
  {
    assert (a + 2) + 1 == a + 3 && (a + 4) + 1 == a + 5 && (a + 4) + 2 == a + 6 && (a + 6) + 1 == a + 7;
  }

  function Over(a: Option<byte>, b: Option<byte>): Option<byte> { if b.Some? then b else a }

  /** What one call of decodeColor, decodeChannel or decodeAlpha stores: for each texel of
      the block and each channel, a byte or nothing. */
  type Plane = (nat, nat) -> Option<byte>

  function ColorPlane(c0: nat, c1: nat, idx: nat, hasAlpha: bool, separate: bool): Plane {
    (i: nat, ch: nat) => if ch < 4 then Some(ColorTexel(c0, c1, idx, hasAlpha, separate, i, ch)) else None
  }

  function ChannelPlane(data: nat, channel: nat, isSigned: bool): Plane {
    (i: nat, ch: nat) => if ch == channel then Some(ChannelTexel(data, isSigned, i)) else None
  }

  function AlphaPlane(data: nat): Plane {
    (i: nat, ch: nat) => if ch == 3 then Some(Alpha(data, i)) else None
  }

  // ---- stores and what they leave ----

  datatype Write = Write(row: nat, col: nat, ch: nat, v: byte)

  /** What a list of stores leaves at a place: the last value stored there. */
  function LastWrite(ws: seq<Write>, row: nat, col: nat, ch: nat): Option<byte> {
    if ws == [] then None
    else
      var w := ws[|ws| - 1];
      if w.row == row && w.col == col && w.ch == ch then Some(w.v)
      else LastWrite(ws[..|ws| - 1], row, col, ch)
  }

  lemma {:induction false} LastWriteConcat(a: seq<Write>, b: seq<Write>, row: nat, col: nat, ch: nat)
    ensures LastWrite(a + b, row, col, ch) == Over(LastWrite(a, row, col, ch), LastWrite(b, row, col, ch))
    decreases |b|
  {
    if b == [] {
      assert a + b == a;
    } else {
      var b' := b[..|b| - 1];
      assert (a + b)[..|a + b| - 1] == a + b';
      LastWriteConcat(a, b', row, col, ch);
    }
  }

  /** `n` lists of stores, one after the other. */
  function Joined(parts: nat -> seq<Write>, n: nat): seq<Write> {
    if n == 0 then [] else Joined(parts, n - 1) + parts(n - 1)
  }

  /** When at most part `m` stores to a place, part `m` decides what the place holds. */
  lemma {:induction false} OnePartDecides(parts: nat -> seq<Write>, n: nat, m: nat, row: nat, col: nat, ch: nat)
    requires forall k: nat | k < n && k != m :: LastWrite(parts(k), row, col, ch) == None
    ensures LastWrite(Joined(parts, n), row, col, ch)
         == if m < n then LastWrite(parts(m), row, col, ch) else None
    decreases n
  {
    if n > 0 {
      OnePartDecides(parts, n - 1, m, row, col, ch);
      LastWriteConcat(Joined(parts, n - 1), parts(n - 1), row, col, ch);
    }
  }

  /** The index of a byte in the decoded image, four bytes a pixel, and the image's size. */
  function Flat(width: nat, row: nat, col: nat, ch: nat): nat {
    4 * (Times(row, width) + col) + ch
  }

  function ImageBytes(width: nat, height: nat): nat { 4 * Times(height, width) }

  /** Rows follow each other without padding, and a pixel's four channels are together. */
  lemma FlatMeans(width: nat, height: nat, row: nat, col: nat, ch: nat)
    ensures Flat(width, row, col, ch) == 4 * (row * width + col) + ch
    ensures ImageBytes(width, height) == 4 * (height * width)
  {
    TimesIsProduct(row, width);
    TimesIsProduct(height, width);
  }

  /** A list of stores that stays inside an image. */
  ghost predicate Inside(ws: seq<Write>, width: nat, height: nat) {
    forall i | 0 <= i < |ws| :: ws[i].row < height && ws[i].col < width && ws[i].ch < 4
  }

  lemma FlatInside(width: nat, height: nat, row: nat, col: nat, ch: nat)
    requires row < height && col < width && ch < 4
    ensures Flat(width, row, col, ch) < ImageBytes(width, height)
  {
    TimesMore(row + 1, height, width);
  }

  lemma FlatInjective(width: nat, r: nat, c: nat, h: nat, r': nat, c': nat, h': nat)
    requires c < width && c' < width && h < 4 && h' < 4
    requires Flat(width, r, c, h) == Flat(width, r', c', h')
    ensures r == r' && c == c' && h == h'
  {
    if r < r' { TimesMore(r + 1, r', width); }
    if r' < r { TimesMore(r' + 1, r, width); }
  }

  /** The image after a list of stores. */
  function Apply(d: seq<byte>, ws: seq<Write>, width: nat, height: nat): (r: seq<byte>)
    requires |d| == ImageBytes(width, height) && Inside(ws, width, height)
    ensures |r| == |d|
  {
    if ws == [] then d
    else
      var w := ws[|ws| - 1];
      FlatInside(width, height, w.row, w.col, w.ch);
      Apply(d, ws[..|ws| - 1], width, height)[Flat(width, w.row, w.col, w.ch) := w.v]
  }

  lemma {:induction false} ApplyConcat(d: seq<byte>, a: seq<Write>, b: seq<Write>, width: nat, height: nat)
    requires |d| == ImageBytes(width, height) && Inside(a, width, height) && Inside(b, width, height)
    ensures Inside(a + b, width, height)
    ensures Apply(Apply(d, a, width, height), b, width, height) == Apply(d, a + b, width, height)
    decreases |b|
  {
    if b == [] {
      assert a + b == a;
    } else {
      var b' := b[..|b| - 1];
      assert (a + b)[..|a + b| - 1] == a + b';
      ApplyConcat(d, a, b', width, height);
    }
  }

  /** Each byte of the image holds the last value stored to it, or what it held before. */
  lemma {:induction false} ApplyIsLastWrite(d: seq<byte>, ws: seq<Write>, width: nat, height: nat, row: nat, col: nat,
      ch: nat)
    requires |d| == ImageBytes(width, height) && Inside(ws, width, height)
    requires row < height && col < width && ch < 4
    ensures Flat(width, row, col, ch) < |d|
    ensures var at := Flat(width, row, col, ch);
      Some(Apply(d, ws, width, height)[at]) == Over(Some(d[at]), LastWrite(ws, row, col, ch))
    decreases |ws|
  {
    FlatInside(width, height, row, col, ch);
    if ws != [] {
      var w := ws[|ws| - 1];
      FlatInside(width, height, w.row, w.col, w.ch);
      ApplyIsLastWrite(d, ws[..|ws| - 1], width, height, row, col, ch);
      if Flat(width, w.row, w.col, w.ch) == Flat(width, row, col, ch) {
        FlatInjective(width, w.row, w.col, w.ch, row, col, ch);
      }
    }
  }

  // ---- the stores of one block ----

  /** The first `n` channels of one texel. */
  function TexelWrites(p: Plane, row: nat, col: nat, i: nat, n: nat): seq<Write> {
    if n == 0 then []
    else TexelWrites(p, row, col, i, n - 1)
         + (if p(i, n - 1).Some? then [Write(row, col, n - 1, p(i, n - 1).value)] else [])
  }

  /** How many texels of a block are inside, from `x` on. */
  function Clip(x: nat, end: nat): nat {
    if x + 4 <= end then 4 else if x < end then end - x else 0
  }

  /** The texels of row `j` of a block at column `x`. */
  function RowParts(p: Plane, x: nat, row: nat, j: nat): nat -> seq<Write> {
    (i: nat) => TexelWrites(p, row, x + i, 4 * j + i, 4)
  }

  /** The rows of a block at (x, y), clipped at the right edge. */
  function PlaneParts(p: Plane, x: nat, y: nat, width: nat): nat -> seq<Write> {
    (j: nat) => Joined(RowParts(p, x, y + j, j), Clip(x, width))
  }

  /** The first `m` rows of a block at (x, y). */
  function PlaneWrites(p: Plane, x: nat, y: nat, width: nat, m: nat): seq<Write> {
    Joined(PlaneParts(p, x, y, width), m)
  }

  lemma TexelStep(p: Plane, row: nat, col: nat, i: nat, n: nat)
    requires n > 0
    ensures TexelWrites(p, row, col, i, n)
         == if p(i, n - 1).Some? then TexelWrites(p, row, col, i, n - 1) + [Write(row, col, n - 1, p(i, n - 1).value)]
            else TexelWrites(p, row, col, i, n - 1)
  {
    var before := TexelWrites(p, row, col, i, n - 1);
    assert before + [] == before;
  }

  lemma {:induction false} TexelWritten(p: Plane, row: nat, col: nat, i: nat, n: nat, r: nat, c: nat, ch: nat)
    ensures LastWrite(TexelWrites(p, row, col, i, n), r, c, ch)
         == if r == row && c == col && ch < n then p(i, ch) else None
    decreases n
  {
    if n > 0 {
      TexelWritten(p, row, col, i, n - 1, r, c, ch);
      TexelStep(p, row, col, i, n);
      if p(i, n - 1).Some? {
        LastWriteSnoc(TexelWrites(p, row, col, i, n - 1), Write(row, col, n - 1, p(i, n - 1).value), r, c, ch);
      }
    }
  }

  lemma LastWriteSnoc(ws: seq<Write>, w: Write, r: nat, c: nat, ch: nat)
    ensures LastWrite(ws + [w], r, c, ch)
         == if w.row == r && w.col == c && w.ch == ch then Some(w.v) else LastWrite(ws, r, c, ch)
  {
    assert (ws + [w])[..|ws|] == ws;
  }

  lemma RowWritten(p: Plane, x: nat, row: nat, j: nat, n: nat, r: nat, c: nat, ch: nat)
    requires ch < 4
    ensures LastWrite(Joined(RowParts(p, x, row, j), n), r, c, ch)
         == if r == row && x <= c < x + n then p(4 * j + (c - x), ch) else None
  {
    var parts := RowParts(p, x, row, j);
    forall i: nat
      ensures LastWrite(parts(i), r, c, ch) == if r == row && c == x + i then p(4 * j + i, ch) else None
    {
      TexelWritten(p, row, x + i, 4 * j + i, 4, r, c, ch);
    }
    OnePartDecides(parts, n, if x <= c then c - x else n, r, c, ch);
  }

  lemma PlaneWritten(p: Plane, x: nat, y: nat, width: nat, m: nat, r: nat, c: nat, ch: nat)
    requires ch < 4
    ensures LastWrite(PlaneWrites(p, x, y, width, m), r, c, ch)
         == if y <= r < y + m && x <= c < x + Clip(x, width) then p(4 * (r - y) + (c - x), ch) else None
  {
    var parts := PlaneParts(p, x, y, width);
    forall j: nat
      ensures LastWrite(parts(j), r, c, ch)
           == if r == y + j && x <= c < x + Clip(x, width) then p(4 * j + (c - x), ch) else None
    {
      RowWritten(p, x, y + j, j, Clip(x, width), r, c, ch);
    }
    OnePartDecides(parts, m, if y <= r then r - y else m, r, c, ch);
  }

  // ---- the stores of a task ----

  /** BCTask: `src` and `dst` are offsets from the start of the two images. */
  datatype Task = Task(src: nat, dst: nat, width: nat, startY: nat, endY: nat, bcN: nat, isAlpha: bool, isSigned: bool)

  function BlockWidth(width: nat): nat { (width + 3) / 4 }

  /** What the loop body decodes for the k-th block of a task, in order: the pointers advance
      by eight bytes a block for bcN 1 and 4, and by sixteen otherwise. */
  function Planes(mem: Memory, t: Task, k: nat): seq<Plane> {
    var a8, a16 := t.src + 8 * k, t.src + 16 * k;
    if t.bcN == 1 then
      [ColorPlane(U16(mem, a8), U16(mem, a8 + 2), U32(mem, a8 + 4), t.isAlpha, false)]
    else if t.bcN == 2 then
      [ColorPlane(U16(mem, a16 + 8), U16(mem, a16 + 10), U32(mem, a16 + 12), t.isAlpha, true),
          AlphaPlane(U64(mem, a16))]
    else if t.bcN == 3 then
      [ColorPlane(U16(mem, a16 + 8), U16(mem, a16 + 10), U32(mem, a16 + 12), t.isAlpha, true),
       ChannelPlane(U64(mem, a16), 3, t.isSigned)]
    else if t.bcN == 4 then
      [ChannelPlane(U64(mem, a8), 0, t.isSigned)]
    else if t.bcN == 5 then
      [ChannelPlane(U64(mem, a16), 0, t.isSigned), ChannelPlane(U64(mem, a16 + 8), 1, t.isSigned)]
    else []
  }

  /** The first `n` planes of a block, one over the other. */
  function Texel(planes: seq<Plane>, n: nat, i: nat, ch: nat): Option<byte>
    requires n <= |planes|
  {
    if n == 0 then None else Over(Texel(planes, n - 1, i, ch), planes[n - 1](i, ch))
  }

  function BlockWrites(planes: seq<Plane>, x: nat, y: nat, width: nat, m: nat, n: nat): seq<Write>
    requires n <= |planes|
  {
    if n == 0 then [] else BlockWrites(planes, x, y, width, m, n - 1) + PlaneWrites(planes[n - 1], x, y, width, m)
  }

  /** The blocks of a task, by running number. */
  function Blocks(mem: Memory, t: Task): nat -> seq<Plane> {
    (k: nat) => Planes(mem, t, k)
  }

  /** The blocks of the row of blocks that starts at pixel row `y` and at running number
      `k`, and the rows of blocks of a task. */
  function BlockRowParts(blocks: nat -> seq<Plane>, width: nat, y: nat, endY: nat, k: nat): nat -> seq<Write> {
    (b: nat) => BlockWrites(blocks(k + b), 4 * b, y, width, Clip(y, endY), |blocks(k + b)|)
  }

  function RowOfBlocks(blocks: nat -> seq<Plane>, width: nat, startY: nat, endY: nat, br: nat): seq<Write> {
    var bw := BlockWidth(width);
    Joined(BlockRowParts(blocks, width, startY + 4 * br, endY, Times(br, bw)), bw)
  }

  function RowsParts(blocks: nat -> seq<Plane>, width: nat, startY: nat, endY: nat): nat -> seq<Write> {
    (br: nat) => RowOfBlocks(blocks, width, startY, endY, br)
  }

  function BlockRows(startY: nat, endY: nat): nat {
    if endY <= startY then 0 else (endY - startY + 3) / 4
  }

  /** All stores of a task over the given blocks, in order. */
  function TaskWrites(blocks: nat -> seq<Plane>, width: nat, startY: nat, endY: nat): seq<Write> {
    Joined(RowsParts(blocks, width, startY, endY), BlockRows(startY, endY))
  }

  /** All stores of BCDecoder_decodeThread, in order. */
  function ThreadWrites(mem: Memory, t: Task): seq<Write> {
    TaskWrites(Blocks(mem, t), t.width, t.startY, t.endY)
  }

  /** What a block holds for the texel of index `i`. */
  function BlockTexel(planes: seq<Plane>, i: nat, ch: nat): Option<byte> {
    Texel(planes, |planes|, i, ch)
  }

  lemma {:induction false} BlockWritten(planes: seq<Plane>, x: nat, y: nat, width: nat, m: nat, n: nat, r: nat, c: nat,
      ch: nat)
    requires ch < 4 && n <= |planes|
    ensures LastWrite(BlockWrites(planes, x, y, width, m, n), r, c, ch)
         == if y <= r < y + m && x <= c < x + Clip(x, width) then Texel(planes, n, 4 * (r - y) + (c - x), ch) else None
    decreases n
  {
    if n > 0 {
      var before, p := BlockWrites(planes, x, y, width, m, n - 1), planes[n - 1];
      BlockWritten(planes, x, y, width, m, n - 1, r, c, ch);
      LastWriteConcat(before, PlaneWrites(p, x, y, width, m), r, c, ch);
      var last := LastWrite(PlaneWrites(p, x, y, width, m), r, c, ch);
      assert last == if y <= r < y + m && x <= c < x + Clip(x, width) then p(4 * (r - y) + (c - x), ch) else None by {
        PlaneWritten(p, x, y, width, m, r, c, ch);
      }
    }
  }

  lemma BlockAt(planes: seq<Plane>, n: nat, y: nat, endY: nat, width: nat, r: nat, bc: nat, i: nat, ch: nat)
    requires ch < 4 && i < 4
    ensures LastWrite(BlockWrites(planes, 4 * n, y, width, Clip(y, endY), |planes|), r, 4 * bc + i, ch)
      == if y <= r < y + Clip(y, endY) && bc == n && 4 * bc + i < width
         then BlockTexel(planes, 4 * (r - y) + i, ch) else None
  {
    BlockWritten(planes, 4 * n, y, width, Clip(y, endY), |planes|, r, 4 * bc + i, ch);
  }

  /** Pixel column 4 bc + i of a row of `n` blocks. */
  lemma BlockRowWritten(blocks: nat -> seq<Plane>, width: nat, y: nat, endY: nat, k: nat, n: nat,
                        r: nat, bc: nat, i: nat, ch: nat)
    requires ch < 4 && i < 4
    ensures LastWrite(Joined(BlockRowParts(blocks, width, y, endY, k), n), r, 4 * bc + i, ch)
      == if y <= r < y + Clip(y, endY) && bc < n && 4 * bc + i < width
         then BlockTexel(blocks(k + bc), 4 * (r - y) + i, ch) else None
  {
    var parts := BlockRowParts(blocks, width, y, endY, k);
    forall b: nat
      ensures LastWrite(parts(b), r, 4 * bc + i, ch)
        == if y <= r < y + Clip(y, endY) && bc == b && 4 * bc + i < width
           then BlockTexel(blocks(k + b), 4 * (r - y) + i, ch) else None
    {
      BlockAt(blocks(k + b), b, y, endY, width, r, bc, i, ch);
    }
    OnePartDecides(parts, n, bc, r, 4 * bc + i, ch);
  }

  lemma WidthCovered(width: nat)
    ensures width <= 4 * BlockWidth(width) < width + 4
  {}

  /** One row of blocks of a task. */
  lemma RowsPart(blocks: nat -> seq<Plane>, width: nat, startY: nat, endY: nat, b: nat, r: nat, bc: nat, i: nat,
      ch: nat)
    requires ch < 4 && i < 4
    ensures var y := startY + 4 * b;
      LastWrite(RowOfBlocks(blocks, width, startY, endY, b), r, 4 * bc + i, ch)
      == if y <= r < y + 4 && r < endY && 4 * bc + i < width
         then BlockTexel(blocks(Times(b, BlockWidth(width)) + bc), 4 * (r - y) + i, ch) else None
  {
    var bw := BlockWidth(width);
    WidthCovered(width);
    BlockRowWritten(blocks, width, startY + 4 * b, endY, Times(b, bw), bw, r, bc, i, ch);
  }

  /** Pixel (startY + 4 br + j, 4 bc + i) of a task of `n` rows of blocks. */
  lemma RowsWritten(blocks: nat -> seq<Plane>, width: nat, startY: nat, endY: nat, n: nat,
                    br: nat, j: nat, bc: nat, i: nat, ch: nat)
    requires ch < 4 && i < 4 && j < 4
    ensures LastWrite(Joined(RowsParts(blocks, width, startY, endY), n), startY + 4 * br + j, 4 * bc + i, ch)
      == if br < n && startY + 4 * br + j < endY && 4 * bc + i < width
         then BlockTexel(blocks(Times(br, BlockWidth(width)) + bc), 4 * j + i, ch) else None
  {
    OtherParts(blocks, width, startY, endY, br, j, bc, i, ch);
    OwnRow(blocks, width, startY, endY, br, j, bc, i, ch);
    OnePartDecides(RowsParts(blocks, width, startY, endY), n, br, startY + 4 * br + j, 4 * bc + i, ch);
  }

  lemma OtherParts(blocks: nat -> seq<Plane>, width: nat, startY: nat, endY: nat, br: nat, j: nat, bc: nat, i: nat,
      ch: nat)
    requires ch < 4 && i < 4 && j < 4
    ensures forall b: nat | b != br ::
              LastWrite(RowsParts(blocks, width, startY, endY)(b), startY + 4 * br + j, 4 * bc + i, ch) == None
  {
    forall b: nat | b != br
      ensures LastWrite(RowsParts(blocks, width, startY, endY)(b), startY + 4 * br + j, 4 * bc + i, ch) == None
    {
      OtherRows(blocks, width, startY, endY, b, br, j, bc, i, ch);
    }
  }

  lemma OtherRows(blocks: nat -> seq<Plane>, width: nat, startY: nat, endY: nat, b: nat, br: nat, j: nat, bc: nat,
      i: nat, ch: nat)
    requires ch < 4 && i < 4 && j < 4 && b != br
    ensures LastWrite(RowOfBlocks(blocks, width, startY, endY, b), startY + 4 * br + j, 4 * bc + i, ch) == None
  {
    RowsPart(blocks, width, startY, endY, b, startY + 4 * br + j, bc, i, ch);
  }

  lemma OwnRow(blocks: nat -> seq<Plane>, width: nat, startY: nat, endY: nat, br: nat, j: nat, bc: nat, i: nat, ch: nat)
    requires ch < 4 && i < 4 && j < 4
    ensures LastWrite(RowOfBlocks(blocks, width, startY, endY, br), startY + 4 * br + j, 4 * bc + i, ch)
      == if startY + 4 * br + j < endY && 4 * bc + i < width
         then BlockTexel(blocks(Times(br, BlockWidth(width)) + bc), 4 * j + i, ch) else None
  {
    RowsPart(blocks, width, startY, endY, br, startY + 4 * br + j, bc, i, ch);
  }

  lemma RowsStartAt(blocks: nat -> seq<Plane>, width: nat, startY: nat, endY: nat, n: nat, r: nat, bc: nat, i: nat,
      ch: nat)
    requires r < startY && ch < 4 && i < 4
    ensures LastWrite(Joined(RowsParts(blocks, width, startY, endY), n), r, 4 * bc + i, ch) == None
  {
    var parts := RowsParts(blocks, width, startY, endY);
    forall b: nat
      ensures LastWrite(parts(b), r, 4 * bc + i, ch) == None
    {
      RowsPart(blocks, width, startY, endY, b, r, bc, i, ch);
    }
    OnePartDecides(parts, n, n, r, 4 * bc + i, ch);
  }

  /** Texel (j, i) of block (br, bc) of a grid of blocks. */
  function CellTexel(blocks: nat -> seq<Plane>, width: nat, br: nat, j: nat, bc: nat, i: nat, ch: nat): Option<byte> {
    BlockTexel(blocks(Times(br, BlockWidth(width)) + bc), 4 * j + i, ch)
  }

  /** A task writes exactly the pixels of its rows, each with the texel its block holds. */
  lemma TaskWritten(blocks: nat -> seq<Plane>, width: nat, startY: nat, endY: nat, br: nat, j: nat, bc: nat, i: nat,
      ch: nat)
    requires ch < 4 && i < 4 && j < 4
    ensures LastWrite(TaskWrites(blocks, width, startY, endY), startY + 4 * br + j, 4 * bc + i, ch)
      == if startY + 4 * br + j < endY && 4 * bc + i < width
         then CellTexel(blocks, width, br, j, bc, i, ch) else None
  {
    RowsCovered(startY, endY, br, j);
    RowsWritten(blocks, width, startY, endY, BlockRows(startY, endY), br, j, bc, i, ch);
  }

  lemma RowsCovered(startY: nat, endY: nat, br: nat, j: nat)
    ensures startY + 4 * br + j < endY ==> br < BlockRows(startY, endY)
  {}

  /** And no pixel outside its rows. */
  lemma OutsideTask(blocks: nat -> seq<Plane>, width: nat, startY: nat, endY: nat, r: nat, c: nat, ch: nat)
    requires ch < 4 && !(startY <= r < endY)
    ensures LastWrite(TaskWrites(blocks, width, startY, endY), r, c, ch) == None
  {
    assert c == 4 * (c / 4) + c % 4;
    if r < startY {
      RowsStartAt(blocks, width, startY, endY, BlockRows(startY, endY), r, c / 4, c % 4, ch);
    } else {
      var br, j := (r - startY) / 4, (r - startY) % 4;
      assert r == startY + 4 * br + j;
      TaskWritten(blocks, width, startY, endY, br, j, c / 4, c % 4, ch);
    }
  }

  lemma {:induction false} JoinedInside(parts: nat -> seq<Write>, n: nat, width: nat, height: nat)
    requires forall k: nat | k < n :: Inside(parts(k), width, height)
    ensures Inside(Joined(parts, n), width, height)
    decreases n
  {
    if n > 0 { JoinedInside(parts, n - 1, width, height); }
  }

  lemma {:induction false} TexelInside(p: Plane, row: nat, col: nat, i: nat, n: nat, width: nat, height: nat)
    requires row < height && col < width && n <= 4
    ensures Inside(TexelWrites(p, row, col, i, n), width, height)
    decreases n
  {
    if n > 0 { TexelInside(p, row, col, i, n - 1, width, height); }
  }

  lemma PlaneInside(p: Plane, x: nat, y: nat, width: nat, m: nat, height: nat)
    requires y + m <= height
    ensures Inside(PlaneWrites(p, x, y, width, m), width, height)
  {
    forall j: nat | j < m
      ensures Inside(PlaneParts(p, x, y, width)(j), width, height)
    {
      RowInside(p, x, y + j, j, Clip(x, width), width, height);
    }
    JoinedInside(PlaneParts(p, x, y, width), m, width, height);
  }

  lemma RowInside(p: Plane, x: nat, row: nat, j: nat, n: nat, width: nat, height: nat)
    requires row < height && (n > 0 ==> x + n <= width)
    ensures Inside(Joined(RowParts(p, x, row, j), n), width, height)
  {
    forall i: nat | i < n
      ensures Inside(RowParts(p, x, row, j)(i), width, height)
    {
      TexelInside(p, row, x + i, 4 * j + i, 4, width, height);
    }
    JoinedInside(RowParts(p, x, row, j), n, width, height);
  }

  lemma {:induction false} BlockInside(planes: seq<Plane>, x: nat, y: nat, width: nat, m: nat, n: nat, height: nat)
    requires n <= |planes| && y + m <= height
    ensures Inside(BlockWrites(planes, x, y, width, m, n), width, height)
    decreases n
  {
    if n > 0 {
      BlockInside(planes, x, y, width, m, n - 1, height);
      PlaneInside(planes[n - 1], x, y, width, m, height);
    }
  }

  lemma RowOfBlocksInside(blocks: nat -> seq<Plane>, width: nat, startY: nat, endY: nat, br: nat, height: nat)
    requires endY <= height && startY + 4 * br < endY
    ensures Inside(RowOfBlocks(blocks, width, startY, endY, br), width, height)
  {
    var y, k, bw := startY + 4 * br, Times(br, BlockWidth(width)), BlockWidth(width);
    var parts := BlockRowParts(blocks, width, y, endY, k);
    forall b: nat | b < bw
      ensures Inside(parts(b), width, height)
    {
      BlockInside(blocks(k + b), 4 * b, y, width, Clip(y, endY), |blocks(k + b)|, height);
    }
    JoinedInside(parts, bw, width, height);
  }

  lemma TaskInside(blocks: nat -> seq<Plane>, width: nat, startY: nat, endY: nat, height: nat)
    requires endY <= height
    ensures Inside(TaskWrites(blocks, width, startY, endY), width, height)
  {
    var parts, n := RowsParts(blocks, width, startY, endY), BlockRows(startY, endY);
    forall br: nat | br < n
      ensures Inside(parts(br), width, height)
    {
      RowOfBlocksInside(blocks, width, startY, endY, br, height);
    }
    JoinedInside(parts, n, width, height);
  }
}
