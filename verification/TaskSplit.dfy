/** The split of a decode into tasks that run in parallel on the thread pool: who owns which
    rows, which block a task starts reading at, and why any interleaving of the tasks'
    stores leaves the image a single task would leave. */
module TaskSplit {
  import opened Bits
  import opened BlockPalette
  import opened BlockDecoder
  import opened Options

  /** BC_ROUNDUP and BC_ROUNDDOWN. */
  function RoundUp(x: nat): nat { x + And(Wrap32(-(x as int)), 3) }
  function RoundDown(x: nat): nat { And(x, 0xFFFF_FFFC) }

  lemma RoundUpMeans(x: nat)
    ensures RoundUp(x) / 4 == (x + 3) / 4 && RoundUp(x) % 4 == 0
  {
    LowDigits(x);
  }

  lemma LowDigits(x: nat)
    ensures And(Wrap32(-(x as int)), 3) == (-(x as int)) % 4
  {
    assert Pow2(2) == 4;
    MaskIsRemainder(Wrap32(-(x as int)), 2);
    RemainderOfRemainder(-(x as int), 4, 0x4000_0000);
  }

  lemma RoundDownMeans(x: nat)
    requires x < WRAP
    ensures RoundDown(x) == x / 4 * 4
  {
    HighMask();
    MaskedInPlace(x, 0x3FFF_FFFF, 2);
    DropTwoDigits(x);
    ShlMultiplies(x / 4, 2);
  }

  lemma HighMask()
    ensures Shl(0x3FFF_FFFF, 2) == 0xFFFF_FFFC && Pow2(30) == 0x4000_0000 && Pow2(2) == 4
  {
    Pow2Of30();
  }

  lemma DropTwoDigits(x: nat)
    requires x < WRAP
    ensures And(Shr(x, 2), 0x3FFF_FFFF) == x / 4
  {
    ShrDivides(x, 2);
    assert Pow2(2) == 4;
    LowThirty(x / 4);
  }

  lemma LowThirty(q: nat)
    requires q < 0x4000_0000
    ensures And(q, 0x3FFF_FFFF) == q
  {
    Pow2Of30();
    MaskIsRemainder(q, 30);
  }

  /** The cast to uint16_t of a task's width, startY and endY. */
  function Trunc16(x: nat): nat { x % 0x1_0000 }

  /** How many tasks BCDecoder_decode makes: `threads` is the pool's size, if it is given
      a pool. */
  function NumTasks(height: nat, hasPool: bool, threads: nat): (n: nat)
    requires hasPool ==> threads >= 1
    ensures 1 <= n <= 8 && (n > 1 ==> height >= 128)
    ensures hasPool && height >= 128 ==>
      && n <= threads && (height < 256 ==> n <= 4)
      && (n == threads || n == if height >= 256 then 8 else 4)
  {
    var minTasks := if height >= 256 then 8 else 4;
    if hasPool && height >= 128 then (if minTasks < threads then minTasks else threads) else 1
  }

  datatype Image = Image(width: nat, height: nat, bcN: nat, noAlphaU: bool)

  function Chunk(height: nat, n: nat): nat
    requires 0 < n
  {
    RoundDown(height / n)
  }

  function StartY(height: nat, n: nat, i: nat): nat
    requires 0 < n
  {
    Trunc16(Times(i, Chunk(height, n)))
  }

  function EndY(height: nat, n: nat, i: nat): nat
    requires 0 < n
  {
    if i + 1 < n then Trunc16(StartY(height, n, i) + Chunk(height, n)) else Trunc16(height)
  }

  /** The size of `blocks` blocks as BCDecoder_decode sees it: sixteen bytes each, but eight
      for bcN 1. */
  function SkipBytes(bcN: nat, blocks: nat): nat { if bcN == 1 then 8 * blocks else 16 * blocks }

  /** Task `i` of `n`: it reads from the block its rows begin at, as the code computes that
      block's address, and writes from its first row on. */
  function PlanTask(img: Image, n: nat, i: nat): Task
    requires 0 < n
  {
    var dy := 16 * img.width;
    var skipWidth := RoundUp(img.width) / 4;
    var skipHeight := RoundUp(StartY(img.height, n, i)) / 4;
    var skipped := Times(skipHeight, skipWidth);
    Task(SkipBytes(img.bcN, skipped), Times(skipHeight, dy), Trunc16(img.width),
         StartY(img.height, n, i), EndY(img.height, n, i), img.bcN,
         img.bcN == 1 && !img.noAlphaU, (img.bcN == 4 || img.bcN == 5) && !img.noAlphaU)
  }

  predicate Fits16(img: Image) {
    img.width < 0x1_0000 && img.height < 0x1_0000
  }

  /** A split that the code can ask for. */
  predicate Splits(img: Image, n: nat) {
    1 <= n <= 8 && (n > 1 ==> img.height >= 128)
  }

  lemma ChunkMeans(height: nat, n: nat)
    requires 0 < n <= 8 && height < 0x1_0000
    ensures var c := Chunk(height, n); c % 4 == 0 && Times(n, c) <= height && (height >= 128 ==> c >= 16)
    ensures height < Times(n, Chunk(height, n) + 4)
  {
    var q, c := height / n, Chunk(height, n);
    QuotientOf(height, n);
    DownToFour(q);
    TimesGrows(n, c, q);
    TimesIsProduct(n, q);
    TimesIsProduct(n, q + 1);
    Distribute(n, q, 1);
    TimesGrows(n, q + 1, c + 4);
  }

  lemma DownToFour(q: nat)
    requires q < WRAP
    ensures var c := RoundDown(q); c % 4 == 0 && c <= q < c + 4 && (q >= 16 ==> c >= 16)
  {
    RoundDownMeans(q);
  }

  lemma QuotientOf(height: nat, n: nat)
    requires 0 < n <= 8
    ensures n * (height / n) <= height < n * (height / n) + n
    ensures height / n <= height && (height >= 128 ==> height / n >= 16)
  {
    var q, r := height / n, height % n;
    assert height == n * q + r;
    Distribute(q, n - 1, 1);
  }

  lemma {:induction false} TimesOfFour(i: nat, c: nat)
    requires c % 4 == 0
    ensures Times(i, c) % 4 == 0
    decreases i
  {
    if i > 0 { TimesOfFour(i - 1, c); }
  }

  lemma SmallStays(x: nat)
    requires x < 0x1_0000
    ensures Trunc16(x) == x
  {}

  /** The rows of task `i`, as numbers: all tasks but the last get the same number of rows,
      the largest multiple of four that leaves the last task as many. */
  lemma TaskRows(height: nat, n: nat, i: nat)
    requires 1 <= n <= 8 && height < 0x1_0000 && i < n
    ensures var s, e, c := StartY(height, n, i), EndY(height, n, i), Chunk(height, n);
      && s == Times(i, c) && e == (if i + 1 < n then Times(i + 1, c) else height)
      && s <= e <= height && s % 4 == 0
      && c % 4 == 0 && Times(n, c) <= height < Times(n, c + 4)
  {
    var c := Chunk(height, n);
    ChunkMeans(height, n);
    TimesMore(i + 1, n, c);
    TimesOfFour(i, c);
    SmallStays(Times(i, c));
    SmallStays(height);
    SmallStays(Times(i + 1, c));
  }

  // ---- who owns a row ----

  /** Task `i` covers the full width of row `r`. */
  predicate Owns(img: Image, n: nat, i: nat, r: nat)
    requires 0 < n
  {
    StartY(img.height, n, i) <= r < EndY(img.height, n, i) && Trunc16(img.width) == img.width
  }

  /** Every row belongs to exactly one task. */
  lemma RowOwner(img: Image, n: nat, r: nat) returns (m: nat)
    requires Splits(img, n) && Fits16(img) && r < img.height
    ensures m < n && Owns(img, n, m, r)
    ensures forall i: nat | i < n && i != m :: !(StartY(img.height, n, i) <= r < EndY(img.height, n, i))
  {
    var c := Chunk(img.height, n);
    m := 0;
    while m + 1 < n && Times(m + 1, c) <= r
      invariant m < n && Times(m, c) <= r
    {
      m := m + 1;
    }
    TaskRows(img.height, n, m);
    SmallStays(img.width);
    forall i: nat | i < n && i != m
      ensures !(StartY(img.height, n, i) <= r < EndY(img.height, n, i))
    {
      TaskRows(img.height, n, i);
      if i < m { TimesMore(i + 1, m, c); } else { TimesMore(m + 1, i, c); }
    }
  }

  // ---- the blocks a task reads ----

  /** The image as one task would decode it. */
  function Whole(img: Image): Task {
    Task(0, 0, img.width, 0, img.height, img.bcN, img.bcN == 1 && !img.noAlphaU, (img.bcN == 4 || img.bcN == 5)
        && !img.noAlphaU)
  }

  /** The format's own account of a pixel: block (r / 4, c / 4) of the image, in reading
      order, holds it as texel 4 (r % 4) + c % 4. */
  function ImageTexel(mem: Memory, img: Image, r: nat, c: nat, ch: nat): Option<byte> {
    GridTexel(Blocks(mem, Whole(img)), img.width, r, c, ch)
  }

  function GridTexel(blocks: nat -> seq<Plane>, width: nat, r: nat, c: nat, ch: nat): Option<byte> {
    CellTexel(blocks, width, r / 4, r % 4, c / 4, c % 4, ch)
  }

  /** The number of the image's first block in task `i`'s rows. */
  function FirstBlock(img: Image, n: nat, i: nat): nat
    requires 0 < n
  {
    Times(StartY(img.height, n, i) / 4, BlockWidth(img.width))
  }

  /** Where a task starts reading and writing. */
  lemma TaskSource(img: Image, n: nat, i: nat)
    requires Splits(img, n) && Fits16(img) && i < n
    ensures var t := PlanTask(img, n, i);
      && t.src == SkipBytes(img.bcN, FirstBlock(img, n, i))
      && t.dst == 4 * Times(t.startY, img.width)
  {
    var s := StartY(img.height, n, i);
    StartsAtBlock(img.height, n, i);
    BlocksSkipped(s, img.width);
    DestinationOf(s, img.width);
  }

  lemma BlocksSkipped(s: nat, width: nat)
    requires s % 4 == 0
    ensures Times(RoundUp(s) / 4, RoundUp(width) / 4) == Times(s / 4, BlockWidth(width))
  {
    RowSkip(s);
    RoundUpMeans(width);
  }

  lemma RowSkip(s: nat)
    requires s % 4 == 0
    ensures RoundUp(s) / 4 == s / 4 && s == 4 * (s / 4)
  {
    RoundUpMeans(s);
  }

  lemma {:induction false} RowOffset(a: nat, w: nat)
    ensures Times(a, 16 * w) == 4 * Times(4 * a, w)
    decreases a
  {
    if a > 0 {
      RowOffset(a - 1, w);
      FourMore(4 * (a - 1), w);
    }
  }

  lemma FourMore(a: nat, w: nat)
    ensures Times(a + 4, w) == Times(a, w) + 4 * w
  {
    TimesAdds(a, 4, w);
    TimesIsProduct(4, w);
  }

  /** Task `t` reads the blocks of `u`, from block `f` on. */
  ghost predicate ReadsFrom(mem: Memory, t: Task, u: Task, f: nat) {
    Continues(Blocks(mem, t), Blocks(mem, u), f)
  }

  ghost predicate Continues(own: nat -> seq<Plane>, all: nat -> seq<Plane>, f: nat) {
    forall k: nat :: SameAt(own, all, f, k)
  }

  ghost predicate SameAt(own: nat -> seq<Plane>, all: nat -> seq<Plane>, f: nat, k: nat) {
    own(k) == all(f + k)
  }

  /** Task `i` of a split reads, as its k-th block, the k-th block of its rows. */
  ghost predicate ReadsItsBlocks(mem: Memory, img: Image, n: nat, i: nat)
    requires 0 < n
  {
    ReadsFrom(mem, PlanTask(img, n, i), Whole(img), FirstBlock(img, n, i))
  }

  /** The fields of a task, without the arithmetic behind them. */
  lemma TaskFields(img: Image, n: nat, i: nat) returns (t: Task, f: nat)
    requires Splits(img, n) && Fits16(img) && i < n
    ensures t == PlanTask(img, n, i) && f == FirstBlock(img, n, i)
    ensures t.src == SkipBytes(img.bcN, f) && SameFormat(t, Whole(img)) && t.bcN == img.bcN
    ensures t.width == img.width && t.startY % 4 == 0 && t.startY <= t.endY <= img.height
    ensures t.startY == StartY(img.height, n, i) && t.endY == EndY(img.height, n, i)
    ensures f == Times(t.startY / 4, BlockWidth(t.width))
  {
    t, f := PlanTask(img, n, i), FirstBlock(img, n, i);
    TaskSource(img, n, i);
    TaskRows(img.height, n, i);
    SmallStays(img.width);
  }

  predicate SameFormat(t: Task, u: Task) {
    t.bcN == u.bcN && t.isAlpha == u.isAlpha && t.isSigned == u.isSigned && u.src == 0
  }

  lemma ReadsWhenAligned(mem: Memory, img: Image, n: nat, i: nat)
    requires Splits(img, n) && Fits16(img) && i < n && (img.bcN != 4 || FirstBlock(img, n, i) == 0)
    ensures ReadsItsBlocks(mem, img, n, i)
  {
    var t, f := TaskFields(img, n, i);
    ReadsAll(mem, t, Whole(img), f);
  }

  lemma ReadsAll(mem: Memory, t: Task, u: Task, f: nat)
    requires SameFormat(t, u) && t.src == SkipBytes(t.bcN, f) && (t.bcN != 4 || f == 0)
    ensures ReadsFrom(mem, t, u, f)
  {
    forall k: nat
      ensures SameAt(Blocks(mem, t), Blocks(mem, u), f, k)
    {
      SamePlanes(mem, t, u, f, k);
    }
  }

  lemma SamePlanes(mem: Memory, t: Task, u: Task, f: nat, k: nat)
    requires SameFormat(t, u) && t.src == SkipBytes(t.bcN, f) && (t.bcN != 4 || f == 0)
    ensures SameAt(Blocks(mem, t), Blocks(mem, u), f, k)
  {
  }

  /** BC4 blocks are eight bytes long, but the skip of a task counts them as sixteen: a
      memory in which a task that skips blocks reads another block than its own. */
  lemma SkipsTooFar(img: Image, n: nat, i: nat) returns (mem: Memory)
    requires Splits(img, n) && Fits16(img) && i < n && img.bcN == 4 && FirstBlock(img, n, i) > 0
    ensures !ReadsItsBlocks(mem, img, n, i)
  {
    var t, f := TaskFields(img, n, i);
    mem := OtherBlock(t, Whole(img), f);
    assert !SameAt(Blocks(mem, t), Blocks(mem, Whole(img)), f, 0);
  }

  lemma OtherBlock(t: Task, u: Task, f: nat) returns (mem: Memory)
    requires SameFormat(t, u) && t.bcN == 4 && f > 0 && t.src == 16 * f
    ensures BlockTexel(Planes(mem, t, 0), 0, 0) == Some(255) && BlockTexel(Planes(mem, u, f), 0, 0) == Some(0)
  {
    mem := (a: nat) => if a == 16 * f then 255 else 0;
    FirstChannel(mem, t, 0, 255);
    FirstChannel(mem, u, f, 0);
  }

  lemma FirstChannel(mem: Memory, t: Task, k: nat, v: nat)
    requires t.bcN == 4 && v < 256 && U64(mem, t.src + 8 * k) == v
    ensures BlockTexel(Planes(mem, t, k), 0, 0) == Some(v)
  {
    FirstTexel(v, t.isSigned);
    ChannelBlock(mem, t, k, v);
    OneTexel(ChannelPlane(v, 0, t.isSigned), 0, 0);
    ChannelPlaneIs(v, 0, t.isSigned, 0, 0);
  }

  lemma ChannelBlock(mem: Memory, t: Task, k: nat, v: nat)
    requires t.bcN == 4 && U64(mem, t.src + 8 * k) == v
    ensures Planes(mem, t, k) == [ChannelPlane(v, 0, t.isSigned)]
  {}

  lemma OneTexel(p: Plane, i: nat, ch: nat)
    ensures BlockTexel([p], i, ch) == p(i, ch)
  {
    assert Texel([p], 0, i, ch) == None;
  }

  lemma ChannelPlaneIs(data: nat, channel: nat, isSigned: bool, i: nat, ch: nat)
    ensures ChannelPlane(data, channel, isSigned)(i, ch)
         == if ch == channel then Some(ChannelTexel(data, isSigned, i)) else None
  {}

  lemma FirstTexel(data: nat, isSigned: bool)
    requires data < 256
    ensures ChannelTexel(data, isSigned, 0) == data
  {
    NoIndex(data);
    FirstEndpoint(data, isSigned);
    FirstEntry(data, isSigned);
  }

  lemma FirstEntry(data: nat, isSigned: bool)
    requires ChannelIdx(data, 0) == 0
    ensures ChannelTexel(data, isSigned, 0) == Endpoint(data, 0, isSigned) % 256
  {}

  lemma FirstEndpoint(data: nat, isSigned: bool)
    requires data < 256
    ensures Endpoint(data, 0, isSigned) % 256 == data
  {
    EndpointIsByte(data, isSigned);
    SignedWraps(data);
  }

  lemma SignedWraps(b: nat)
    requires b < 256
    ensures b % 256 == b && SignedByte(b) % 256 == b
  {}

  lemma NoIndex(data: nat)
    requires data < 256
    ensures ChannelIdx(data, 0) == 0
  {
    ChannelIdxIsDigit(data, 0);
    Pow2Of16();
    NoDigit(data, Pow2(16));
  }

  lemma NoDigit(data: nat, p: nat)
    requires data < 256 && p == 0x1_0000
    ensures data / p % 8 == 0
  {
  }

  lemma Pow2Of16()
    ensures Pow2(16) == 0x1_0000
  {
    assert Pow2(8) == 256;
    PowersAdd(8, 8);
  }

  lemma SecondTaskSkips(img: Image, n: nat)
    requires Splits(img, n) && Fits16(img) && n > 1 && img.width > 0
    ensures FirstBlock(img, n, 1) > 0
  {
    ChunkMeans(img.height, n);
    TaskRows(img.height, n, 1);
    assert StartY(img.height, n, 1) == Times(0, Chunk(img.height, n)) + Chunk(img.height, n);
    TimesMore(1, StartY(img.height, n, 1) / 4, BlockWidth(img.width));
  }

  lemma NothingSkipped(img: Image, n: nat, i: nat)
    requires Splits(img, n) && i < n && (n == 1 || img.width == 0)
    ensures FirstBlock(img, n, i) == 0
  {
    if n == 1 {
      assert StartY(img.height, n, 0) == 0;
    } else {
      TimesIsProduct(StartY(img.height, n, i) / 4, 0);
    }
  }

  /** The condition under which a split decodes what one task would: every format but BC4,
      or no split, or an empty image. */
  predicate Sound(img: Image, n: nat) {
    img.bcN != 4 || n == 1 || img.width == 0
  }

  /** It is exact. */
  lemma ReadsItsBlocksIff(img: Image, n: nat)
    requires Splits(img, n) && Fits16(img)
    ensures Sound(img, n) <==> forall mem: Memory, i: nat | i < n :: ReadsItsBlocks(mem, img, n, i)
  {
    if Sound(img, n) {
      forall mem: Memory, i: nat | i < n
        ensures ReadsItsBlocks(mem, img, n, i)
      {
        if img.bcN == 4 { NothingSkipped(img, n, i); }
        ReadsWhenAligned(mem, img, n, i);
      }
    } else {
      SecondTaskSkips(img, n);
      var mem := SkipsTooFar(img, n, 1);
      assert !ReadsItsBlocks(mem, img, n, 1);
    }
  }

  // ---- tasks in parallel ----

  /** The stores of the tasks, one list a task. */
  function Traces(mem: Memory, img: Image, n: nat): seq<seq<Write>>
    requires 0 < n
  {
    seq(n, (i: nat) => ThreadWrites(mem, PlanTask(img, n, i)))
  }

  predicate EndsWith(trace: seq<Write>, w: Write) {
    trace != [] && trace[|trace| - 1] == w
  }

  /** The last store of trace `i`, taken away. */
  function Undone(traces: seq<seq<Write>>, i: nat): seq<seq<Write>>
    requires i < |traces| && traces[i] != []
  {
    traces[i := traces[i][..|traces[i]| - 1]]
  }

  /** `ws` holds the stores of all the traces, those of each trace in their order: any way
      the threads of the pool may take turns. */
  ghost predicate Interleaves(ws: seq<Write>, traces: seq<seq<Write>>)
    decreases |ws|
  {
    if ws == [] then forall i: nat | i < |traces| :: traces[i] == []
    else
      exists i: nat :: i < |traces| && EndsWith(traces[i], ws[|ws| - 1])
                       && Interleaves(ws[..|ws| - 1], Undone(traces, i))
  }

  /** A place that only trace `m` stores to ends up as trace `m` alone leaves it. */
  lemma {:induction false} InterleavedPlace(ws: seq<Write>, traces: seq<seq<Write>>, m: nat, r: nat, c: nat, ch: nat)
    requires Interleaves(ws, traces) && m < |traces|
    requires forall i: nat | i < |traces| && i != m :: LastWrite(traces[i], r, c, ch) == None
    ensures LastWrite(ws, r, c, ch) == LastWrite(traces[m], r, c, ch)
    decreases |ws|
  {
    if ws != [] {
      var w, before := ws[|ws| - 1], ws[..|ws| - 1];
      var i: nat :| i < |traces| && EndsWith(traces[i], w) && Interleaves(before, Undone(traces, i));
      if !(w.row == r && w.col == c && w.ch == ch) {
        InterleavedPlace(before, Undone(traces, i), m, r, c, ch);
      }
    }
  }

  lemma {:induction false} InterleavedInside(ws: seq<Write>, traces: seq<seq<Write>>, width: nat, height: nat)
    requires Interleaves(ws, traces)
    requires forall i: nat | i < |traces| :: Inside(traces[i], width, height)
    ensures Inside(ws, width, height)
    decreases |ws|
  {
    if ws != [] {
      var w, before := ws[|ws| - 1], ws[..|ws| - 1];
      var i: nat :| i < |traces| && EndsWith(traces[i], w) && Interleaves(before, Undone(traces, i));
      InterleavedInside(before, Undone(traces, i), width, height);
    }
  }

  /** What a task leaves in its rows, when its k-th block is block f + k of `all` and its
      first row starts at block f. */
  lemma TaskPixel(own: nat -> seq<Plane>, all: nat -> seq<Plane>, f: nat, width: nat, startY: nat, endY: nat,
                  r: nat, c: nat, ch: nat)
    requires startY <= r < endY && startY % 4 == 0 && c < width && ch < 4
    requires f == Times(startY / 4, BlockWidth(width))
    requires Continues(own, all, f)
    ensures LastWrite(TaskWrites(own, width, startY, endY), r, c, ch) == GridTexel(all, width, r, c, ch)
  {
    var br, j := InTask(startY, r);
    TaskTexel(own, all, f, width, startY, endY, br, j, c / 4, c % 4, ch);
  }

  lemma TaskTexel(own: nat -> seq<Plane>, all: nat -> seq<Plane>, f: nat, width: nat, startY: nat, endY: nat,
                  br: nat, j: nat, bc: nat, i: nat, ch: nat)
    requires startY + 4 * br + j < endY && 4 * bc + i < width && ch < 4 && j < 4 && i < 4
    requires f == Times(startY / 4, BlockWidth(width)) && Continues(own, all, f)
    ensures LastWrite(TaskWrites(own, width, startY, endY), startY + 4 * br + j, 4 * bc + i, ch)
      == CellTexel(all, width, startY / 4 + br, j, bc, i, ch)
  {
    TaskWritten(own, width, startY, endY, br, j, bc, i, ch);
    SameCell(own, all, f, startY / 4, width, br, j, bc, i, ch);
  }

  lemma SameCell(own: nat -> seq<Plane>, all: nat -> seq<Plane>, f: nat, first: nat, width: nat,
                 br: nat, j: nat, bc: nat, i: nat, ch: nat)
    requires f == Times(first, BlockWidth(width)) && Continues(own, all, f)
    ensures CellTexel(own, width, br, j, bc, i, ch) == CellTexel(all, width, first + br, j, bc, i, ch)
  {
    TimesAdds(first, br, BlockWidth(width));
    assert SameAt(own, all, f, Times(br, BlockWidth(width)) + bc);
  }

  lemma InTask(startY: nat, r: nat) returns (br: nat, j: nat)
    requires startY % 4 == 0 && startY <= r
    ensures j < 4 && r == startY + 4 * br + j && r / 4 == startY / 4 + br && r % 4 == j
  {
    br, j := (r - startY) / 4, (r - startY) % 4;
  }

  /** What the task that owns a row leaves there is what the format holds for it. */
  lemma OwnedPixel(mem: Memory, img: Image, n: nat, m: nat, r: nat, c: nat, ch: nat)
    requires Splits(img, n) && Fits16(img) && m < n && Owns(img, n, m, r) && c < img.width && ch < 4
    requires ReadsItsBlocks(mem, img, n, m)
    ensures LastWrite(ThreadWrites(mem, PlanTask(img, n, m)), r, c, ch) == ImageTexel(mem, img, r, c, ch)
  {
    var t, f := TaskFields(img, n, m);
    TaskPixel(Blocks(mem, t), Blocks(mem, Whole(img)), f, t.width, t.startY, t.endY, r, c, ch);
  }

  lemma OthersMiss(mem: Memory, img: Image, n: nat, m: nat, r: nat, c: nat, ch: nat)
    requires 0 < n && m < n && ch < 4
    requires forall i: nat | i < n && i != m :: !(StartY(img.height, n, i) <= r < EndY(img.height, n, i))
    ensures forall i: nat | i < n && i != m :: LastWrite(Traces(mem, img, n)[i], r, c, ch) == None
  {
    forall i: nat | i < n && i != m
      ensures LastWrite(Traces(mem, img, n)[i], r, c, ch) == None
    {
      var t := PlanTask(img, n, i);
      OutsideTask(Blocks(mem, t), t.width, t.startY, t.endY, r, c, ch);
    }
  }

  /** Tasks that run in parallel, in any order and interleaved in any way, leave each pixel
      as the format's account of the image has it: nothing is missed, and nothing is
      written over by another task. */
  lemma ParallelPixel(mem: Memory, img: Image, n: nat, ws: seq<Write>, r: nat, c: nat, ch: nat)
    requires Splits(img, n) && Fits16(img) && Sound(img, n) && Interleaves(ws, Traces(mem, img, n))
    requires r < img.height && c < img.width && ch < 4
    ensures LastWrite(ws, r, c, ch) == ImageTexel(mem, img, r, c, ch)
  {
    var m := RowOwner(img, n, r);
    var traces := Traces(mem, img, n);
    OthersMiss(mem, img, n, m, r, c, ch);
    InterleavedPlace(ws, traces, m, r, c, ch);
    ReadsItsBlocksIff(img, n);
    OwnedPixel(mem, img, n, m, r, c, ch);
  }

  /** No task, and so no interleaving of the tasks, stores outside the image. */
  lemma ParallelInside(mem: Memory, img: Image, n: nat, ws: seq<Write>)
    requires Splits(img, n) && Fits16(img) && Interleaves(ws, Traces(mem, img, n))
    ensures Inside(ws, img.width, img.height)
  {
    forall i: nat | i < n
      ensures Inside(Traces(mem, img, n)[i], img.width, img.height)
    {
      var t, f := TaskFields(img, n, i);
      TaskInside(Blocks(mem, t), t.width, t.startY, t.endY, img.height);
    }
    InterleavedInside(ws, Traces(mem, img, n), img.width, img.height);
  }

  /** The image that decoding all of it as one task leaves. */
  function Decoded(mem: Memory, img: Image, d: seq<byte>): (r: seq<byte>)
    requires |d| == ImageBytes(img.width, img.height)
  {
    TaskInside(Blocks(mem, Whole(img)), img.width, 0, img.height, img.height);
    Apply(d, ThreadWrites(mem, Whole(img)), img.width, img.height)
  }

  lemma WholePixel(mem: Memory, img: Image, r: nat, c: nat, ch: nat)
    requires r < img.height && c < img.width && ch < 4
    ensures LastWrite(ThreadWrites(mem, Whole(img)), r, c, ch) == ImageTexel(mem, img, r, c, ch)
  {
    TaskPixel(Blocks(mem, Whole(img)), Blocks(mem, Whole(img)), 0, img.width, 0, img.height, r, c, ch);
  }

  lemma WholeDecodedPixel(mem: Memory, img: Image, d: seq<byte>, r: nat, c: nat, ch: nat)
    requires |d| == ImageBytes(img.width, img.height) && r < img.height && c < img.width && ch < 4
    ensures Flat(img.width, r, c, ch) < |d|
    ensures var at := Flat(img.width, r, c, ch);
      Some(Decoded(mem, img, d)[at]) == Over(Some(d[at]), ImageTexel(mem, img, r, c, ch))
  {
    var t := Whole(img);
    TaskInside(Blocks(mem, t), img.width, 0, img.height, img.height);
    WholePixel(mem, img, r, c, ch);
    ApplyIsLastWrite(d, ThreadWrites(mem, t), img.width, img.height, r, c, ch);
  }

  /** The one task that BCDecoder_decode makes without a split is the whole image if and only if
      the image's sides fit the task's fields. */
  lemma OneTaskIff(img: Image)
    ensures PlanTask(img, 1, 0) == Whole(img) <==> Fits16(img)
  {
  }

  /** That task leaves the format's account of every pixel. */
  lemma DecodedPixel(mem: Memory, img: Image, d: seq<byte>, r: nat, c: nat, ch: nat)
    requires Fits16(img)
    requires |d| == ImageBytes(img.width, img.height) && r < img.height && c < img.width && ch < 4
    ensures Flat(img.width, r, c, ch) < |d|
    ensures var at, ws := Flat(img.width, r, c, ch), ThreadWrites(mem, PlanTask(img, 1, 0));
      && Inside(ws, img.width, img.height) && Apply(d, ws, img.width, img.height) == Decoded(mem, img, d)
      && Some(Decoded(mem, img, d)[at]) == Over(Some(d[at]), ImageTexel(mem, img, r, c, ch))
  {
    OneTaskIff(img);
    TaskInside(Blocks(mem, Whole(img)), img.width, 0, img.height, img.height);
    WholeDecodedPixel(mem, img, d, r, c, ch);
  }

  /** Every byte of the image is some pixel's channel. */
  lemma {:induction false} FlatCovers(width: nat, height: nat, at: nat) returns (r: nat, c: nat, ch: nat)
    requires at < ImageBytes(width, height)
    ensures r < height && c < width && ch < 4 && at == Flat(width, r, c, ch)
    decreases height
  {
    if at < ImageBytes(width, height - 1) {
      r, c, ch := FlatCovers(width, height - 1, at);
    } else {
      var rest := at - ImageBytes(width, height - 1);
      r, c, ch := height - 1, rest / 4, rest % 4;
    }
  }

  /** The parallel decode of a sound split equals the one-task decode, byte for byte. */
  lemma ParallelDecode(mem: Memory, img: Image, n: nat, ws: seq<Write>, d: seq<byte>)
    requires Splits(img, n) && Fits16(img) && Sound(img, n) && Interleaves(ws, Traces(mem, img, n))
    requires |d| == ImageBytes(img.width, img.height)
    ensures Inside(ws, img.width, img.height)
    ensures Apply(d, ws, img.width, img.height) == Decoded(mem, img, d)
  {
    ParallelInside(mem, img, n, ws);
    var one, all := Decoded(mem, img, d), Apply(d, ws, img.width, img.height);
    forall at | 0 <= at < |d|
      ensures all[at] == one[at]
    {
      var r, c, ch := FlatCovers(img.width, img.height, at);
      ParallelPixel(mem, img, n, ws, r, c, ch);
      ApplyIsLastWrite(d, ws, img.width, img.height, r, c, ch);
      WholeDecodedPixel(mem, img, d, r, c, ch);
    }
  }

  // ---- and only then ----

  ghost predicate SameImage(mem: Memory, img: Image, ws: seq<Write>, d: seq<byte>) {
    |d| == ImageBytes(img.width, img.height) && Inside(ws, img.width, img.height)
    && Apply(d, ws, img.width, img.height) == Decoded(mem, img, d)
  }

  /** Whatever the memory holds and however the tasks take turns, the split leaves the image
      of the one-task decode. */
  ghost predicate SplitIsExact(img: Image, n: nat)
    requires 0 < n
  {
    forall mem: Memory, ws: seq<Write>, d: seq<byte> ::
      Interleaves(ws, Traces(mem, img, n)) && |d| == ImageBytes(img.width, img.height) ==> SameImage(mem, img, ws, d)
  }

  /** The first `m` traces, one after the other. */
  function InTurn(traces: seq<seq<Write>>, m: nat): seq<Write>
    requires m <= |traces|
  {
    if m == 0 then [] else InTurn(traces, m - 1) + traces[m - 1]
  }

  lemma {:induction false} InTurnPrefix(a: seq<seq<Write>>, b: seq<seq<Write>>, m: nat)
    requires m <= |a| && m <= |b| && forall i: nat | i < m :: a[i] == b[i]
    ensures InTurn(a, m) == InTurn(b, m)
    decreases m
  {
    if m > 0 { InTurnPrefix(a, b, m - 1); }
  }

  /** Running the tasks one after the other is one of the interleavings. */
  lemma {:induction false} InTurnInterleaves(traces: seq<seq<Write>>, m: nat)
    requires m <= |traces| && forall i: nat | m <= i < |traces| :: traces[i] == []
    ensures Interleaves(InTurn(traces, m), traces)
    decreases m, if m > 0 then |traces[m - 1]| else 0
  {
    if m > 0 {
      var last := traces[m - 1];
      if last == [] {
        InTurnInterleaves(traces, m - 1);
        assert InTurn(traces, m) == InTurn(traces, m - 1);
      } else {
        var i: nat, ws := m - 1, InTurn(traces, m);
        var rest := Undone(traces, i);
        InTurnInterleaves(rest, m);
        InTurnPrefix(traces, rest, i);
        assert ws[..|ws| - 1] == InTurn(rest, m);
        assert EndsWith(traces[i], ws[|ws| - 1]) && Interleaves(ws[..|ws| - 1], Undone(traces, i));
      }
    }
  }

  /** A BC4 image that is split into several tasks: there is a compressed image that the
      split decodes to something else, in every interleaving. */
  lemma SplitDecodesOtherBlock(img: Image, n: nat, d: seq<byte>) returns (mem: Memory)
    requires Splits(img, n) && Fits16(img) && !Sound(img, n) && |d| == ImageBytes(img.width, img.height)
    ensures forall ws | Interleaves(ws, Traces(mem, img, n)) :: !SameImage(mem, img, ws, d)
  {
    var t, f := TaskFields(img, n, 1);
    SecondTaskSkips(img, n);
    SecondTaskRows(img.height, n);
    mem := OtherBlock(t, Whole(img), f);
    FirstPixel(Blocks(mem, t), t.width, t.startY, t.endY);
    forall ws | Interleaves(ws, Traces(mem, img, n))
      ensures !SameImage(mem, img, ws, d)
    {
      DiffersAt(mem, img, n, ws, d, t.startY);
    }
  }

  lemma DiffersAt(mem: Memory, img: Image, n: nat, ws: seq<Write>, d: seq<byte>, r: nat)
    requires Splits(img, n) && Fits16(img) && n > 1 && img.width > 0 && |d| == ImageBytes(img.width, img.height)
    requires StartY(img.height, n, 1) <= r < EndY(img.height, n, 1) && r < img.height
    requires LastWrite(ThreadWrites(mem, PlanTask(img, n, 1)), r, 0, 0) == Some(255)
    requires ImageTexel(mem, img, r, 0, 0) == Some(0)
    requires Interleaves(ws, Traces(mem, img, n))
    ensures !SameImage(mem, img, ws, d)
  {
    var m := RowOwner(img, n, r);
    assert m == 1;
    OthersMiss(mem, img, n, 1, r, 0, 0);
    InterleavedPlace(ws, Traces(mem, img, n), 1, r, 0, 0);
    WholeDecodedPixel(mem, img, d, r, 0, 0);
    if SameImage(mem, img, ws, d) {
      ApplyIsLastWrite(d, ws, img.width, img.height, r, 0, 0);
      assert false;
    }
  }

  lemma SecondTaskRows(height: nat, n: nat)
    requires 1 < n <= 8 && 128 <= height < 0x1_0000
    ensures StartY(height, n, 1) < EndY(height, n, 1)
  {
    ChunkMeans(height, n);
    TaskRows(height, n, 1);
    var c := Chunk(height, n);
    assert Times(1, c) == Times(0, c) + c && Times(2, c) == Times(1, c) + c;
    if n == 2 { assert Times(n, c) <= height; }
  }

  lemma FirstPixel(blocks: nat -> seq<Plane>, width: nat, startY: nat, endY: nat)
    requires startY < endY && width > 0
    ensures LastWrite(TaskWrites(blocks, width, startY, endY), startY, 0, 0) == BlockTexel(blocks(0), 0, 0)
  {
    TaskWritten(blocks, width, startY, endY, 0, 0, 0, 0, 0);
  }

  /** Over every compressed image and every interleaving, a split decodes what one task
      decodes if and only if the format is not BC4, or there is no split, or no pixel. */
  lemma ParallelDecodeIff(img: Image, n: nat)
    requires Splits(img, n) && Fits16(img)
    ensures Sound(img, n) <==> SplitIsExact(img, n)
  {
    if Sound(img, n) {
      forall mem: Memory, ws: seq<Write>, d: seq<byte> |
        Interleaves(ws, Traces(mem, img, n)) && |d| == ImageBytes(img.width, img.height)
        ensures SameImage(mem, img, ws, d)
      {
        ParallelDecode(mem, img, n, ws, d);
      }
    } else {
      var d := seq(ImageBytes(img.width, img.height), (_: nat) => 0 as byte);
      var mem := SplitDecodesOtherBlock(img, n, d);
      InTurnInterleaves(Traces(mem, img, n), n);
      assert !SameImage(mem, img, InTurn(Traces(mem, img, n), n), d);
    }
  }

  // ---- images that do not fit the fields ----

  /** Where in the image a store of a task ends up: its pointer starts at `dst` and has the
      task's own stride. */
  function StoreAt(t: Task, w: Write): int {
    t.dst + 4 * (Times(if w.row >= t.startY then w.row - t.startY else 0, t.width) + w.col) + w.ch
  }

  ghost predicate StoresTo(ws: seq<Write>, t: Task, at: int) {
    exists k :: 0 <= k < |ws| && StoreAt(t, ws[k]) == at
  }

  /** Some task of the split stores to a byte of the image. */
  ghost predicate Stored(mem: Memory, img: Image, n: nat, at: int)
    requires 0 < n
  {
    exists i: nat :: i < n && StoresTo(ThreadWrites(mem, PlanTask(img, n, i)), PlanTask(img, n, i), at)
  }

  lemma {:induction false} LastWriteIsThere(ws: seq<Write>, r: nat, c: nat, ch: nat) returns (k: nat)
    requires LastWrite(ws, r, c, ch).Some?
    ensures k < |ws| && ws[k].row == r && ws[k].col == c && ws[k].ch == ch
    decreases |ws|
  {
    var last := |ws| - 1;
    if ws[last].row == r && ws[last].col == c && ws[last].ch == ch {
      k := last;
    } else {
      k := LastWriteIsThere(ws[..last], r, c, ch);
    }
  }

  lemma {:induction false} WriteIsSet(ws: seq<Write>, k: nat)
    requires k < |ws|
    ensures LastWrite(ws, ws[k].row, ws[k].col, ws[k].ch).Some?
    decreases |ws|
  {
    if k < |ws| - 1 { WriteIsSet(ws[..|ws| - 1], k); }
  }

  ghost predicate FirstSet(planes: seq<Plane>) {
    planes != [] && forall i: nat :: planes[0](i, 0).Some?
  }

  ghost predicate AllFirstSet(blocks: nat -> seq<Plane>) {
    forall k: nat :: FirstSet(blocks(k))
  }

  /** In each of the five formats every texel has a first channel. */
  lemma FormatsSetFirst(mem: Memory, t: Task)
    requires 1 <= t.bcN <= 5
    ensures AllFirstSet(Blocks(mem, t))
  {
    forall k: nat
      ensures FirstSet(Planes(mem, t, k))
    {
      PlanesSetFirst(mem, t, k);
    }
  }

  lemma PlanesSetFirst(mem: Memory, t: Task, k: nat)
    requires 1 <= t.bcN <= 5
    ensures FirstSet(Planes(mem, t, k))
  {}

  lemma {:induction false} FirstPlaneSets(planes: seq<Plane>, n: nat, i: nat)
    requires 0 < n <= |planes| && FirstSet(planes)
    ensures Texel(planes, n, i, 0).Some?
    decreases n
  {
    if n > 1 { FirstPlaneSets(planes, n - 1, i); }
  }

  lemma CellSet(blocks: nat -> seq<Plane>, width: nat, br: nat, j: nat, bc: nat, i: nat)
    requires AllFirstSet(blocks)
    ensures CellTexel(blocks, width, br, j, bc, i, 0).Some?
  {
    var planes := blocks(Times(br, BlockWidth(width)) + bc);
    FirstPlaneSets(planes, |planes|, 4 * j + i);
  }

  lemma FirstChannelSet(mem: Memory, img: Image, r: nat, c: nat)
    requires 1 <= img.bcN <= 5
    ensures ImageTexel(mem, img, r, c, 0).Some?
  {
    FormatsSetFirst(mem, Whole(img));
    CellSet(Blocks(mem, Whole(img)), img.width, r / 4, r % 4, c / 4, c % 4);
  }

  lemma TaskWrote(blocks: nat -> seq<Plane>, width: nat, startY: nat, endY: nat, r: nat, c: nat)
    requires AllFirstSet(blocks) && startY <= r < endY && c < width && startY % 4 == 0
    ensures LastWrite(TaskWrites(blocks, width, startY, endY), r, c, 0).Some?
  {
    var br, j := InTask(startY, r);
    TaskWroteAt(blocks, width, startY, endY, br, j, c / 4, c % 4);
  }

  lemma TaskWroteAt(blocks: nat -> seq<Plane>, width: nat, startY: nat, endY: nat, br: nat, j: nat, bc: nat, i: nat)
    requires AllFirstSet(blocks) && startY + 4 * br + j < endY && 4 * bc + i < width && j < 4 && i < 4
    ensures LastWrite(TaskWrites(blocks, width, startY, endY), startY + 4 * br + j, 4 * bc + i, 0).Some?
  {
    TaskWritten(blocks, width, startY, endY, br, j, bc, i, 0);
    CellSet(blocks, width, br, j, bc, i);
  }

  lemma OwnStore(ws: seq<Write>, t: Task, width: nat, r: nat, c: nat)
    requires LastWrite(ws, r, c, 0).Some? && t.startY <= r && t.width == width
    requires t.dst == 4 * Times(t.startY, width)
    ensures StoresTo(ws, t, Flat(width, r, c, 0))
  {
    var k := LastWriteIsThere(ws, r, c, 0);
    TimesAdds(t.startY, r - t.startY, width);
    assert StoreAt(t, ws[k]) == Flat(width, r, c, 0);
  }

  lemma TaskStores(mem: Memory, img: Image, n: nat, r: nat, c: nat)
    requires Splits(img, n) && Fits16(img) && 1 <= img.bcN <= 5 && r < img.height && c < img.width
    ensures Stored(mem, img, n, Flat(img.width, r, c, 0))
  {
    var m := RowOwner(img, n, r);
    var t, f := TaskFields(img, n, m);
    TaskSource(img, n, m);
    FormatsSetFirst(mem, t);
    TaskWrote(Blocks(mem, t), t.width, t.startY, t.endY, r, c);
    OwnStore(ThreadWrites(mem, t), t, img.width, r, c);
  }

  lemma StartsAtBlock(height: nat, n: nat, i: nat)
    requires 0 < n
    ensures StartY(height, n, i) % 4 == 0
  {
    var c := Chunk(height, n);
    HighMask();
    MaskedInPlace(height / n, 0x3FFF_FFFF, 2);
    ShlMultiplies(And(Shr(height / n, 2), 0x3FFF_FFFF), 2);
    TimesOfFour(i, c);
    LowerTruncated(Times(i, c));
  }

  lemma LowerTruncated(x: nat)
    requires x % 4 == 0
    ensures Trunc16(x) % 4 == 0
  {
    RemainderOfRemainder(x, 4, 0x4000);
  }

  lemma {:induction false} TimesWider(n: nat, a: nat, b: nat)
    requires a <= b
    ensures Times(n, a) <= Times(n, b)
    decreases n
  {
    if n > 0 { TimesWider(n - 1, a, b); }
  }

  /** A store behind rows of `w` columns that starts in an image of `width` columns. */
  lemma BeforeLast(s: nat, row: nat, col: nat, w: nat, width: nat, height: nat)
    requires s <= row < height && col < w <= width && (row < height - 1 || w < width)
    ensures Times(s, width) + Times(row - s, w) + col < Times(height - 1, width) + width - 1
  {
    TimesWider(row - s, w, width);
    TimesAdds(s, row - s, width);
    if row < height - 1 { TimesMore(row + 1, height - 1, width); }
  }

  lemma StoreInTask(mem: Memory, t: Task, k: nat)
    requires k < |ThreadWrites(mem, t)|
    ensures var w := ThreadWrites(mem, t)[k]; t.startY <= w.row < t.endY && w.col < t.width && w.ch < 4
  {
    var ws := ThreadWrites(mem, t);
    TaskInside(Blocks(mem, t), t.width, t.startY, t.endY, t.endY);
    WriteIsSet(ws, k);
    if !(t.startY <= ws[k].row < t.endY) {
      OutsideTask(Blocks(mem, t), t.width, t.startY, t.endY, ws[k].row, ws[k].col, ws[k].ch);
    }
  }

  /** From 65536 rows or columns on, every store of every task falls short of the last pixel. */
  lemma LastPixelKept(mem: Memory, img: Image, n: nat)
    requires Splits(img, n) && !Fits16(img) && img.width > 0 && img.height > 0
    ensures !Stored(mem, img, n, Flat(img.width, img.height - 1, img.width - 1, 0))
  {
    forall i: nat, k: nat | i < n && k < |ThreadWrites(mem, PlanTask(img, n, i))|
      ensures StoreAt(PlanTask(img, n, i), ThreadWrites(mem, PlanTask(img, n, i))[k])
            < Flat(img.width, img.height - 1, img.width - 1, 0)
    {
      FallsShort(mem, img, n, i, k);
    }
  }

  lemma DestinationOf(s: nat, width: nat)
    requires s % 4 == 0
    ensures Times(RoundUp(s) / 4, 16 * width) == 4 * Times(s, width)
  {
    RowSkip(s);
    RowOffset(s / 4, width);
  }

  lemma EndsInside(height: nat, n: nat, i: nat)
    requires 1 <= n <= 8 && i < n
    ensures EndY(height, n, i) <= height && EndY(height, n, i) < 0x1_0000
  {
    if height < 0x1_0000 { TaskRows(height, n, i); }
  }

  lemma FallsShort(mem: Memory, img: Image, n: nat, i: nat, k: nat)
    requires Splits(img, n) && !Fits16(img) && img.width > 0 && img.height > 0 && i < n
    requires k < |ThreadWrites(mem, PlanTask(img, n, i))|
    ensures StoreAt(PlanTask(img, n, i), ThreadWrites(mem, PlanTask(img, n, i))[k])
          < Flat(img.width, img.height - 1, img.width - 1, 0)
  {
    var t := PlanTask(img, n, i);
    StoreInTask(mem, t, k);
    StartsAtBlock(img.height, n, i);
    EndsInside(img.height, n, i);
    StoreFallsShort(img, t, ThreadWrites(mem, t)[k]);
  }

  lemma StoreFallsShort(img: Image, t: Task, w: Write)
    requires !Fits16(img) && img.width > 0 && img.height > 0
    requires t.startY % 4 == 0 && t.dst == Times(RoundUp(t.startY) / 4, 16 * img.width)
    requires t.width == Trunc16(img.width) && t.endY <= img.height && t.endY < 0x1_0000
    requires t.startY <= w.row < t.endY && w.col < t.width && w.ch < 4
    ensures StoreAt(t, w) < Flat(img.width, img.height - 1, img.width - 1, 0)
  {
    DestinationOf(t.startY, img.width);
    BeforeLast(t.startY, w.row, w.col, t.width, img.width, img.height);
  }

  /** Wherever decoding changes a pixel of `d`, some task stores to it. */
  ghost predicate Reaches(mem: Memory, img: Image, n: nat, d: seq<byte>)
    requires 0 < n && |d| == ImageBytes(img.width, img.height)
  {
    forall r: nat, c: nat | r < img.height && c < img.width :: ReachesPixel(mem, img, n, d, r, c)
  }

  ghost predicate ReachesPixel(mem: Memory, img: Image, n: nat, d: seq<byte>, r: nat, c: nat)
    requires 0 < n && |d| == ImageBytes(img.width, img.height) && r < img.height && c < img.width
  {
    var at := Flat(img.width, r, c, 0);
    FlatInside(img.width, img.height, r, c, 0);
    Stored(mem, img, n, at) || Decoded(mem, img, d)[at] == d[at]
  }

  ghost predicate SplitReaches(img: Image, n: nat)
    requires 0 < n
  {
    forall mem: Memory, d: seq<byte> | |d| == ImageBytes(img.width, img.height) :: Reaches(mem, img, n, d)
  }

  lemma LastPixelDiffers(mem: Memory, img: Image, n: nat) returns (d: seq<byte>)
    requires Splits(img, n) && !Fits16(img) && img.width > 0 && img.height > 0 && 1 <= img.bcN <= 5
    ensures |d| == ImageBytes(img.width, img.height) && !Reaches(mem, img, n, d)
  {
    var r: nat, c: nat := img.height - 1, img.width - 1;
    FirstChannelSet(mem, img, r, c);
    var v := ImageTexel(mem, img, r, c, 0).value;
    d := OtherBytes(ImageBytes(img.width, img.height), v);
    LastPixelKept(mem, img, n);
    WholeDecodedPixel(mem, img, d, r, c, 0);
    PixelNotReached(mem, img, n, d, r, c);
  }

  function OtherBytes(size: nat, v: byte): (d: seq<byte>)
    ensures |d| == size && forall k | 0 <= k < size :: d[k] != v
  {
    seq(size, (_: nat) => (if v == 0 then 1 else 0) as byte)
  }

  lemma PixelNotReached(mem: Memory, img: Image, n: nat, d: seq<byte>, r: nat, c: nat)
    requires 0 < n && |d| == ImageBytes(img.width, img.height) && r < img.height && c < img.width
    requires !ReachesPixel(mem, img, n, d, r, c)
    ensures !Reaches(mem, img, n, d)
  {}

  /** The tasks reach every pixel that decoding changes if and only if the image's sides fit
      their uint16_t fields: from 65536 rows or columns on, no task gets as far as the last
      pixel. */
  lemma SplitCoversIff(img: Image, n: nat)
    requires Splits(img, n) && img.height > 0 && img.width > 0 && 1 <= img.bcN <= 5
    ensures Fits16(img) <==> SplitReaches(img, n)
  {
    if Fits16(img) {
      forall mem: Memory, d: seq<byte> | |d| == ImageBytes(img.width, img.height)
        ensures Reaches(mem, img, n, d)
      {
        forall r: nat, c: nat | r < img.height && c < img.width
          ensures ReachesPixel(mem, img, n, d, r, c)
        {
          TaskStores(mem, img, n, r, c);
        }
      }
    } else {
      var mem: Memory := (_: nat) => 0;
      var d := LastPixelDiffers(mem, img, n);
      assert !Reaches(mem, img, n, d);
    }
  }

  // ---- what a decoded pixel is ----

  /** The format's account of channel `ch` of texel `i` of block `k`, in the words of the
      palettes: the selected endpoint, mean or constant, or what was there before. */
  ghost predicate MeansTexel(mem: Memory, img: Image, before: byte, v: byte, k: nat, i: nat, ch: nat) {
    if img.bcN == 1 then
      IsColor(v, Shr(U32(mem, 8 * k + 4), 2 * i) % 4, U16(mem, 8 * k), U16(mem, 8 * k + 2), !img.noAlphaU, false, ch)
    else if (img.bcN == 2 || img.bcN == 3) && ch < 3 then
      IsColor(v, Shr(U32(mem, 16 * k + 12), 2 * i) % 4, U16(mem, 16 * k + 8), U16(mem, 16 * k + 10), false, true, ch)
    else if img.bcN == 2 then v as int == 17 * (Shr(U64(mem, 16 * k), 4 * i) % 16)
    else if img.bcN == 3 then IsChannel(v, Shr(U64(mem, 16 * k), 3 * i + 16) % 8, U64(mem, 16 * k), false)
    else if img.bcN == 4 && ch == 0 then
      IsChannel(v, Shr(U64(mem, 8 * k), 3 * i + 16) % 8, U64(mem, 8 * k), !img.noAlphaU)
    else if img.bcN == 5 && ch < 2 then
      IsChannel(v, Shr(U64(mem, 16 * k + 8 * ch), 3 * i + 16) % 8, U64(mem, 16 * k + 8 * ch), !img.noAlphaU)
    else v == before
  }

  lemma TwoTexels(p: Plane, q: Plane, i: nat, ch: nat)
    ensures BlockTexel([p, q], i, ch) == Over(p(i, ch), q(i, ch))
  {
    assert Texel([p, q], 0, i, ch) == None;
    assert Texel([p, q], 1, i, ch) == p(i, ch);
  }

  lemma Bc1Means(mem: Memory, img: Image, before: byte, v: byte, k: nat, i: nat, ch: nat)
    requires img.bcN == 1 && ch < 4 && Some(v) == Over(Some(before), BlockTexel(Planes(mem, Whole(img), k), i, ch))
    ensures MeansTexel(mem, img, before, v, k, i, ch)
  {
    var c0, c1, idx := U16(mem, 8 * k), U16(mem, 8 * k + 2), U32(mem, 8 * k + 4);
    OneTexel(ColorPlane(c0, c1, idx, !img.noAlphaU, false), i, ch);
    ColorTexelMeans(c0, c1, idx, !img.noAlphaU, false, i, ch);
  }

  lemma Bc2Means(mem: Memory, img: Image, before: byte, v: byte, k: nat, i: nat, ch: nat)
    requires img.bcN == 2 && ch < 4 && Some(v) == Over(Some(before), BlockTexel(Planes(mem, Whole(img), k), i, ch))
    ensures MeansTexel(mem, img, before, v, k, i, ch)
  {
    var c0, c1, idx := U16(mem, 16 * k + 8), U16(mem, 16 * k + 10), U32(mem, 16 * k + 12);
    TwoTexels(ColorPlane(c0, c1, idx, false, true), AlphaPlane(U64(mem, 16 * k)), i, ch);
    ColorTexelMeans(c0, c1, idx, false, true, i, ch);
    AlphaDigit(U64(mem, 16 * k), i);
  }

  lemma Bc3Means(mem: Memory, img: Image, before: byte, v: byte, k: nat, i: nat, ch: nat)
    requires img.bcN == 3 && ch < 4 && Some(v) == Over(Some(before), BlockTexel(Planes(mem, Whole(img), k), i, ch))
    ensures MeansTexel(mem, img, before, v, k, i, ch)
  {
    var c0, c1, idx := U16(mem, 16 * k + 8), U16(mem, 16 * k + 10), U32(mem, 16 * k + 12);
    TwoTexels(ColorPlane(c0, c1, idx, false, true), ChannelPlane(U64(mem, 16 * k), 3, false), i, ch);
    ChannelPlaneIs(U64(mem, 16 * k), 3, false, i, ch);
    ColorTexelMeans(c0, c1, idx, false, true, i, ch);
    ChannelTexelMeans(U64(mem, 16 * k), false, i);
  }

  lemma Bc4Means(mem: Memory, img: Image, before: byte, v: byte, k: nat, i: nat, ch: nat)
    requires img.bcN == 4 && ch < 4 && Some(v) == Over(Some(before), BlockTexel(Planes(mem, Whole(img), k), i, ch))
    ensures MeansTexel(mem, img, before, v, k, i, ch)
  {
    OneTexel(ChannelPlane(U64(mem, 8 * k), 0, !img.noAlphaU), i, ch);
    ChannelPlaneIs(U64(mem, 8 * k), 0, !img.noAlphaU, i, ch);
    ChannelTexelMeans(U64(mem, 8 * k), !img.noAlphaU, i);
  }

  lemma Bc5Means(mem: Memory, img: Image, before: byte, v: byte, k: nat, i: nat, ch: nat)
    requires img.bcN == 5 && ch < 4 && Some(v) == Over(Some(before), BlockTexel(Planes(mem, Whole(img), k), i, ch))
    ensures MeansTexel(mem, img, before, v, k, i, ch)
  {
    var red, green := U64(mem, 16 * k), U64(mem, 16 * k + 8);
    TwoTexels(ChannelPlane(red, 0, !img.noAlphaU), ChannelPlane(green, 1, !img.noAlphaU), i, ch);
    ChannelPlaneIs(red, 0, !img.noAlphaU, i, ch);
    ChannelPlaneIs(green, 1, !img.noAlphaU, i, ch);
    ChannelTexelMeans(red, !img.noAlphaU, i);
    ChannelTexelMeans(green, !img.noAlphaU, i);
  }

  lemma TexelMeans(mem: Memory, img: Image, before: byte, v: byte, planes: seq<Plane>, k: nat, i: nat, ch: nat)
    requires planes == Planes(mem, Whole(img), k)
    requires ch < 4 && Some(v) == Over(Some(before), BlockTexel(planes, i, ch))
    ensures MeansTexel(mem, img, before, v, k, i, ch)
  {
    if img.bcN == 1 { Bc1Means(mem, img, before, v, k, i, ch); }
    else if img.bcN == 2 { Bc2Means(mem, img, before, v, k, i, ch); }
    else if img.bcN == 3 { Bc3Means(mem, img, before, v, k, i, ch); }
    else if img.bcN == 4 { Bc4Means(mem, img, before, v, k, i, ch); }
    else if img.bcN == 5 { Bc5Means(mem, img, before, v, k, i, ch); }
    else { assert planes == []; }
  }

  lemma GridMeans(blocks: nat -> seq<Plane>, mem: Memory, img: Image, before: byte, v: byte, r: nat, c: nat, ch: nat,
                  k: nat, i: nat)
    requires k == Times(r / 4, BlockWidth(img.width)) + c / 4 && i == 4 * (r % 4) + c % 4
    requires blocks(k) == Planes(mem, Whole(img), k)
    requires ch < 4 && Some(v) == Over(Some(before), GridTexel(blocks, img.width, r, c, ch))
    ensures MeansTexel(mem, img, before, v, k, i, ch)
  {
    TexelMeans(mem, img, before, v, blocks(k), k, i, ch);
  }

  lemma ImageTexelMeans(mem: Memory, img: Image, before: byte, v: byte, r: nat, c: nat, ch: nat, k: nat, i: nat)
    requires k == Times(r / 4, BlockWidth(img.width)) + c / 4 && i == 4 * (r % 4) + c % 4
    requires ch < 4 && Some(v) == Over(Some(before), ImageTexel(mem, img, r, c, ch))
    ensures MeansTexel(mem, img, before, v, k, i, ch)
  {
    GridMeans(Blocks(mem, Whole(img)), mem, img, before, v, r, c, ch, k, i);
  }

  lemma DecodedMeans(mem: Memory, img: Image, d: seq<byte>, r: nat, c: nat, ch: nat, at: nat, k: nat, i: nat)
    requires |d| == ImageBytes(img.width, img.height) && r < img.height && c < img.width && ch < 4
    requires at == Flat(img.width, r, c, ch)
    requires k == Times(r / 4, BlockWidth(img.width)) + c / 4 && i == 4 * (r % 4) + c % 4
    ensures at < |d| && MeansTexel(mem, img, d[at], Decoded(mem, img, d)[at], k, i, ch)
  {
    WholeDecodedPixel(mem, img, d, r, c, ch);
    ImageTexelMeans(mem, img, d[at], Decoded(mem, img, d)[at], r, c, ch, k, i);
  }

  /** After any interleaving of a sound split, every byte of the image is what the palettes of
      the pixel's own block make of the pixel's index, with means rounded toward zero:
      pixel (r, c) is texel i == 4 (r % 4) + c % 4 of block (r / 4, c / 4), and blocks are
      numbered in reading order. */
  lemma PixelMeans(mem: Memory, img: Image, n: nat, ws: seq<Write>, d: seq<byte>, r: nat, c: nat, ch: nat,
                   at: nat, k: nat, i: nat)
    requires Splits(img, n) && Fits16(img) && Sound(img, n) && Interleaves(ws, Traces(mem, img, n))
    requires |d| == ImageBytes(img.width, img.height) && r < img.height && c < img.width && ch < 4
    requires at == Flat(img.width, r, c, ch)
    requires k == Times(r / 4, BlockWidth(img.width)) + c / 4 && i == 4 * (r % 4) + c % 4
    ensures Inside(ws, img.width, img.height) && at < |d|
    ensures MeansTexel(mem, img, d[at], Apply(d, ws, img.width, img.height)[at], k, i, ch)
  {
    ParallelDecode(mem, img, n, ws, d);
    DecodedMeans(mem, img, d, r, c, ch, at, k, i);
  }
}
