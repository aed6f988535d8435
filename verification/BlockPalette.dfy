/** One 4x4 block of the BC1 to BC5 formats: its bit fields, and the palettes they index.
    Sections 18 and 19 of the Khronos Data Format Specification 1.3 give the exact palettes
    as weighted means; the code computes them in truncating integer arithmetic. */
module BlockPalette {
  import opened Bits

  // ---- bit fields ----

  /** BCDecoder_getColorIdx, BCDecoder_getChannelIdx and BCDecoder_getAlpha. */
  function ColorIdx(idx: nat, i: nat): nat {
    Shr(And(idx, Shl(0x3, 2 * i)), 2 * i)
  }

  function ChannelIdx(data: nat, i: nat): nat {
    Shr(And(data, Shl(0x7, i * 3 + 16)), i * 3 + 16) % 256
  }

  function Alpha(data: nat, i: nat): byte {
    var alpha := Shr(And(data, Shl(0xF, 4 * i)), 4 * i);
    Or(Shl(alpha, 4), alpha) % 256
  }

  /** Texel i's entry is the i-th two-bit, or three-bit, digit of the index field. */
  lemma ColorIdxIsDigit(idx: nat, i: nat)
    ensures ColorIdx(idx, i) == idx / Pow2(2 * i) % 4
  {
    assert Pow2(2) == 4;
    Field(idx, 2, 2 * i);
  }

  lemma ChannelIdxIsDigit(data: nat, i: nat)
    ensures ChannelIdx(data, i) == data / Pow2(3 * i + 16) % 8
  {
    assert Pow2(3) == 8;
    Field(data, 3, i * 3 + 16);
  }

  /** Four bits of explicit alpha are spread over 0 to 255 evenly: n becomes 17 n. */
  lemma AlphaIsDigit(data: nat, i: nat)
    ensures Alpha(data, i) == 17 * (data / Pow2(4 * i) % 16)
  {
    assert Pow2(4) == 16;
    Field(data, 4, 4 * i);
    Spread(data / Pow2(4 * i) % 16);
  }

  lemma Spread(a: nat)
    requires a < 16
    ensures Or(Shl(a, 4), a) % 256 == 17 * a
  {
    assert Pow2(4) == 16;
    OrOfDisjoint(a, a, 4);
    ShlMultiplies(a, 4);
  }

  /** BCDecoder_extract565: blue, green, red. */
  function Extract565(c565: nat): (c: seq<int>)
    ensures |c| == 3 && forall ch | 0 <= ch < 3 :: 0 <= c[ch] < 256
  {
    [Blue565(c565) % 256, Green565(c565) % 256, Red565(c565) % 256]
  }

  function Blue565(c565: nat): nat {
    Or(Shl(And(c565, 0x001F), 3), Shr(And(c565, 0x001C), 2))
  }

  function Green565(c565: nat): nat {
    Or(Shr(And(c565, 0x07E0), 3), Shr(And(c565, 0x0600), 9))
  }

  function Red565(c565: nat): nat {
    Or(Shr(And(c565, 0xF800), 8), Shr(And(c565, 0xE000), 13))
  }

  /** A five-bit channel is widened by repeating its top three bits, a six-bit one by its
      top two, so that the extremes map to 0 and 255. */
  lemma Extract565Widens(c565: nat)
    requires c565 < 0x1_0000
    ensures var b, g, r := c565 % 32, c565 / 32 % 64, c565 / 2048;
      Extract565(c565) == [8 * b + b / 4, 4 * g + g / 16, 8 * r + r / 4]
  {
    WideBlue(c565);
    WideGreen(c565);
    WideRed(c565);
  }

  lemma WideBlue(c: nat)
    ensures Blue565(c) % 256 == 8 * (c % 32) + c % 32 / 4
  {
    Blue(c);
    LowBlue(c);
  }

  lemma WideGreen(c: nat)
    ensures Green565(c) % 256 == 4 * (c / 32 % 64) + c / 32 % 64 / 16
  {
    var g := c / 32 % 64;
    Green(c);
    LowGreen(c);
    SmallByte(4 * g + g / 16);
  }

  lemma WideRed(c: nat)
    requires c < 0x1_0000
    ensures Red565(c) % 256 == 8 * (c / 2048) + c / 2048 / 4
  {
    Red(c);
    LowRed(c);
  }

  lemma LowBlue(c: nat)
    ensures c / 4 % 8 == c % 32 / 4
  {
    assert c / 4 == 8 * (c / 32) + c % 32 / 4;
  }

  lemma LowGreen(c: nat)
    ensures c / 512 % 4 == c / 32 % 64 / 16
  {
    var g := c / 32;
    assert c / 512 == g / 16;
    assert g / 16 == 4 * (g / 64) + g % 64 / 16;
  }

  lemma LowRed(c: nat)
    requires c < 0x1_0000
    ensures c / 2048 % 32 == c / 2048 && c / 8192 % 8 == c / 2048 / 4
  {}

  /** `or` of a field shifted up by k with k or fewer low digits. */
  lemma Widened(high: nat, low: nat, k: nat)
    requires low < Pow2(k)
    ensures Or(Shl(high, k), low) == high * Pow2(k) + low
  {
    OrOfDisjoint(high, low, k);
    ShlMultiplies(high, k);
  }

  lemma BlueHighPart(c: nat)
    ensures And(c, 0x1F) == c % 32
  {
    assert Pow2(5) == 32;
    MaskIsRemainder(c, 5);
  }

  lemma BlueLowPart(c: nat)
    ensures Shr(And(c, 0x1C), 2) == c / 4 % 8
  {
    assert Pow2(3) == 8 && Pow2(2) == 4 && Shl(7, 2) == 0x1C;
    Field(c, 3, 2);
  }

  lemma Blue(c: nat)
    ensures Blue565(c) == 8 * (c % 32) + c / 4 % 8
  {
    BlueHighPart(c);
    BlueLowPart(c);
    assert Pow2(3) == 8;
    Widened(c % 32, c / 4 % 8, 3);
  }

  /** Masking a field out and shifting it down by less than its position keeps it scaled. */
  lemma ShiftedDownField(x: nat, width: nat, k: nat, down: nat)
    requires down <= k
    ensures Shr(And(x, Shl(Pow2(width) - 1, k)), down) == Shl(x / Pow2(k) % Pow2(width), k - down)
  {
    MaskedInPlace(x, Pow2(width) - 1, k);
    ShrDivides(x, k);
    MaskIsRemainder(Shr(x, k), width);
    ShrOfShl(x / Pow2(k) % Pow2(width), k, down);
  }

  lemma {:induction false} ShrOfShl(x: nat, k: nat, down: nat)
    requires down <= k
    ensures Shr(Shl(x, k), down) == Shl(x, k - down)
    decreases down
  {
    if down > 0 { ShrOfShl(x, k - 1, down - 1); }
  }

  lemma GreenHighPart(c: nat)
    ensures Shr(And(c, 0x7E0), 3) == Shl(c / 32 % 64, 2)
  {
    assert Pow2(6) == 64 && Pow2(5) == 32 && Shl(63, 5) == 0x7E0;
    ShiftedDownField(c, 6, 5, 3);
  }

  lemma GreenLowPart(c: nat)
    ensures Shr(And(c, 0x600), 9) == c / 512 % 4
  {
    assert Pow2(2) == 4 && Pow2(9) == 512 && Shl(3, 9) == 0x600;
    Field(c, 2, 9);
  }

  lemma Green(c: nat)
    ensures Green565(c) == 4 * (c / 32 % 64) + c / 512 % 4
  {
    GreenHighPart(c);
    GreenLowPart(c);
    assert Pow2(2) == 4;
    Widened(c / 32 % 64, c / 512 % 4, 2);
  }

  lemma RedHighPart(c: nat)
    ensures Shr(And(c, 0xF800), 8) == Shl(c / 2048 % 32, 3)
  {
    assert Pow2(5) == 32 && Pow2(11) == 2048 && Shl(31, 11) == 0xF800;
    ShiftedDownField(c, 5, 11, 8);
  }

  lemma RedLowPart(c: nat)
    ensures Shr(And(c, 0xE000), 13) == c / 8192 % 8
  {
    assert Pow2(3) == 8 && Pow2(13) == 8192 && Shl(7, 13) == 0xE000;
    Field(c, 3, 13);
  }

  lemma Red(c: nat)
    ensures Red565(c) == 8 * (c / 2048 % 32) + c / 8192 % 8
  {
    RedHighPart(c);
    RedLowPart(c);
    assert Pow2(3) == 8;
    Widened(c / 2048 % 32, c / 8192 % 8, 3);
  }

  // ---- palettes ----

  /** C's integer division. */
  function Div(a: int, b: int): int
    requires b > 0
  {
    if a >= 0 then a / b else -((-a) / b)
  }

  /** The cast of a byte to int8_t. */
  function SignedByte(b: nat): (x: int)
    ensures b < 256 ==> -128 <= x < 128 && x % 256 == b
  {
    if b < 128 then b else b - 256
  }

  function Endpoint(data: nat, which: nat, isSigned: bool): int {
    var b := if which == 0 then And(data, 0xFF) else Shr(And(data, 0xFF00), 8);
    if isSigned then SignedByte(b % 256) else b % 256
  }

  /** The eight values of a BC3 alpha, BC4 or BC5 channel. */
  function ChannelEntry(c0: int, c1: int, isSigned: bool, i: nat): int
    requires i < 8
  {
    if i == 0 then c0
    else if i == 1 then c1
    else if c0 > c1 then Div((8 - i) * c0 + (i - 1) * c1, 7)
    else if i < 6 then Div((6 - i) * c0 + (i - 1) * c1, 5)
    else if i == 6 then (if isSigned then -128 else 0)
    else (if isSigned then 127 else 255)
  }

  function Min(a: int, b: int): int { if a < b then a else b }
  function Max(a: int, b: int): int { if a > b then a else b }

  /** `m` is the mean of `a` and `b` with weights `u` and `v`, rounded toward zero: the
      weighted sum lies in the one interval of u + v numbers that C's division sends to m.
      So m lies between the numbers averaged. */
  ghost predicate IsTruncatedMean(m: int, a: int, b: int, u: nat, v: nat) {
    var d, t := u + v, u * a + v * b;
    && (t >= 0 ==> d * m <= t < d * m + d)
    && (t < 0 ==> d * m - d < t <= d * m)
    && Min(a, b) <= m <= Max(a, b)
  }

  lemma DivIsMean(a: int, b: int, u: nat, v: nat)
    requires u + v > 0
    ensures IsTruncatedMean(Div(u * a + v * b, u + v), a, b, u, v)
  {
    var d, s := u + v, u * a + v * b;
    WeightedBounds(a, b, u, v);
    DivTruncates(s, d);
    BetweenMultiples(s, d, Div(s, d), Min(a, b), Max(a, b));
  }

  lemma DivTruncates(s: int, d: nat)
    requires d > 0
    ensures s >= 0 ==> d * Div(s, d) <= s < d * Div(s, d) + d
    ensures s < 0 ==> d * Div(s, d) - d < s <= d * Div(s, d)
  {
    if s < 0 { Negated(d, (-s) / d); }
  }

  lemma Negated(d: int, q: int)
    ensures d * -q == -(d * q)
  {}

  lemma WeightedBounds(a: int, b: int, u: nat, v: nat)
    ensures (u + v) * Min(a, b) <= u * a + v * b <= (u + v) * Max(a, b)
  {
    var lo, hi := Min(a, b), Max(a, b);
    Distribute(lo, u, v);
    Distribute(hi, u, v);
  }

  lemma BetweenMultiples(s: int, d: nat, m: int, lo: int, hi: int)
    requires d > 0 && m == Div(s, d) && d * lo <= s <= d * hi
    ensures lo <= m <= hi
  {
    if m < lo { FactorGap(d, m, lo); }
    if m > hi { FactorGap(d, hi, m); }
  }

  /** The eight channel values: endpoints, then weighted means of the endpoints in seven or
      five parts, then the format's constants. */
  lemma ChannelEntryMeans(c0: int, c1: int, isSigned: bool, i: nat)
    requires i < 8
    ensures var e := ChannelEntry(c0, c1, isSigned, i);
      && (i == 0 ==> e == c0) && (i == 1 ==> e == c1)
      && (i >= 2 && c0 > c1 ==> IsTruncatedMean(e, c0, c1, 8 - i, i - 1))
      && (2 <= i < 6 && c0 <= c1 ==> IsTruncatedMean(e, c0, c1, 6 - i, i - 1))
      && (i >= 6 && c0 <= c1 ==> e == if i == 6 then (if isSigned then -128 else 0) else if isSigned then 127 else 255)
  {
    if i >= 2 && c0 > c1 {
      DivIsMean(c0, c1, 8 - i, i - 1);
    } else if 2 <= i < 6 {
      DivIsMean(c0, c1, 6 - i, i - 1);
    }
  }

  /** The endpoints are the first two bytes of the block. */
  lemma EndpointIsByte(data: nat, isSigned: bool)
    ensures var b0, b1 := data % 256, data / 256 % 256;
      && Endpoint(data, 0, isSigned) == (if isSigned then SignedByte(b0) else b0)
      && Endpoint(data, 1, isSigned) == (if isSigned then SignedByte(b1) else b1)
  {
    assert Pow2(8) == 256 && Shl(0xFF, 8) == 0xFF00;
    MaskIsRemainder(data, 8);
    Field(data, 8, 8);
  }

  /** What BCDecoder_decodeChannel stores for a texel. */
  function ChannelTexel(data: nat, isSigned: bool, i: nat): byte {
    ChannelEntry(Endpoint(data, 0, isSigned), Endpoint(data, 1, isSigned), isSigned,
                 ChannelIdx(data, i) % 8) % 256
  }

  /** No channel value is lost by the cast to uint8_t. */
  lemma ChannelTexelFits(data: nat, isSigned: bool, i: nat)
    ensures ChannelIdx(data, i) < 8
    ensures var v := ChannelTexel(data, isSigned, i);
      (if isSigned then SignedByte(v) else v)
      == ChannelEntry(Endpoint(data, 0, isSigned), Endpoint(data, 1, isSigned), isSigned, ChannelIdx(data, i))
  {
    ChannelIdxIsDigit(data, i);
    EntryRange(Endpoint(data, 0, isSigned), Endpoint(data, 1, isSigned), isSigned, ChannelIdx(data, i));
    StoredChannel(data, isSigned, i, ChannelIdx(data, i));
  }

  lemma StoredChannel(data: nat, isSigned: bool, i: nat, k: nat)
    requires ChannelIdx(data, i) == k < 8
    ensures ChannelTexel(data, isSigned, i)
         == ChannelEntry(Endpoint(data, 0, isSigned), Endpoint(data, 1, isSigned), isSigned, k) % 256
  {
    assert ChannelIdx(data, i) % 8 == k;
  }

  lemma EntryRange(c0: int, c1: int, isSigned: bool, k: nat)
    requires k < 8
    requires if isSigned then -128 <= Min(c0, c1) && Max(c0, c1) <= 127 else 0 <= Min(c0, c1) && Max(c0, c1) <= 255
    ensures var e := ChannelEntry(c0, c1, isSigned, k);
      && (if isSigned then -128 <= e <= 127 else 0 <= e <= 255)
      && (if isSigned then SignedByte(e % 256) else e % 256) == e
  {
    ChannelEntryMeans(c0, c1, isSigned, k);
  }

  /** Channel `ch` of a widened endpoint: blue, green, red, and opaque alpha. */
  function EndColor(c565: nat, ch: nat): (e: int)
    requires ch < 4
    ensures 0 <= e < 256
  {
    if ch == 3 then 255 else Extract565(c565)[ch]
  }

  /** Channel `ch` of the four colours of a BC1, BC2 or BC3 block. */
  function ColorEntry(c0: nat, c1: nat, hasAlpha: bool, separate: bool, k: nat, ch: nat): int
    requires k < 4 && ch < 4
  {
    var a, b := EndColor(c0, ch), EndColor(c1, ch);
    if k == 0 then a
    else if k == 1 then b
    else if separate || c0 > c1 then (if k == 2 then (a * 2 + b) / 3 else (b * 2 + a) / 3)
    else if k == 2 then (a + b) / 2
    else if ch == 3 && !hasAlpha then 255 else 0
  }

  /** Entries two and three lie a third and two thirds of the way, or entry two lies half
      way and entry three is black, transparent when the format has alpha; and all are
      bytes. Only BC1 without separate alpha ever uses the three-colour form. */
  lemma ColorEntryMeans(c0: nat, c1: nat, hasAlpha: bool, separate: bool, k: nat, ch: nat)
    requires k < 4 && ch < 4
    ensures var a, b, e := EndColor(c0, ch), EndColor(c1, ch), ColorEntry(c0, c1, hasAlpha, separate, k, ch);
      && 0 <= e < 256
      && (ch == 3 ==> e == if k == 3 && hasAlpha && !separate && c0 <= c1 then 0 else 255)
      && (separate || c0 > c1 ==>
            (k == 2 ==> IsTruncatedMean(e, a, b, 2, 1)) && (k == 3 ==> IsTruncatedMean(e, b, a, 2, 1)))
      && (!separate && c0 <= c1 ==> (k == 2 ==> IsTruncatedMean(e, a, b, 1, 1)) && (k == 3 && ch < 3 ==> e == 0))
  {
    DivIsMean(EndColor(c0, ch), EndColor(c1, ch), 2, 1);
    DivIsMean(EndColor(c1, ch), EndColor(c0, ch), 2, 1);
    DivIsMean(EndColor(c0, ch), EndColor(c1, ch), 1, 1);
  }

  /** What BCDecoder_decodeColor stores for a texel's channel. */
  function ColorTexel(c0: nat, c1: nat, idx: nat, hasAlpha: bool, separate: bool, i: nat, ch: nat): byte
    requires ch < 4
  {
    ColorEntry(c0, c1, hasAlpha, separate, ColorIdx(idx, i) % 4, ch) % 256
  }

  // ---- what a stored byte means ----

  /** Channel `ch` of a 565 colour, its five or six bits widened. */
  function Wide565(c565: nat, ch: nat): nat {
    var b, g, r := c565 % 32, c565 / 32 % 64, c565 / 2048;
    if ch == 0 then 8 * b + b / 4 else if ch == 1 then 4 * g + g / 16 else if ch == 2 then 8 * r + r / 4 else 255
  }

  /** `v` is channel `ch` of colour `k`. */
  ghost predicate IsColor(v: int, k: nat, c0: nat, c1: nat, hasAlpha: bool, separate: bool, ch: nat) {
    var a, b, four := Wide565(c0, ch), Wide565(c1, ch), separate || c0 > c1;
    if ch == 3 then v == if k == 3 && hasAlpha && !four then 0 else 255
    else if k == 0 then v == a
    else if k == 1 then v == b
    else if four then (if k == 2 then IsTruncatedMean(v, a, b, 2, 1) else IsTruncatedMean(v, b, a, 2, 1))
    else if k == 2 then IsTruncatedMean(v, a, b, 1, 1)
    else v == 0
  }

  lemma EntryIsColor(c0: nat, c1: nat, hasAlpha: bool, separate: bool, k: nat, ch: nat)
    requires c0 < 0x1_0000 && c1 < 0x1_0000 && k < 4 && ch < 4
    ensures var e := ColorEntry(c0, c1, hasAlpha, separate, k, ch);
      0 <= e < 256 && IsColor(e, k, c0, c1, hasAlpha, separate, ch)
  {
    EndColorWide(c0, ch);
    EndColorWide(c1, ch);
    ColorEntryMeans(c0, c1, hasAlpha, separate, k, ch);
  }

  lemma EndColorWide(c565: nat, ch: nat)
    requires c565 < 0x1_0000 && ch < 4
    ensures EndColor(c565, ch) == Wide565(c565, ch)
  {
    Extract565Widens(c565);
  }

  lemma ColorDigit(idx: nat, i: nat)
    ensures ColorIdx(idx, i) == Shr(idx, 2 * i) % 4 < 4
  {
    ColorIdxIsDigit(idx, i);
    ShrDivides(idx, 2 * i);
  }

  lemma StoredEntry(c0: nat, c1: nat, idx: nat, hasAlpha: bool, separate: bool, i: nat, ch: nat, k: nat)
    requires ch < 4 && ColorIdx(idx, i) == k < 4
    ensures ColorTexel(c0, c1, idx, hasAlpha, separate, i, ch) == ColorEntry(c0, c1, hasAlpha, separate, k, ch) % 256
  {
    assert ColorIdx(idx, i) % 4 == k;
  }

  /** What is stored for a texel is the colour that the i-th two-bit digit of `idx` selects. */
  lemma ColorTexelMeans(c0: nat, c1: nat, idx: nat, hasAlpha: bool, separate: bool, i: nat, ch: nat)
    requires c0 < 0x1_0000 && c1 < 0x1_0000 && ch < 4
    ensures IsColor(ColorTexel(c0, c1, idx, hasAlpha, separate, i, ch), Shr(idx, 2 * i) % 4, c0, c1, hasAlpha, separate,
                    ch)
  {
    var k := Shr(idx, 2 * i) % 4;
    ColorDigit(idx, i);
    StoredEntry(c0, c1, idx, hasAlpha, separate, i, ch, k);
    EntryIsColor(c0, c1, hasAlpha, separate, k, ch);
    SmallByte(ColorEntry(c0, c1, hasAlpha, separate, k, ch));
  }

  lemma SmallByte(e: int)
    requires 0 <= e < 256
    ensures e % 256 == e
  {}

  lemma ChannelDigit(data: nat, i: nat)
    ensures ChannelIdx(data, i) == Shr(data, 3 * i + 16) % 8 < 8
  {
    ChannelIdxIsDigit(data, i);
    ShrDivides(data, 3 * i + 16);
  }

  lemma AlphaDigit(data: nat, i: nat)
    ensures Alpha(data, i) == 17 * (Shr(data, 4 * i) % 16)
  {
    AlphaIsDigit(data, i);
    ShrDivides(data, 4 * i);
  }

  /** `v` is value `k` of a channel whose endpoints are the first two bytes of `data`. */
  ghost predicate IsChannel(v: byte, k: nat, data: nat, isSigned: bool) {
    var b0, b1 := data % 256, data / 256 % 256;
    if isSigned then IsEntry(SignedByte(v), k, SignedByte(b0), SignedByte(b1), -128, 127)
    else IsEntry(v, k, b0, b1, 0, 255)
  }

  ghost predicate IsEntry(v: int, k: nat, c0: int, c1: int, low: int, high: int) {
    if k == 0 then v == c0
    else if k == 1 then v == c1
    else if c0 > c1 then k < 8 && IsTruncatedMean(v, c0, c1, 8 - k, k - 1)
    else if k < 6 then IsTruncatedMean(v, c0, c1, 6 - k, k - 1)
    else if k == 6 then v == low
    else v == high
  }

  lemma EntryIsEntry(c0: int, c1: int, isSigned: bool, k: nat)
    requires k < 8
    ensures IsEntry(ChannelEntry(c0, c1, isSigned, k), k, c0, c1, if isSigned then -128 else 0,
                    if isSigned then 127 else 255)
  {
    ChannelEntryMeans(c0, c1, isSigned, k);
  }

  /** What is stored for a texel is the value that the i-th three-bit digit behind the endpoints
      selects. */
  lemma ChannelTexelMeans(data: nat, isSigned: bool, i: nat)
    ensures IsChannel(ChannelTexel(data, isSigned, i), Shr(data, 3 * i + 16) % 8, data, isSigned)
  {
    ChannelTexelFits(data, isSigned, i);
    ChannelDigit(data, i);
    EndpointIsByte(data, isSigned);
    EntryIsEntry(Endpoint(data, 0, isSigned), Endpoint(data, 1, isSigned), isSigned, Shr(data, 3 * i + 16) % 8);
  }

  // ---- the palette loops ----

  method FillChannelPalette(data: nat, isSigned: bool) returns (c: array<int>)
    ensures c.Length == 8
    ensures forall i: nat | i < 8 ::
              c[i] == ChannelEntry(Endpoint(data, 0, isSigned), Endpoint(data, 1, isSigned), isSigned, i)
  {
    c := new int[8](_ => 0);
    c[0] := Endpoint(data, 0, isSigned);
    c[1] := Endpoint(data, 1, isSigned);
    if c[0] > c[1] {
      FillSevenths(c);
    } else {
      FillFifths(c);
      c[6] := if isSigned then -128 else 0;
      c[7] := if isSigned then 127 else 255;
    }
  }

  method FillSevenths(c: array<int>)
    requires c.Length == 8
    modifies c
    ensures c[0] == old(c[0]) && c[1] == old(c[1])
    ensures forall k: nat | 2 <= k < 8 :: c[k] == Div((8 - k) * c[0] + (k - 1) * c[1], 7)
  {
    for i := 2 to 8
      invariant c[0] == old(c[0]) && c[1] == old(c[1])
      invariant forall k: nat | 2 <= k < i :: c[k] == Div((8 - k) * c[0] + (k - 1) * c[1], 7)
    {
      c[i] := Div((8 - i) * c[0] + (i - 1) * c[1], 7);
    }
  }

  method FillFifths(c: array<int>)
    requires c.Length == 8
    modifies c
    ensures c[0] == old(c[0]) && c[1] == old(c[1])
    ensures forall k: nat | 2 <= k < 6 :: c[k] == Div((6 - k) * c[0] + (k - 1) * c[1], 5)
  {
    for i := 2 to 6
      invariant c[0] == old(c[0]) && c[1] == old(c[1])
      invariant forall k: nat | 2 <= k < i :: c[k] == Div((6 - k) * c[0] + (k - 1) * c[1], 5)
    {
      c[i] := Div((6 - i) * c[0] + (i - 1) * c[1], 5);
    }
  }

  method FillColorPalette(c0: nat, c1: nat, hasAlpha: bool, separate: bool) returns (c: array2<int>)
    ensures c.Length0 == 4 && c.Length1 == 4 && fresh(c)
    ensures forall k: nat, ch: nat | k < 4 && ch < 4 :: c[k, ch] == ColorEntry(c0, c1, hasAlpha, separate, k, ch)
  {
    c := new int[4, 4]((k, ch) => 0);
    c[0, 3], c[1, 3], c[2, 3], c[3, 3] := 255, 255, 255, 255;
    StoreEndpoint(c, 0, c0);
    StoreEndpoint(c, 1, c1);
    StoreMeans(c, c0, c1, hasAlpha, separate);
  }

  /** The other two colours, behind the endpoints. */
  method StoreMeans(c: array2<int>, c0: nat, c1: nat, hasAlpha: bool, separate: bool)
    requires c.Length0 == 4 && c.Length1 == 4 && c[3, 0] == c[3, 1] == c[3, 2] == 0 && c[3, 3] == 255
    requires forall ch: nat | ch < 4 :: c[0, ch] == EndColor(c0, ch) && c[1, ch] == EndColor(c1, ch)
    modifies c
    ensures forall k: nat, ch: nat | k < 4 && ch < 4 :: c[k, ch] == ColorEntry(c0, c1, hasAlpha, separate, k, ch)
  {
    if separate || c0 > c1 {
      StoreThirds(c);
    } else {
      StoreHalves(c);
      if hasAlpha { c[3, 3] := 0; }
    }
  }

  method StoreThirds(c: array2<int>)
    requires c.Length0 == 4 && c.Length1 == 4
    modifies c
    ensures forall ch: nat | ch < 4 :: c[0, ch] == old(c[0, ch]) && c[1, ch] == old(c[1, ch])
    ensures forall ch: nat | ch < 4 ::
              c[2, ch] == (c[0, ch] * 2 + c[1, ch]) / 3 && c[3, ch] == (c[1, ch] * 2 + c[0, ch]) / 3
  {
    for i := 0 to 4
      invariant forall ch: nat | ch < 4 :: c[0, ch] == old(c[0, ch]) && c[1, ch] == old(c[1, ch])
      invariant forall ch: nat | ch < i ::
                  c[2, ch] == (c[0, ch] * 2 + c[1, ch]) / 3 && c[3, ch] == (c[1, ch] * 2 + c[0, ch]) / 3
    {
      c[2, i] := (c[0, i] * 2 + c[1, i]) / 3;
      c[3, i] := (c[1, i] * 2 + c[0, i]) / 3;
    }
  }

  method StoreHalves(c: array2<int>)
    requires c.Length0 == 4 && c.Length1 == 4
    modifies c
    ensures forall k: nat, ch: nat | k < 4 && ch < 4 && k != 2 :: c[k, ch] == old(c[k, ch])
    ensures forall ch: nat | ch < 4 :: c[2, ch] == (c[0, ch] + c[1, ch]) / 2
  {
    for i := 0 to 4
      invariant forall k: nat, ch: nat | k < 4 && ch < 4 && k != 2 :: c[k, ch] == old(c[k, ch])
      invariant forall ch: nat | ch < i :: c[2, ch] == (c[0, ch] + c[1, ch]) / 2
    {
      c[2, i] := (c[0, i] + c[1, i]) / 2;
    }
  }

  /** BCDecoder_extract565 into a row whose alpha is already set. */
  method StoreEndpoint(c: array2<int>, row: nat, c565: nat)
    requires c.Length0 == 4 && c.Length1 == 4 && row < 4 && c[row, 3] == 255
    modifies c
    ensures forall ch: nat | ch < 4 :: c[row, ch] == EndColor(c565, ch)
    ensures forall k: nat, ch: nat | k < 4 && ch < 4 && k != row :: c[k, ch] == old(c[k, ch])
  {
    var e := Extract565(c565);
    c[row, 0] := e[0];
    c[row, 1] := e[1];
    c[row, 2] := e[2];
  }
}
