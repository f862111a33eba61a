/** How far the border channel reaches: the frame side and the noise it tolerates are exact bounds. */
module Limits {
  import opened Bits
  import opened Border
  import opened Frames

  /** Bit i of one embedded frame survives one noisy copy g of it. */
  ghost predicate BitReads(f: seq<Byte>, w: nat, h: nat, bits: seq<Bit>, cursor: nat, g: seq<int>, d: nat, i: nat)
  {
    IsFrame(f, w, h) && Near(EmbedFrame(f, w, h, bits, cursor), g, d) &&
    i < Capacity(w, h) && cursor + i < |bits| ==>
      IsFrame(g, w, h) && ReadBit(g, w, h, Positions(w, h)[i]) == bits[cursor + i]
  }

  /** Every painted bit is read back on every frame whose sides are at least `side`, through noise up to `d`;
      `bytes` says that the received values are bytes. */
  ghost predicate Recovers(side: nat, d: nat, bytes: bool)
  {
    forall f: seq<Byte>, w: nat, h: nat, bits: seq<Bit>, cursor: nat, g: seq<int>, i: nat ::
      w >= side && h >= side && (bytes ==> InBytes(g)) ==> BitReads(f, w, h, bits, cursor, g, d, i)
  }

  /** The last block painted is on top everywhere. */
  lemma {:induction false} LastOnTop(f: seq<Byte>, w: nat, h: nat, ps: seq<Pos>, bits: seq<Bit>, cursor: nat,
                                     y: nat, x: nat, c: nat)
    requires IsFrame(f, w, h) && y < h && x < w && c < 3
    requires ps != [] && cursor + |ps| <= |bits| && Inside(Patch(ps[|ps| - 1], w, h), y, x)
    ensures At(w, y, x, c) < |f|
    ensures PaintBits(f, w, h, ps, bits, cursor)[At(w, y, x, c)] == Color(bits[cursor + |ps| - 1])
    decreases |ps|
  {
    var r, color := Patch(ps[0], w, h), Color(bits[cursor]);
    PaintAt(f, w, h, r, color, y, x, c);
    var f' := Paint(f, w, r, color);
    if |ps| == 1 {
      assert PaintBits(f', w, h, ps[1..], bits, cursor + 1) == f';
    } else {
      LastOnTop(f', w, h, ps[1..], bits, cursor + 1, y, x, c);
    }
  }

  /** Inside the first block every pixel is two-tone; where no later block reaches it shows the first bit. */
  lemma FirstBlock(f: seq<Byte>, w: nat, h: nat, ps: seq<Pos>, bits: seq<Bit>, cursor: nat, y: nat, x: nat, c: nat)
    requires IsFrame(f, w, h) && y < h && x < w && c < 3
    requires ps != [] && cursor < |bits| && Inside(Patch(ps[0], w, h), y, x)
    ensures At(w, y, x, c) < |f|
    ensures PaintBits(f, w, h, ps, bits, cursor)[At(w, y, x, c)] in {ZERO, ONE}
    ensures ClearOf(ps[1..], w, h, y, x) ==>
              PaintBits(f, w, h, ps, bits, cursor)[At(w, y, x, c)] == Color(bits[cursor])
  {
    var r, color := Patch(ps[0], w, h), Color(bits[cursor]);
    PaintAt(f, w, h, r, color, y, x, c);
    PaintBitsKeeps(Paint(f, w, r, color), w, h, ps[1..], bits, cursor + 1, y, x, c);
  }

  lemma Positions7()
    ensures Positions(7, 7) == [Pos(2, 0), Pos(2, 6), Pos(6, 4), Pos(4, 1)]
  {
    assert Top(12, 7) == [] && Top(6, 7) == [Pos(2, 6)] && Top(0, 7) == [Pos(2, 0), Pos(2, 6)];
    assert Right(12, 7, 7) == [] && Right(6, 7, 7) == [Pos(6, 4)];
    assert Bottom(-5, 7) == [] && Bottom(1, 7) == [Pos(4, 1)];
    assert Left(1) == [];
  }

  lemma Positions8()
    ensures Positions(8, 8) == [Pos(2, 0), Pos(2, 6), Pos(6, 5), Pos(5, 2)]
  {
    assert Top(12, 8) == [] && Top(6, 8) == [Pos(2, 6)] && Top(0, 8) == [Pos(2, 0), Pos(2, 6)];
    assert Right(12, 8, 8) == [] && Right(6, 8, 8) == [Pos(6, 5)];
    assert Bottom(-4, 8) == [] && Bottom(2, 8) == [Pos(5, 2)];
    assert Left(2) == [];
  }

  /** On every 7 x 7 frame the last block hides three of the first block's five rows. */
  lemma SevenFails(f: seq<Byte>, w: nat, h: nat, bits: seq<Bit>, cursor: nat)
    requires w == 7 && h == 7 && IsFrame(f, w, h)
    requires cursor + 4 <= |bits| && bits[cursor + 3] == 0
    ensures ReadBit(EmbedFrame(f, w, h, bits, cursor), w, h, Pos(2, 0)) == 0
  {
    Positions7();
    var ps := Positions(w, h);
    var e := EmbedFrame(f, w, h, bits, cursor);
    var r, covered := Rect(0, 5, 0, 3), Rect(2, 5, 0, 3);
    forall y: nat, x: nat, c: nat | y < h && x < w && c < 3 && Inside(r, y, x)
      ensures At(w, y, x, c) < |e| && 16 <= e[At(w, y, x, c)] <= 239
      ensures Inside(covered, y, x) ==> e[At(w, y, x, c)] <= 17
    {
      FirstBlock(f, w, h, ps, bits, cursor, y, x, c);
      if Inside(covered, y, x) { LastOnTop(f, w, h, ps, bits, cursor, y, x, c); }
    }
    HiddenRows(e, w, h, r, covered);
  }

  lemma HiddenRows(e: seq<int>, w: nat, h: nat, r: Rect, covered: Rect)
    requires IsFrame(e, w, h) && w >= 5 && h >= 5 && Patch(Pos(2, 0), w, h) == r
    requires covered == r.(y0 := 2) && Between(e, w, h, r, 16, 239) && Between(e, w, h, covered, 16, 17)
    ensures ReadBit(e, w, h, Pos(2, 0)) == 0
  {
    BetweenIsWithin(e, w, h, r, 16, 239);
    BetweenIsWithin(e, w, h, covered, 16, 17);
    FiveRows(PictureOf(e, w, h), r, covered, r.y0, r.y0 + 2, r.y1, r.x0, r.x1, 16, 239, 16, 17);
    FifteenPixels(e, w, h, 3 * (9 * 17 + 6 * 239));
  }

  /** Every value lowered by d, and by no more than it has when the result must be bytes. */
  function Lowered(e: seq<Byte>, d: nat, bytes: bool): (g: seq<int>)
    ensures |g| == |e| && forall k :: 0 <= k < |e| ==> g[k] == if bytes && e[k] < d then 0 else e[k] - d
  {
    seq(|e|, k requires 0 <= k < |e| => if bytes && e[k] < d then 0 else e[k] - d)
  }

  lemma LoweredIsNear(e: seq<Byte>, d: nat, bytes: bool)
    requires d >= TooMuch(bytes)
    ensures Near(e, Lowered(e, TooMuch(bytes), bytes), d)
    ensures bytes ==> InBytes(Lowered(e, TooMuch(bytes), bytes))
  {
  }

  /** The first amount that is too much. */
  function TooMuch(bytes: bool): nat
  {
    if bytes then BYTE_NOISE + 1 else NOISE + 1
  }

  /** On an 8 x 8 frame the last block hides two of the first block's five rows; with a one below a zero
      and no low bit set in the first block, lowering every value by 22, or by 25 down to black, takes the
      mean below the threshold. */
  lemma LoweringFails(f: seq<Byte>, w: nat, h: nat, bits: seq<Bit>, g: seq<int>, bytes: bool)
    requires w == 8 && h == 8 && IsFrame(f, w, h)
    requires |bits| == 13 && bits[12] == 0 && forall k :: 0 <= k < 9 ==> bits[k] == 0
    requires g == Lowered(EmbedFrame(f, w, h, bits, 9), TooMuch(bytes), bytes)
    ensures ReadBit(g, w, h, Pos(2, 0)) == 0
  {
    LoweredBlock(f, w, h, bits, g, bytes);
    if bytes {
      LowRows(g, w, h, Rect(0, 5, 0, 3), Rect(3, 5, 0, 3), 213, 0);
    } else {
      LowRows(g, w, h, Rect(0, 5, 0, 3), Rect(3, 5, 0, 3), 216, -5);
    }
  }

  lemma LowRows(g: seq<int>, w: nat, h: nat, r: Rect, low: Rect, a: int, b: int)
    requires IsFrame(g, w, h) && w >= 5 && h >= 5 && Patch(Pos(2, 0), w, h) == r && low == r.(y0 := 3)
    requires Between(g, w, h, r, -9, a) && Between(g, w, h, low, -9, b) && 27 * a + 18 * b < 5760
    ensures ReadBit(g, w, h, Pos(2, 0)) == 0
  {
    BetweenIsWithin(g, w, h, r, -9, a);
    BetweenIsWithin(g, w, h, low, -9, b);
    LowSum(PictureOf(g, w, h), r, low, r.y0, low.y0, r.y1, r.x0, r.x1, a, b);
    FifteenPixels(g, w, h, 27 * a + 18 * b);
  }

  /** The first block of a frame at least five wide and high has fifteen pixels. */
  lemma FifteenPixels(g: seq<int>, w: nat, h: nat, top: int)
    requires IsFrame(g, w, h) && w >= 5 && h >= 5 && top < 5760
    requires RectSum(PictureOf(g, w, h), 0, 5, 0, 3) <= top
    ensures ReadBit(g, w, h, Pos(2, 0)) == 0
  {
    assert Patch(Pos(2, 0), w, h) == Rect(0, 5, 0, 3);
  }

  lemma LowSum(px: Picture, r: Rect, low: Rect, y0: int, ym: int, y1: int, x0: int, x1: int, a: int, b: int)
    requires r == Rect(y0, y1, x0, x1) && low == Rect(ym, y1, x0, x1) && ym == y0 + 3 && y1 == ym + 2 && x1 == x0 + 3
    requires Within(px, r, -9, a) && Within(px, low, -9, b)
    ensures RectSum(px, y0, y1, x0, x1) <= 27 * a + 18 * b
  {
    Rows(px, r, -9, a, y0, ym, x0, x1, 3);
    Rows(px, low, -9, b, ym, y1, x0, x1, 3);
    RectSplit(px, y0, ym, y1, x0, x1);
  }

  lemma LoweredBlock(f: seq<Byte>, w: nat, h: nat, bits: seq<Bit>, g: seq<int>, bytes: bool)
    requires w == 8 && h == 8 && IsFrame(f, w, h)
    requires |bits| == 13 && bits[12] == 0 && forall k :: 0 <= k < 9 ==> bits[k] == 0
    requires g == Lowered(EmbedFrame(f, w, h, bits, 9), TooMuch(bytes), bytes)
    ensures Between(g, w, h, Rect(0, 5, 0, 3), -9, if bytes then 213 else 216)
    ensures Between(g, w, h, Rect(3, 5, 0, 3), -9, if bytes then 0 else -5)
  {
    Positions8();
    var ps := Positions(w, h);
    var painted, e := PaintBits(f, w, h, ps, bits, 9), EmbedFrame(f, w, h, bits, 9);
    forall y: nat, x: nat, c: nat | y < h && x < w && c < 3 && Inside(Rect(0, 5, 0, 3), y, x)
      ensures At(w, y, x, c) < |g| && -9 <= g[At(w, y, x, c)] <= if bytes then 213 else 216
      ensures Inside(Rect(3, 5, 0, 3), y, x) ==> g[At(w, y, x, c)] <= if bytes then 0 else -5
    {
      var k := At(w, y, x, c);
      FirstBlock(f, w, h, ps, bits, 9, y, x, c);
      if Inside(Rect(3, 5, 0, 3), y, x) { LastOnTop(f, w, h, ps, bits, 9, y, x, c); }
      assert k < 9 || k >= 13;
      assert e[k] <= painted[k] <= e[k] + 1;
    }
  }

  const PATTERN: seq<Bit> := [0, 0, 0, 0, 0, 0, 0, 0, 0, 1, 0, 0, 0]

  function Blank(n: nat): seq<Byte>
  {
    seq(n, _ => 0)
  }

  /** The most noise the channel stands. */
  function Most(bytes: bool): nat
  {
    if bytes then BYTE_NOISE else NOISE
  }

  lemma Survives(f: seq<Byte>, w: nat, h: nat, bits: seq<Bit>, cursor: nat, g: seq<int>, d: nat, i: nat)
    requires w >= 8 && h >= 8 && Tolerable(g, d)
    ensures BitReads(f, w, h, bits, cursor, g, d, i)
  {
    if IsFrame(f, w, h) && Near(EmbedFrame(f, w, h, bits, cursor), g, d) && i < Capacity(w, h) && cursor + i < |bits| {
      BitSurvives(f, w, h, bits, cursor, g, d, i);
    }
  }

  lemma AllSurvive(side: nat, d: nat, bytes: bool)
    requires side >= 8 && d <= Most(bytes)
    ensures Recovers(side, d, bytes)
  {
    forall f: seq<Byte>, w: nat, h: nat, bits: seq<Bit>, cursor: nat, g: seq<int>, i: nat
      | w >= side && h >= side && (bytes ==> InBytes(g))
      ensures BitReads(f, w, h, bits, cursor, g, d, i)
    {
      Survives(f, w, h, bits, cursor, g, d, i);
    }
  }

  /** Sides of at least eight are exactly what recovery needs. */
  lemma SideBound(side: nat, bytes: bool)
    ensures Recovers(side, Most(bytes), bytes) <==> side >= 8
  {
    if side >= 8 {
      AllSurvive(side, Most(bytes), bytes);
    } else {
      var f, w, h := Blank(147), 7, 7;
      var e := EmbedFrame(f, w, h, PATTERN, 9);
      SevenFails(f, w, h, PATTERN, 9);
      Positions7();
      assert InBytes(e);
      assert !BitReads(f, w, h, PATTERN, 9, e, Most(bytes), 0);
    }
  }

  /** Noise of at most 24 is exactly what recovery tolerates when the received values are bytes, and noise of
      at most 21 when they are not kept inside the range of a byte. */
  lemma NoiseBound(d: nat, bytes: bool)
    ensures Recovers(8, d, bytes) <==> d <= if bytes then 24 else 21
  {
    if d <= Most(bytes) {
      AllSurvive(8, d, bytes);
    } else {
      TooNoisy(d, bytes);
    }
  }

  lemma TooNoisy(d: nat, bytes: bool)
    requires d > Most(bytes)
    ensures !Recovers(8, d, bytes)
  {
    var f, w, h := Blank(192), 8, 8;
    var e := EmbedFrame(f, w, h, PATTERN, 9);
    var g := Lowered(e, TooMuch(bytes), bytes);
    LoweringFails(f, w, h, PATTERN, g, bytes);
    Positions8();
    LoweredIsNear(e, d, bytes);
    assert !BitReads(f, w, h, PATTERN, 9, g, d, 0);
  }
}
