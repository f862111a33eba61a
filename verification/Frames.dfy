/** Painting bits into one frame and reading them back through a noisy channel. */
module Frames {
  import opened Bits
  import opened Border

  const ONE: Byte := 238
  const ZERO: Byte := 17
  const THRESHOLD: int := 128

  /** Index of channel c of pixel (y, x) in the row-major view. */
  function At(w: nat, y: nat, x: nat, c: nat): nat
  {
    (y * w + x) * 3 + c
  }

  function RowOf(k: nat, w: nat): nat
    requires w > 0
  {
    (k / 3) / w
  }

  function ColOf(k: nat, w: nat): nat
    requires w > 0
  {
    (k / 3) % w
  }

  lemma AtOk(w: nat, h: nat, y: nat, x: nat, c: nat)
    requires y < h && x < w && c < 3
    ensures At(w, y, x, c) < h * w * 3
    ensures RowOf(At(w, y, x, c), w) == y && ColOf(At(w, y, x, c), w) == x
  {
    DivOfSum(y, w, x);
    assert (y + 1) * w <= h * w by { MulMono(y + 1, h, w); }
    assert (y + 1) * w == y * w + w;
  }

  lemma MulMono(a: nat, b: nat, c: nat)
    requires a <= b
    ensures a * c <= b * c
  {
  }

  predicate IsFrame(f: seq<int>, w: nat, h: nat)
  {
    w > 0 && h > 0 && |f| == h * w * 3
  }

  // ----- embedding

  function Color(b: Bit): Byte
  {
    if b == 1 then ONE else ZERO
  }

  predicate Covers(r: Rect, k: nat, w: nat)
    requires w > 0
  {
    Inside(r, RowOf(k, w), ColOf(k, w))
  }

  /** Every channel of every pixel inside r gets the colour; all others stay. */
  function Paint(f: seq<Byte>, w: nat, r: Rect, color: Byte): (g: seq<Byte>)
    requires w > 0
    ensures |g| == |f|
  {
    seq(|f|, k requires 0 <= k < |f| => if Covers(r, k, w) then color else f[k])
  }

  /** Paint one block per remaining bit, in the order of the positions. */
  function PaintBits(f: seq<Byte>, w: nat, h: nat, ps: seq<Pos>, bits: seq<Bit>, cursor: nat): (g: seq<Byte>)
    requires w > 0
    ensures |g| == |f|
    decreases |ps|
  {
    if ps == [] || cursor >= |bits| then f
    else PaintBits(Paint(f, w, Patch(ps[0], w, h), Color(bits[cursor])), w, h, ps[1..], bits, cursor + 1)
  }

  function NextCursor(cursor: nat, slots: nat, bits: seq<Bit>): nat
  {
    if cursor >= |bits| then cursor else if cursor + slots <= |bits| then cursor + slots else |bits|
  }

  /** Replace the lowest bit of the leading channel values by the payload bits. */
  function WriteLsb(f: seq<Byte>, bits: seq<Bit>): (g: seq<Byte>)
    ensures |g| == |f|
  {
    seq(|f|, k requires 0 <= k < |f| => if k < |bits| then f[k] - f[k] % 2 + bits[k] else f[k])
  }

  function EmbedFrame(f: seq<Byte>, w: nat, h: nat, bits: seq<Bit>, cursor: nat): (g: seq<Byte>)
    requires IsFrame(f, w, h)
    ensures IsFrame(g, w, h)
  {
    WriteLsb(PaintBits(f, w, h, Positions(w, h), bits, cursor), bits)
  }

  method EmbedBorderBits(frame: array<Byte>, width: nat, height: nat, bits: seq<Bit>, cursor: nat)
    returns (next: nat)
    requires IsFrame(frame[..], width, height)
    modifies frame
    ensures frame[..] == PaintBits(old(frame[..]), width, height, Positions(width, height), bits, cursor)
    ensures next == NextCursor(cursor, Capacity(width, height), bits)
  {
    next := cursor;
    var positions := BorderPositions(width, height);
    var i := 0;
    while i < |positions| && next < |bits|
      invariant 0 <= i <= |positions|
      invariant next == NextCursor(cursor, i, bits)
      invariant next < |bits| ==> next == cursor + i
      invariant PaintBits(frame[..], width, height, positions[i..], bits, next)
             == PaintBits(old(frame[..]), width, height, positions, bits, cursor)
    {
      var color := Color(bits[next]);
      PaintRect(frame, width, Patch(positions[i], width, height), color);
      assert positions[i..][1..] == positions[i + 1..];
      next := next + 1;
      i := i + 1;
    }
  }

  /** The slice assignment of the source: one simultaneous write of a clipped block. */
  method PaintRect(frame: array<Byte>, width: nat, r: Rect, color: Byte)
    requires width > 0
    modifies frame
    ensures frame[..] == Paint(old(frame[..]), width, r, color)
  {
    forall k | 0 <= k < frame.Length && Covers(r, k, width) {
      frame[k] := color;
    }
  }

  method EmbedLsbBits(frame: array<Byte>, bits: seq<Bit>)
    modifies frame
    ensures frame[..] == WriteLsb(old(frame[..]), bits)
  {
    var limit := if |bits| < frame.Length then |bits| else frame.Length;
    forall k | 0 <= k < limit {
      frame[k] := frame[k] - frame[k] % 2 + bits[k];
    }
  }

  // ----- reading

  predicate Fit(r: Rect, w: nat, h: nat)
  {
    0 <= r.y0 && r.y1 <= h && 0 <= r.x0 && r.x1 <= w
  }

  function PixelSum(g: seq<int>, w: nat, h: nat, y: nat, x: nat): int
    requires IsFrame(g, w, h) && y < h && x < w
  {
    AtOk(w, h, y, x, 0);
    AtOk(w, h, y, x, 1);
    AtOk(w, h, y, x, 2);
    g[At(w, y, x, 0)] + g[At(w, y, x, 1)] + g[At(w, y, x, 2)]
  }

  /** A picture: the sum of the channel values of every pixel. */
  type Picture = (int, int) -> int

  function PictureOf(g: seq<int>, w: nat, h: nat): Picture
    requires IsFrame(g, w, h)
  {
    (y: int, x: int) => if 0 <= y < h && 0 <= x < w then PixelSum(g, w, h, y, x) else 0
  }

  function RowSum(px: Picture, y: int, x0: int, x1: int): int
    decreases x1 - x0
  {
    if x1 <= x0 then 0 else RowSum(px, y, x0, x1 - 1) + px(y, x1 - 1)
  }

  function RectSum(px: Picture, y0: int, y1: int, x0: int, x1: int): int
    decreases y1 - y0
  {
    if y1 <= y0 then 0 else RectSum(px, y0, y1 - 1, x0, x1) + RowSum(px, y1 - 1, x0, x1)
  }

  /** A block reads as one when the mean over its channel values reaches the threshold. */
  function ReadBit(g: seq<int>, w: nat, h: nat, p: Pos): Bit
    requires IsFrame(g, w, h)
  {
    var r := Patch(p, w, h);
    if r.y1 <= r.y0 || r.x1 <= r.x0 then 0
    else Decide(RectSum(PictureOf(g, w, h), r.y0, r.y1, r.x0, r.x1), (r.y1 - r.y0) * (r.x1 - r.x0))
  }

  /** Compare a sum over three channels of that many pixels with the threshold for the mean. */
  function Decide(sum: int, pixels: int): Bit
  {
    if sum >= THRESHOLD * (3 * pixels) then 1 else 0
  }

  function ReadBits(g: seq<int>, w: nat, h: nat, ps: seq<Pos>): (bits: seq<Bit>)
    requires IsFrame(g, w, h)
    ensures |bits| == |ps|
  {
    seq(|ps|, i requires 0 <= i < |ps| => ReadBit(g, w, h, ps[i]))
  }

  // ----- what painting leaves in a block

  lemma PaintAt(f: seq<Byte>, w: nat, h: nat, r: Rect, color: Byte, y: nat, x: nat, c: nat)
    requires IsFrame(f, w, h) && y < h && x < w && c < 3
    ensures At(w, y, x, c) < |f|
    ensures Paint(f, w, r, color)[At(w, y, x, c)] == if Inside(r, y, x) then color else f[At(w, y, x, c)]
  {
    AtOk(w, h, y, x, c);
  }

  predicate ClearOf(ps: seq<Pos>, w: nat, h: nat, y: nat, x: nat)
  {
    forall i :: 0 <= i < |ps| ==> !Inside(Patch(ps[i], w, h), y, x)
  }

  /** A two-tone pixel stays two-tone, and a pixel outside every remaining block keeps its colour. */
  lemma {:induction false} PaintBitsKeeps(f: seq<Byte>, w: nat, h: nat, ps: seq<Pos>, bits: seq<Bit>, cursor: nat,
                                          y: nat, x: nat, c: nat)
    requires IsFrame(f, w, h) && y < h && x < w && c < 3
    ensures At(w, y, x, c) < |f|
    ensures var k := At(w, y, x, c); var g := PaintBits(f, w, h, ps, bits, cursor);
            && (f[k] in {ZERO, ONE} ==> g[k] in {ZERO, ONE})
            && (ClearOf(ps, w, h, y, x) ==> g[k] == f[k])
    decreases |ps|
  {
    AtOk(w, h, y, x, c);
    if ps != [] && cursor < |bits| {
      var r, color := Patch(ps[0], w, h), Color(bits[cursor]);
      PaintAt(f, w, h, r, color, y, x, c);
      PaintBitsKeeps(Paint(f, w, r, color), w, h, ps[1..], bits, cursor + 1, y, x, c);
    }
  }

  /** After all blocks are painted, block i is two-tone and its core still has the colour of its bit. */
  lemma {:induction false} BlockAfterPainting(f: seq<Byte>, w: nat, h: nat, ps: seq<Pos>, bits: seq<Bit>, cursor: nat,
                                              i: nat, y: nat, x: nat, c: nat)
    requires IsFrame(f, w, h) && y < h && x < w && c < 3
    requires Ordered(ps, w, h) && i < |ps| && cursor + i < |bits|
    requires Inside(Patch(ps[i], w, h), y, x)
    ensures At(w, y, x, c) < |f|
    ensures var k := At(w, y, x, c); var g := PaintBits(f, w, h, ps, bits, cursor);
            && g[k] in {ZERO, ONE}
            && (Inside(Core(ps[i], w, h), y, x) ==> g[k] == Color(bits[cursor + i]))
    decreases |ps|
  {
    var r, color := Patch(ps[0], w, h), Color(bits[cursor]);
    var f' := Paint(f, w, r, color);
    PaintAt(f, w, h, r, color, y, x, c);
    if i == 0 {
      PaintBitsKeeps(f', w, h, ps[1..], bits, cursor + 1, y, x, c);
    } else {
      BlockAfterPainting(f', w, h, ps[1..], bits, cursor + 1, i - 1, y, x, c);
    }
  }

  // ----- sums over blocks

  /** All channel values of the pixels inside r lie between lo and hi. */
  ghost predicate Between(g: seq<int>, w: nat, h: nat, r: Rect, lo: int, hi: int)
    requires IsFrame(g, w, h)
  {
    forall y: nat, x: nat, c: nat :: y < h && x < w && c < 3 && Inside(r, y, x) ==>
      At(w, y, x, c) < |g| && lo <= g[At(w, y, x, c)] <= hi
  }

  /** All pixels of the picture inside r lie between three times lo and three times hi. */
  ghost predicate Within(px: Picture, r: Rect, lo: int, hi: int)
  {
    forall y, x :: Inside(r, y, x) ==> 3 * lo <= px(y, x) <= 3 * hi
  }

  // ----- what a block's sum counts

  /** The two pictures differ by v in one pixel. */
  ghost predicate DifferAt(a: Picture, b: Picture, y: int, x: int, v: int)
  {
    forall j, i :: b(j, i) == a(j, i) + if j == y && i == x then v else 0
  }

  lemma {:induction false} RowMoves(a: Picture, b: Picture, y: int, x: int, v: int, j: int, x0: int, x1: int)
    requires DifferAt(a, b, y, x, v)
    ensures RowSum(b, j, x0, x1) == RowSum(a, j, x0, x1) + if j == y && x0 <= x < x1 then v else 0
    decreases x1 - x0
  {
    if x0 < x1 { RowMoves(a, b, y, x, v, j, x0, x1 - 1); }
  }

  lemma {:induction false} RectMoves(a: Picture, b: Picture, y: int, x: int, v: int, r: Rect)
    requires DifferAt(a, b, y, x, v)
    ensures RectSum(b, r.y0, r.y1, r.x0, r.x1) ==
            RectSum(a, r.y0, r.y1, r.x0, r.x1) + if Inside(r, y, x) then v else 0
    decreases r.y1 - r.y0
  {
    if r.y0 < r.y1 {
      RectMoves(a, b, y, x, v, r.(y1 := r.y1 - 1));
      RowMoves(a, b, y, x, v, r.y1 - 1, r.x0, r.x1);
    }
  }

  lemma AtUnique(w: nat, h: nat, y: nat, x: nat, c: nat, y': nat, x': nat, c': nat)
    requires y < h && x < w && c < 3 && y' < h && x' < w && c' < 3
    ensures At(w, y, x, c) == At(w, y', x', c') <==> y == y' && x == x' && c == c'
  {
    AtOk(w, h, y, x, c);
    AtOk(w, h, y', x', c');
  }

  /** Every channel value of every pixel of a rectangle counts once in its sum, and nothing else does: to change one
      value changes the sum by as much when it is inside, and not otherwise. */
  lemma SumMoves(g: seq<int>, w: nat, h: nat, r: Rect, y: nat, x: nat, c: nat, v: int)
    requires IsFrame(g, w, h) && y < h && x < w && c < 3
    ensures At(w, y, x, c) < |g|
    ensures var k := At(w, y, x, c);
            RectSum(PictureOf(g[k := g[k] + v], w, h), r.y0, r.y1, r.x0, r.x1) ==
            RectSum(PictureOf(g, w, h), r.y0, r.y1, r.x0, r.x1) + if Inside(r, y, x) then v else 0
  {
    AtOk(w, h, y, x, c);
    var k := At(w, y, x, c);
    var g' := g[k := g[k] + v];
    var a, b := PictureOf(g, w, h), PictureOf(g', w, h);
    forall j, i ensures b(j, i) == a(j, i) + if j == y && i == x then v else 0 {
      if 0 <= j < h && 0 <= i < w { PixelMoves(g, w, h, y, x, c, v, j, i); }
    }
    RectMoves(a, b, y, x, v, r);
  }

  lemma PixelMoves(g: seq<int>, w: nat, h: nat, y: nat, x: nat, c: nat, v: int, j: nat, i: nat)
    requires IsFrame(g, w, h) && y < h && x < w && c < 3 && j < h && i < w && At(w, y, x, c) < |g|
    ensures var k := At(w, y, x, c);
            PixelSum(g[k := g[k] + v], w, h, j, i) == PixelSum(g, w, h, j, i) + if j == y && i == x then v else 0
  {
    var k, k0, k1, k2 := At(w, y, x, c), At(w, j, i, 0), At(w, j, i, 1), At(w, j, i, 2);
    assert (k == k0 <==> y == j && x == i && c == 0) && k0 < |g| by {
      AtUnique(w, h, y, x, c, j, i, 0);
      AtOk(w, h, j, i, 0);
    }
    assert (k == k1 <==> y == j && x == i && c == 1) && k1 < |g| by {
      AtUnique(w, h, y, x, c, j, i, 1);
      AtOk(w, h, j, i, 1);
    }
    assert (k == k2 <==> y == j && x == i && c == 2) && k2 < |g| by {
      AtUnique(w, h, y, x, c, j, i, 2);
      AtOk(w, h, j, i, 2);
    }
    ThreeMove(g, k, v, k0, k1, k2);
  }

  lemma ThreeMove(g: seq<int>, k: nat, v: int, k0: nat, k1: nat, k2: nat)
    requires k < |g| && k0 < k1 < k2 < |g|
    ensures var g' := g[k := g[k] + v];
            g'[k0] + g'[k1] + g'[k2] == g[k0] + g[k1] + g[k2] + if k in {k0, k1, k2} then v else 0
  {
  }

  /** The sum of a black frame is zero. */
  lemma {:induction false} BlackSum(px: Picture, y0: int, y1: int, x0: int, x1: int)
    requires forall y, x :: px(y, x) == 0
    ensures RectSum(px, y0, y1, x0, x1) == 0
    decreases y1 - y0
  {
    if y0 < y1 {
      BlackSum(px, y0, y1 - 1, x0, x1);
      BlackRow(px, y1 - 1, x0, x1);
    }
  }

  lemma {:induction false} BlackRow(px: Picture, y: int, x0: int, x1: int)
    requires forall i, j :: px(i, j) == 0
    ensures RowSum(px, y, x0, x1) == 0
    decreases x1 - x0
  {
    if x0 < x1 { BlackRow(px, y, x0, x1 - 1); }
  }

  lemma BetweenIsWithin(g: seq<int>, w: nat, h: nat, r: Rect, lo: int, hi: int)
    requires IsFrame(g, w, h) && Fit(r, w, h) && Between(g, w, h, r, lo, hi)
    ensures Within(PictureOf(g, w, h), r, lo, hi)
  {
    forall y, x | Inside(r, y, x) ensures 3 * lo <= PictureOf(g, w, h)(y, x) <= 3 * hi {
      assert lo <= g[At(w, y, x, 0)] <= hi && lo <= g[At(w, y, x, 1)] <= hi && lo <= g[At(w, y, x, 2)] <= hi;
    }
  }

  lemma MulSucc(m: int, n: int, v: int)
    requires m == n + 1
    ensures m * v == n * v + v
  {
  }

  lemma {:induction false} RowBounds(px: Picture, r: Rect, lo: int, hi: int, y: int, x0: int, x1: int)
    requires Within(px, r, lo, hi) && r.y0 <= y < r.y1 && r.x0 <= x0 <= x1 <= r.x1
    ensures (x1 - x0) * (3 * lo) <= RowSum(px, y, x0, x1) <= (x1 - x0) * (3 * hi)
    decreases x1 - x0
  {
    if x0 < x1 {
      RowBounds(px, r, lo, hi, y, x0, x1 - 1);
      assert Inside(r, y, x1 - 1);
      MulSucc(x1 - x0, x1 - 1 - x0, 3 * lo);
      MulSucc(x1 - x0, x1 - 1 - x0, 3 * hi);
    }
  }

  lemma {:induction false} RowSplit(px: Picture, y: int, x0: int, xm: int, x1: int)
    requires x0 <= xm <= x1
    ensures RowSum(px, y, x0, x1) == RowSum(px, y, x0, xm) + RowSum(px, y, xm, x1)
    decreases x1 - xm
  {
    if xm < x1 { RowSplit(px, y, x0, xm, x1 - 1); }
  }

  /** Every row of the block sums to between a and b. */
  ghost predicate RowsBetween(px: Picture, y0: int, y1: int, x0: int, x1: int, a: int, b: int)
  {
    forall y :: y0 <= y < y1 ==> a <= RowSum(px, y, x0, x1) <= b
  }

  lemma {:induction false} RectBounds(px: Picture, y0: int, y1: int, x0: int, x1: int, a: int, b: int)
    requires y0 <= y1 && RowsBetween(px, y0, y1, x0, x1, a, b)
    ensures (y1 - y0) * a <= RectSum(px, y0, y1, x0, x1) <= (y1 - y0) * b
    decreases y1 - y0
  {
    if y0 < y1 {
      RectBounds(px, y0, y1 - 1, x0, x1, a, b);
      MulSucc(y1 - y0, y1 - 1 - y0, a);
      MulSucc(y1 - y0, y1 - 1 - y0, b);
    }
  }

  lemma {:induction false} RectSplit(px: Picture, y0: int, ym: int, y1: int, x0: int, x1: int)
    requires y0 <= ym <= y1
    ensures RectSum(px, y0, y1, x0, x1) == RectSum(px, y0, ym, x0, x1) + RectSum(px, ym, y1, x0, x1)
    decreases y1 - ym
  {
    if ym < y1 { RectSplit(px, y0, ym, y1 - 1, x0, x1); }
  }

  lemma Rows(px: Picture, r: Rect, lo: int, hi: int, y0: int, y1: int, x0: int, x1: int, m: int)
    requires Within(px, r, lo, hi) && m == x1 - x0
    requires r.y0 <= y0 <= y1 <= r.y1 && r.x0 <= x0 <= x1 <= r.x1
    ensures (y1 - y0) * (m * (3 * lo)) <= RectSum(px, y0, y1, x0, x1) <= (y1 - y0) * (m * (3 * hi))
  {
    var a, b := m * (3 * lo), m * (3 * hi);
    forall y | y0 <= y < y1 ensures a <= RowSum(px, y, x0, x1) <= b {
      RowBounds(px, r, lo, hi, y, x0, x1);
    }
    RectBounds(px, y0, y1, x0, x1, a, b);
  }

  /** Five rows of which three consecutive outer ones are core. */
  lemma FiveRows(px: Picture, r: Rect, core: Rect, y0: int, ym: int, y1: int,
                 x0: int, x1: int, lo: int, hi: int, a: int, b: int)
    requires x0 <= x1 && y1 == y0 + 5 && r == Rect(y0, y1, x0, x1) && Within(px, r, lo, hi) && Within(px, core, a, b)
    requires || (ym == y0 + 3 && core == Rect(y0, ym, x0, x1))
             || (ym == y0 + 2 && core == Rect(ym, y1, x0, x1))
    ensures (x1 - x0) * (9 * a + 6 * lo) <= RectSum(px, y0, y1, x0, x1) <= (x1 - x0) * (9 * b + 6 * hi)
  {
    var m := x1 - x0;
    RectSplit(px, y0, ym, y1, x0, x1);
    if ym == y0 + 3 {
      Rows(px, core, a, b, y0, ym, x0, x1, m);
      Rows(px, r, lo, hi, ym, y1, x0, x1, m);
    } else {
      Rows(px, core, a, b, ym, y1, x0, x1, m);
      Rows(px, r, lo, hi, y0, ym, x0, x1, m);
    }
    ThreeAndTwo(m, a, lo);
    ThreeAndTwo(m, b, hi);
  }

  lemma ThreeAndTwo(m: int, a: int, lo: int)
    ensures 3 * (m * (3 * a)) + 2 * (m * (3 * lo)) == m * (9 * a + 6 * lo)
  {
  }

  /** Five columns of which the last three are core. */
  lemma FiveColumns(px: Picture, r: Rect, core: Rect, y0: int, y1: int,
                    x0: int, x1: int, lo: int, hi: int, a: int, b: int)
    requires y0 <= y1 && x1 == x0 + 5 && r == Rect(y0, y1, x0, x1) && Within(px, r, lo, hi)
    requires core == r.(x0 := x0 + 2) && Within(px, core, a, b)
    ensures (y1 - y0) * (9 * a + 6 * lo) <= RectSum(px, y0, y1, x0, x1) <= (y1 - y0) * (9 * b + 6 * hi)
  {
    var u, v := 9 * a + 6 * lo, 9 * b + 6 * hi;
    forall y | y0 <= y < y1 ensures u <= RowSum(px, y, x0, x1) <= v {
      RowSplit(px, y, x0, x0 + 2, x1);
      RowBounds(px, r, lo, hi, y, x0, x0 + 2);
      RowBounds(px, core, a, b, y, x0 + 2, x1);
    }
    RectBounds(px, y0, y1, x0, x1, u, v);
  }

  /** The sum over a block is between `lines` times the bound for three core and two other pixels. */
  lemma BlockSum(px: Picture, w: int, h: int, p: Pos, lo: int, hi: int, a: int, b: int) returns (lines: nat)
    requires w >= 8 && h >= 8 && IsSpot(p, w, h)
    requires Within(px, Patch(p, w, h), lo, hi) && Within(px, Core(p, w, h), a, b)
    ensures var r := Patch(p, w, h);
            && lines > 0 && r.y0 < r.y1 && r.x0 < r.x1
            && (r.y1 - r.y0) * (r.x1 - r.x0) == 5 * lines
            && lines * (3 * (3 * a + 2 * lo)) <= RectSum(px, r.y0, r.y1, r.x0, r.x1) <= lines * (3 * (3 * b + 2 * hi))
  {
    var r, core := Patch(p, w, h), Core(p, w, h);
    if p.y == STRIDE {
      lines := r.x1 - r.x0;
      FiveRows(px, r, core, r.y0, r.y0 + 3, r.y1, r.x0, r.x1, lo, hi, a, b);
    } else if p.x == w - STRIDE - 1 {
      lines := r.y1 - r.y0;
      FiveColumns(px, r, core, r.y0, r.y1, r.x0, r.x1, lo, hi, a, b);
    } else if p.y == h - STRIDE - 1 {
      lines := r.x1 - r.x0;
      FiveRows(px, r, core, r.y0, r.y0 + 2, r.y1, r.x0, r.x1, lo, hi, a, b);
    } else {
      lines := r.y1 - r.y0;
      FiveColumns(px, r, r.(x0 := r.x0 + 2), r.y0, r.y1, r.x0, r.x1, lo, hi, a, b);
    }
    assert 9 * a + 6 * lo == 3 * (3 * a + 2 * lo) && 9 * b + 6 * hi == 3 * (3 * b + 2 * hi);
  }

  /** A block whose core lies in a..b and whose every pixel lies in lo..hi reads by three fifths of one
      and two fifths of the other. */
  lemma BlockReads(g: seq<int>, w: nat, h: nat, p: Pos, lo: int, hi: int, a: int, b: int)
    requires IsFrame(g, w, h) && w >= 8 && h >= 8 && IsSpot(p, w, h)
    requires Between(g, w, h, Patch(p, w, h), lo, hi) && Between(g, w, h, Core(p, w, h), a, b)
    ensures 3 * a + 2 * lo >= 5 * 128 ==> ReadBit(g, w, h, p) == 1
    ensures 3 * b + 2 * hi < 5 * 128 ==> ReadBit(g, w, h, p) == 0
  {
    BetweenIsWithin(g, w, h, Patch(p, w, h), lo, hi);
    BetweenIsWithin(g, w, h, Core(p, w, h), a, b);
    var lines := BlockSum(PictureOf(g, w, h), w, h, p, lo, hi, a, b);
    DecideBlock(g, w, h, p, lines, 3 * a + 2 * lo, 3 * b + 2 * hi);
  }

  lemma DecideBlock(g: seq<int>, w: nat, h: nat, p: Pos, lines: nat, u: int, v: int)
    requires IsFrame(g, w, h) && lines > 0
    requires var r := Patch(p, w, h);
             && r.y0 < r.y1 && r.x0 < r.x1 && (r.y1 - r.y0) * (r.x1 - r.x0) == 5 * lines
             && lines * (3 * u) <= RectSum(PictureOf(g, w, h), r.y0, r.y1, r.x0, r.x1) <= lines * (3 * v)
    ensures u >= 5 * THRESHOLD ==> ReadBit(g, w, h, p) == 1
    ensures v < 5 * THRESHOLD ==> ReadBit(g, w, h, p) == 0
  {
    var r := Patch(p, w, h);
    DecideLines(RectSum(PictureOf(g, w, h), r.y0, r.y1, r.x0, r.x1), (r.y1 - r.y0) * (r.x1 - r.x0), lines, u, v);
  }

  lemma DecideLines(s: int, n: int, lines: nat, u: int, v: int)
    requires lines > 0 && n == 5 * lines && lines * (3 * u) <= s <= lines * (3 * v)
    ensures u >= 5 * THRESHOLD ==> Decide(s, n) == 1
    ensures v < 5 * THRESHOLD ==> Decide(s, n) == 0
  {
    LinesScale(lines, 3 * u, 15 * THRESHOLD);
    LinesScale(lines, 3 * v, 15 * THRESHOLD);
  }

  lemma LinesScale(n: nat, u: int, t: int)
    requires n > 0
    ensures u >= t ==> n * u >= n * t
    ensures u < t ==> n * u < n * t
  {
  }

  // ----- the channel

  /** g is f after every channel value moved by at most d. */
  ghost predicate Near(f: seq<int>, g: seq<int>, d: nat)
  {
    |g| == |f| && forall k :: 0 <= k < |f| ==> f[k] - d <= g[k] <= f[k] + d
  }

  lemma BlockThroughChannel(f: seq<Byte>, w: nat, h: nat, bits: seq<Bit>, cursor: nat, g: seq<int>, d: nat, i: nat)
    requires IsFrame(f, w, h) && w >= 8 && h >= 8
    requires Near(EmbedFrame(f, w, h, bits, cursor), g, d)
    requires i < Capacity(w, h) && cursor + i < |bits|
    ensures IsFrame(g, w, h)
    ensures var p := Positions(w, h)[i];
            && Between(g, w, h, Patch(p, w, h), 16 - d, 239 + d)
            && (bits[cursor + i] == 1 ==> Between(g, w, h, Core(p, w, h), 238 - d, 239 + d))
            && (bits[cursor + i] == 0 ==> Between(g, w, h, Core(p, w, h), 16 - d, 17 + d))
  {
    var ps := Positions(w, h);
    var painted := PaintBits(f, w, h, ps, bits, cursor);
    var e := EmbedFrame(f, w, h, bits, cursor);
    CoresSurvive(w, h);
    forall y: nat, x: nat, c: nat | y < h && x < w && c < 3 && Inside(Patch(ps[i], w, h), y, x)
      ensures At(w, y, x, c) < |g| && 16 - d <= g[At(w, y, x, c)] <= 239 + d
      ensures Inside(Core(ps[i], w, h), y, x) ==>
                if bits[cursor + i] == 1 then 238 - d <= g[At(w, y, x, c)] else g[At(w, y, x, c)] <= 17 + d
    {
      BlockAfterPainting(f, w, h, ps, bits, cursor, i, y, x, c);
      var k := At(w, y, x, c);
      assert painted[k] in {ZERO, ONE};
      assert e[k] in {16, 17, 238, 239} && (painted[k] == ONE <==> e[k] >= 238);
    }
  }

  const NOISE: nat := 21
  const BYTE_NOISE: nat := 24

  ghost predicate InBytes(g: seq<int>)
  {
    forall k :: 0 <= k < |g| ==> 0 <= g[k] <= 255
  }

  /** The noise the border channel stands: 24 when the received values are bytes, so that dark pixels cannot
      turn darker than black, and 21 when nothing stops them. */
  ghost predicate Tolerable(g: seq<int>, d: nat)
  {
    d <= NOISE || (d <= BYTE_NOISE && InBytes(g))
  }

  lemma Clipped(g: seq<int>, w: nat, h: nat, r: Rect, lo: int, hi: int)
    requires IsFrame(g, w, h) && Between(g, w, h, r, lo, hi) && InBytes(g)
    ensures Between(g, w, h, r, Max(0, lo), Min(255, hi))
  {
  }

  /** Every bit painted into a frame with both sides at least eight is read back, after the low bits
      have been overwritten and every channel value has moved by a tolerable amount. */
  lemma BitSurvives(f: seq<Byte>, w: nat, h: nat, bits: seq<Bit>, cursor: nat, g: seq<int>, d: nat, i: nat)
    requires IsFrame(f, w, h) && w >= 8 && h >= 8 && Tolerable(g, d)
    requires Near(EmbedFrame(f, w, h, bits, cursor), g, d)
    requires i < Capacity(w, h) && cursor + i < |bits|
    ensures IsFrame(g, w, h) && ReadBit(g, w, h, Positions(w, h)[i]) == bits[cursor + i]
  {
    var p := Positions(w, h)[i];
    var lo, hi := 16 - d, 239 + d;
    PositionsAreSpots(w, h);
    BlockThroughChannel(f, w, h, bits, cursor, g, d, i);
    if d > NOISE {
      Clipped(g, w, h, Patch(p, w, h), lo, hi);
      lo, hi := Max(0, lo), Min(255, hi);
    }
    if bits[cursor + i] == 1 {
      BlockReads(g, w, h, p, lo, hi, 238 - d, 239 + d);
    } else {
      BlockReads(g, w, h, p, lo, hi, 16 - d, 17 + d);
    }
  }
}
