/** Geometry of the coloured blocks painted round the border of a frame, and what survives when
    later blocks overwrite earlier ones. A frame is the row-major view of a height x width x 3 array. */
module Border {
  const BLOCK: int := 6
  const STRIDE: int := 2

  datatype Pos = Pos(y: int, x: int)

  /** Half-open rectangle of pixels. */
  datatype Rect = Rect(y0: int, y1: int, x0: int, x1: int)

  predicate Inside(r: Rect, y: int, x: int)
  {
    r.y0 <= y < r.y1 && r.x0 <= x < r.x1
  }

  predicate Apart(a: Rect, b: Rect)
  {
    a.y1 <= b.y0 || b.y1 <= a.y0 || a.x1 <= b.x0 || b.x1 <= a.x0
  }

  function Max(a: int, b: int): int { if a < b then b else a }
  function Min(a: int, b: int): int { if a < b then a else b }

  // ----- where the blocks are

  function Top(x: int, w: int): seq<Pos>
    decreases w - x
  {
    if x >= w then [] else [Pos(STRIDE, x)] + Top(x + BLOCK, w)
  }

  function Right(y: int, w: int, h: int): seq<Pos>
    decreases h - y
  {
    if y >= h then [] else [Pos(y, w - STRIDE - 1)] + Right(y + BLOCK, w, h)
  }

  function Bottom(x: int, h: int): seq<Pos>
    decreases x
  {
    if x < 0 then [] else [Pos(h - STRIDE - 1, x)] + Bottom(x - BLOCK, h)
  }

  function Left(y: int): seq<Pos>
    decreases y
  {
    if y < BLOCK then [] else [Pos(y, STRIDE)] + Left(y - BLOCK)
  }

  /** Block centres in painting order: top, right, bottom from the right, left from the bottom. */
  function Positions(w: int, h: int): seq<Pos>
  {
    Top(0, w) + (Right(BLOCK, w, h) + (Bottom(w - BLOCK, h) + Left(h - BLOCK)))
  }

  function Capacity(w: int, h: int): nat
  {
    |Positions(w, h)|
  }

  /** The block painted at a position, clipped to the frame. */
  function Patch(p: Pos, w: int, h: int): Rect
  {
    Rect(Max(0, p.y - STRIDE), Min(h, p.y + STRIDE + 1), Max(0, p.x - STRIDE), Min(w, p.x + STRIDE + 1))
  }

  method BorderPositions(width: nat, height: nat) returns (positions: seq<Pos>)
    ensures positions == Positions(width, height)
  {
    positions := [];
    var x: int, y: int := 0, BLOCK;
    ghost var top, right := Top(x, width), Right(y, width, height);
    ghost var bottom, left := Bottom(width - BLOCK, height), Left(height - BLOCK);
    ghost var two := top + right;
    ghost var three := two + bottom;
    ghost var four := three + left;
    assert four == Positions(width, height) by { FourSides(top, right, bottom, left); }
    while x < width
      invariant positions + Top(x, width) == top
    {
      MoveOver(positions, Pos(STRIDE, x), Top(x + BLOCK, width), top);
      positions := positions + [Pos(STRIDE, x)];
      x := x + BLOCK;
    }
    assert positions == top by { EmptyTail(positions); }
    while y < height
      invariant positions + Right(y, width, height) == two
    {
      MoveOver(positions, Pos(y, width - STRIDE - 1), Right(y + BLOCK, width, height), two);
      positions := positions + [Pos(y, width - STRIDE - 1)];
      y := y + BLOCK;
    }
    assert positions == two by { EmptyTail(positions); }
    x := width - BLOCK;
    while x >= 0
      invariant positions + Bottom(x, height) == three
    {
      MoveOver(positions, Pos(height - STRIDE - 1, x), Bottom(x - BLOCK, height), three);
      positions := positions + [Pos(height - STRIDE - 1, x)];
      x := x - BLOCK;
    }
    assert positions == three by { EmptyTail(positions); }
    y := height - BLOCK;
    while y > BLOCK - 1
      invariant positions + Left(y) == four
    {
      MoveOver(positions, Pos(y, STRIDE), Left(y - BLOCK), four);
      positions := positions + [Pos(y, STRIDE)];
      y := y - BLOCK;
    }
    assert positions == four by { EmptyTail(positions); }
  }

  // ----- the list in numbers

  lemma {:induction false} TopAt(x: int, w: int, i: int)
    requires 0 <= x
    ensures |Top(x, w)| == if x < w then (w - x + 5) / 6 else 0
    ensures 0 <= i < |Top(x, w)| ==> Top(x, w)[i] == Pos(2, x + 6 * i)
    decreases w - x
  {
    if x < w { TopAt(x + BLOCK, w, i - 1); }
  }

  lemma {:induction false} RightAt(y: int, w: int, h: int, i: int)
    ensures |Right(y, w, h)| == if y < h then (h - y + 5) / 6 else 0
    ensures 0 <= i < |Right(y, w, h)| ==> Right(y, w, h)[i] == Pos(y + 6 * i, w - 3)
    decreases h - y
  {
    if y < h { RightAt(y + BLOCK, w, h, i - 1); }
  }

  lemma {:induction false} BottomAt(x: int, h: int, i: int)
    ensures |Bottom(x, h)| == if x >= 0 then (x + 6) / 6 else 0
    ensures 0 <= i < |Bottom(x, h)| ==> Bottom(x, h)[i] == Pos(h - 3, x - 6 * i)
    decreases x
  {
    if x >= 0 { BottomAt(x - BLOCK, h, i - 1); }
  }

  lemma {:induction false} LeftAt(y: int, i: int)
    ensures |Left(y)| == if y >= 6 then y / 6 else 0
    ensures 0 <= i < |Left(y)| ==> Left(y)[i] == Pos(y - 6 * i, 2)
    decreases y
  {
    if y >= BLOCK { LeftAt(y - BLOCK, i - 1); }
  }

  /** How many blocks stand on the top, right, bottom and left side. */
  function Counts(w: nat, h: nat): (nat, nat, nat, nat)
  {
    ((w + 5) / 6, if h < 1 then 0 else (h - 1) / 6, w / 6, if h < 6 then 0 else h / 6 - 1)
  }

  /** The number of blocks and the place of each: along the top from the left corner, down the right side, along the
      bottom from the right, and up the left side, six pixels apart and two from the edge. */
  lemma PositionsExact(w: nat, h: nat, i: nat)
    ensures var (t, r, b, l) := Counts(w, h);
            && Capacity(w, h) == t + r + b + l
            && (i < Capacity(w, h) ==>
                  Positions(w, h)[i] ==
                    if i < t then Pos(2, 6 * i)
                    else if i < t + r then Pos(6 + 6 * (i - t), w - 3)
                    else if i < t + r + b then Pos(h - 3, w - 6 - 6 * (i - t - r))
                    else Pos(h - 6 - 6 * (i - t - r - b), 2))
  {
    var (t, r, b, l) := Counts(w, h);
    SideCounts(w, h);
    TopAt(0, w, i);
    RightAt(BLOCK, w, h, i - t);
    BottomAt(w - BLOCK, h, i - t - r);
    LeftAt(h - BLOCK, i - t - r - b);
    PartOf(Top(0, w), Right(BLOCK, w, h), Bottom(w - BLOCK, h), Left(h - BLOCK), t, r, b, i);
  }

  lemma SideCounts(w: nat, h: nat)
    ensures Counts(w, h) == (|Top(0, w)|, |Right(BLOCK, w, h)|, |Bottom(w - BLOCK, h)|, |Left(h - BLOCK)|)
  {
    TopAt(0, w, 0);
    RightAt(BLOCK, w, h, 0);
    BottomAt(w - BLOCK, h, 0);
    LeftAt(h - BLOCK, 0);
  }

  lemma PartOf(top: seq<Pos>, right: seq<Pos>, bottom: seq<Pos>, left: seq<Pos>, t: nat, r: nat, b: nat, i: nat)
    requires |top| == t && |right| == r && |bottom| == b
    ensures var all := top + (right + (bottom + left));
            && |all| == t + r + b + |left|
            && (i < |all| ==> all[i] == if i < t then top[i]
                                        else if i < t + r then right[i - t]
                                        else if i < t + r + b then bottom[i - t - r]
                                        else left[i - t - r - b])
  {
  }

  /** The block at a position is what lies at most two pixels from it, inside the frame. */
  lemma PatchExact(p: Pos, w: int, h: int, y: int, x: int)
    ensures Inside(Patch(p, w, h), y, x) <==>
            0 <= y < h && 0 <= x < w && -2 <= y - p.y <= 2 && -2 <= x - p.x <= 2
  {
  }

  lemma MoveOver(done: seq<Pos>, p: Pos, rest: seq<Pos>, goal: seq<Pos>)
    requires done + ([p] + rest) == goal
    ensures (done + [p]) + rest == goal
  {
    assert done + ([p] + rest) == (done + [p]) + rest;
  }

  lemma EmptyTail(s: seq<Pos>)
    ensures s + [] == s
  {
  }

  lemma FourSides(t: seq<Pos>, r: seq<Pos>, b: seq<Pos>, l: seq<Pos>)
    ensures t + r + b + l == t + (r + (b + l))
  {
  }

  // ----- what survives of a block

  /** Part of the block at p that no later block touches, when both sides are at least eight. */
  function Core(p: Pos, w: int, h: int): Rect
  {
    var b := Patch(p, w, h);
    if p.y == STRIDE then b.(y1 := 3)
    else if p.x == w - STRIDE - 1 then b.(x0 := w - 3)
    else if p.y == h - STRIDE - 1 then b.(y0 := h - 3)
    else b
  }

  predicate LaterApart(p: Pos, rest: seq<Pos>, w: int, h: int)
  {
    forall i :: 0 <= i < |rest| ==> Apart(Core(p, w, h), Patch(rest[i], w, h))
  }

  /** Every block's core is clear of all later blocks. */
  predicate Ordered(ps: seq<Pos>, w: int, h: int)
  {
    ps == [] || (LaterApart(ps[0], ps[1..], w, h) && Ordered(ps[1..], w, h))
  }

  predicate OnTop(q: Pos, x: int, w: int) { q.y == STRIDE && x <= q.x < w }
  predicate OnRight(q: Pos, y: int, w: int, h: int) { q.x == w - STRIDE - 1 && y <= q.y < h }
  predicate OnBottom(q: Pos, x: int, h: int) { q.y == h - STRIDE - 1 && 0 <= q.x <= x }
  predicate OnLeft(q: Pos, y: int) { q.x == STRIDE && BLOCK <= q.y <= y }

  lemma {:induction false} TopShape(x: int, w: int)
    requires 0 <= x
    ensures forall i :: 0 <= i < |Top(x, w)| ==> OnTop(Top(x, w)[i], x, w)
    decreases w - x
  {
    if x < w { TopShape(x + BLOCK, w); }
  }

  lemma {:induction false} RightShape(y: int, w: int, h: int)
    ensures forall i :: 0 <= i < |Right(y, w, h)| ==> OnRight(Right(y, w, h)[i], y, w, h)
    decreases h - y
  {
    if y < h { RightShape(y + BLOCK, w, h); }
  }

  lemma {:induction false} BottomShape(x: int, h: int)
    ensures forall i :: 0 <= i < |Bottom(x, h)| ==> OnBottom(Bottom(x, h)[i], x, h)
    decreases x
  {
    if x >= 0 { BottomShape(x - BLOCK, h); }
  }

  lemma {:induction false} LeftShape(y: int)
    ensures forall i :: 0 <= i < |Left(y)| ==> OnLeft(Left(y)[i], y)
    decreases y
  {
    if y >= BLOCK { LeftShape(y - BLOCK); }
  }

  predicate AllApart(a: seq<Pos>, b: seq<Pos>, w: int, h: int)
  {
    forall i :: 0 <= i < |a| ==> LaterApart(a[i], b, w, h)
  }

  lemma {:induction false} OrderedConcat(a: seq<Pos>, b: seq<Pos>, w: int, h: int)
    requires Ordered(a, w, h) && Ordered(b, w, h) && AllApart(a, b, w, h)
    ensures Ordered(a + b, w, h)
  {
    if a == [] {
      assert a + b == b;
    } else {
      var rest := a[1..] + b;
      assert (a + b)[1..] == rest;
      OrderedConcat(a[1..], b, w, h);
      assert LaterApart(a[0], a[1..], w, h) && LaterApart(a[0], b, w, h);
      forall i | 0 <= i < |rest| ensures Apart(Core(a[0], w, h), Patch(rest[i], w, h)) {
        assert rest[i] == if i < |a| - 1 then a[1..][i] else b[i - (|a| - 1)];
      }
    }
  }

  lemma {:induction false} TopOrdered(x: int, w: int, h: int)
    requires w >= 8 && h >= 8 && x >= 0
    ensures Ordered(Top(x, w), w, h)
    decreases w - x
  {
    if x < w {
      TopOrdered(x + BLOCK, w, h);
      TopShape(x + BLOCK, w);
    }
  }

  lemma {:induction false} RightOrdered(y: int, w: int, h: int)
    requires w >= 8 && h >= 8 && y >= BLOCK
    ensures Ordered(Right(y, w, h), w, h)
    decreases h - y
  {
    if y < h {
      RightOrdered(y + BLOCK, w, h);
      RightShape(y + BLOCK, w, h);
    }
  }

  lemma {:induction false} BottomOrdered(x: int, w: int, h: int)
    requires w >= 8 && h >= 8 && x <= w - BLOCK
    ensures Ordered(Bottom(x, h), w, h)
    decreases x
  {
    if x >= 0 {
      BottomOrdered(x - BLOCK, w, h);
      BottomShape(x - BLOCK, h);
    }
  }

  lemma {:induction false} LeftOrdered(y: int, w: int, h: int)
    requires w >= 8 && h >= 8 && y <= h - BLOCK
    ensures Ordered(Left(y), w, h)
    decreases y
  {
    if y >= BLOCK {
      LeftOrdered(y - BLOCK, w, h);
      LeftShape(y - BLOCK);
    }
  }

  lemma TopClear(p: Pos, q: Pos, w: int, h: int)
    requires w >= 8 && h >= 8 && OnTop(p, 0, w)
    requires OnRight(q, BLOCK, w, h) || OnBottom(q, w - BLOCK, h) || OnLeft(q, h - BLOCK)
    ensures Apart(Core(p, w, h), Patch(q, w, h))
  {
  }

  lemma RightClear(p: Pos, q: Pos, w: int, h: int)
    requires w >= 8 && h >= 8 && OnRight(p, BLOCK, w, h)
    requires OnBottom(q, w - BLOCK, h) || OnLeft(q, h - BLOCK)
    ensures Apart(Core(p, w, h), Patch(q, w, h))
  {
  }

  lemma BottomClear(p: Pos, q: Pos, w: int, h: int)
    requires w >= 8 && h >= 8 && OnBottom(p, w - BLOCK, h) && OnLeft(q, h - BLOCK)
    ensures Apart(Core(p, w, h), Patch(q, w, h))
  {
  }

  /** On a frame with both sides at least eight, no block's core is overwritten by a later block. */
  lemma CoresSurvive(w: int, h: int)
    requires w >= 8 && h >= 8
    ensures Ordered(Positions(w, h), w, h)
  {
    var t, r, b, l := Top(0, w), Right(BLOCK, w, h), Bottom(w - BLOCK, h), Left(h - BLOCK);
    TopOrdered(0, w, h);
    RightOrdered(BLOCK, w, h);
    BottomOrdered(w - BLOCK, w, h);
    LeftOrdered(h - BLOCK, w, h);
    TopShape(0, w);
    RightShape(BLOCK, w, h);
    BottomShape(w - BLOCK, h);
    LeftShape(h - BLOCK);
    BottomApart(b, l, w, h);
    OrderedConcat(b, l, w, h);
    RightApart(r, b, l, w, h);
    OrderedConcat(r, b + l, w, h);
    TopApart(t, r, b, l, w, h);
    OrderedConcat(t, r + (b + l), w, h);
  }

  predicate AllOnTop(ps: seq<Pos>, w: int) { forall i :: 0 <= i < |ps| ==> OnTop(ps[i], 0, w) }
  predicate AllOnRight(ps: seq<Pos>, w: int, h: int) { forall i :: 0 <= i < |ps| ==> OnRight(ps[i], BLOCK, w, h) }
  predicate AllOnBottom(ps: seq<Pos>, w: int, h: int) { forall i :: 0 <= i < |ps| ==> OnBottom(ps[i], w - BLOCK, h) }
  predicate AllOnLeft(ps: seq<Pos>, h: int) { forall i :: 0 <= i < |ps| ==> OnLeft(ps[i], h - BLOCK) }

  lemma BottomApart(b: seq<Pos>, l: seq<Pos>, w: int, h: int)
    requires w >= 8 && h >= 8 && AllOnBottom(b, w, h) && AllOnLeft(l, h)
    ensures AllApart(b, l, w, h)
  {
    forall i, j | 0 <= i < |b| && 0 <= j < |l| ensures Apart(Core(b[i], w, h), Patch(l[j], w, h)) {
      BottomClear(b[i], l[j], w, h);
    }
  }

  lemma RightApart(r: seq<Pos>, b: seq<Pos>, l: seq<Pos>, w: int, h: int)
    requires w >= 8 && h >= 8 && AllOnRight(r, w, h) && AllOnBottom(b, w, h) && AllOnLeft(l, h)
    ensures AllApart(r, b + l, w, h)
  {
    forall i, j | 0 <= i < |r| && 0 <= j < |b + l| ensures Apart(Core(r[i], w, h), Patch((b + l)[j], w, h)) {
      RightClear(r[i], (b + l)[j], w, h);
    }
  }

  lemma TopApart(t: seq<Pos>, r: seq<Pos>, b: seq<Pos>, l: seq<Pos>, w: int, h: int)
    requires w >= 8 && h >= 8 && AllOnTop(t, w) && AllOnRight(r, w, h) && AllOnBottom(b, w, h) && AllOnLeft(l, h)
    ensures AllApart(t, r + (b + l), w, h)
  {
    var later := r + (b + l);
    forall i, j | 0 <= i < |t| && 0 <= j < |later| ensures Apart(Core(t[i], w, h), Patch(later[j], w, h)) {
      assert later[j] == if j < |r| then r[j] else if j < |r| + |b| then b[j - |r|] else l[j - |r| - |b|];
      TopClear(t[i], later[j], w, h);
    }
  }

  /** Shape of a border position on a frame with both sides at least eight. */
  predicate IsSpot(p: Pos, w: int, h: int)
  {
    OnTop(p, 0, w) || OnRight(p, BLOCK, w, h) || OnBottom(p, w - BLOCK, h) || OnLeft(p, h - BLOCK)
  }

  lemma PositionsAreSpots(w: int, h: int)
    ensures forall i :: 0 <= i < |Positions(w, h)| ==> IsSpot(Positions(w, h)[i], w, h)
  {
    TopShape(0, w);
    RightShape(BLOCK, w, h);
    BottomShape(w - BLOCK, h);
    LeftShape(h - BLOCK);
  }
}
