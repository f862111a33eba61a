/** The powers of x modulo the checksum's polynomial, and after how many shifts the register comes round. */
module CrcOrder {
  import opened Bits
  import opened Crc16

  // ----- shifting is linear

  lemma ShiftXor(a: Register, b: Register)
    ensures Shift(XorBits(a, b)) == XorBits(Shift(a), Shift(b))
  {
    forall i | 0 <= i < 16 ensures Shift(XorBits(a, b))[i] == XorBits(Shift(a), Shift(b))[i] {
      ShiftAt(XorBits(a, b), i);
      ShiftAt(a, i);
      ShiftAt(b, i);
    }
  }

  lemma ShiftZeros()
    ensures Shift(Zeros(16)) == Zeros(16)
  {
  }

  lemma {:induction false} ShiftsAdd(r: Register, m: nat, n: nat)
    ensures Shifts(r, m + n) == Shifts(Shifts(r, m), n)
    decreases m
  {
    if m > 0 { ShiftsAdd(Shift(r), m - 1, n); }
  }

  // ----- products modulo the polynomial

  /** The bits u, highest coefficient first, times v. */
  function Mul(u: seq<Bit>, v: Register): Register
    decreases |u|
  {
    if u == [] then Zeros(16)
    else XorBits(Shift(Mul(u[..|u| - 1], v)), if u[|u| - 1] == 1 then v else Zeros(16))
  }

  lemma {:induction false} MulShift(u: seq<Bit>, v: Register)
    ensures Mul(u, Shift(v)) == Shift(Mul(u, v))
    decreases |u|
  {
    ShiftZeros();
    if u != [] {
      var n := |u| - 1;
      MulShift(u[..n], v);
      ShiftXor(Shift(Mul(u[..n], v)), if u[n] == 1 then v else Zeros(16));
    }
  }

  lemma {:induction false} MulShifts(u: seq<Bit>, v: Register, n: nat)
    ensures Mul(u, Shifts(v, n)) == Shifts(Mul(u, v), n)
    decreases n
  {
    if n > 0 {
      MulShifts(u, Shift(v), n - 1);
      MulShift(u, v);
    }
  }

  /** The polynomial 1. */
  predicate IsOne(one: Register)
  {
    one == Zeros(15) + [1]
  }

  lemma LastBit(k: nat, u: seq<Bit>, b: Bit, one: Register)
    requires IsOne(one) && |u| < 16 && k == 15 - |u|
    ensures XorBits(Shift(Zeros(k + 1) + u), if b == 1 then one else Zeros(16)) == Zeros(k) + (u + [b])
  {
    var r := Zeros(k + 1) + u;
    assert r[0] == 0 && Shift(r) == r[1..] + [0];
    assert r[1..] == Zeros(k) + u;
  }

  lemma {:induction false} MulOne(u: seq<Bit>, one: Register)
    requires IsOne(one) && |u| <= 16
    ensures Mul(u, one) == Zeros(16 - |u|) + u
    decreases |u|
  {
    if u != [] {
      var n := |u| - 1;
      MulOne(u[..n], one);
      LastBit(15 - n, u[..n], u[n], one);
      assert u == u[..n] + [u[n]];
    }
  }

  /** Shifting n times is multiplying with the n-th power of x. */
  lemma MulPower(u: Register, one: Register, n: nat)
    requires IsOne(one)
    ensures Mul(u, Shifts(one, n)) == Shifts(u, n)
  {
    MulShifts(u, one, n);
    MulOne(u, one);
    assert Zeros(0) + u == u;
  }

  // ----- binary digits

  /** Anything that has a lowest bit and a half without it. */
  datatype Binary<!T> = Binary(low: T -> Bit, half: T -> T)

  /** The lowest k bits. */
  function Lowest<T>(b: Binary<T>, w: T, k: nat): (s: seq<Bit>)
    ensures |s| == k
    decreases k
  {
    if k == 0 then [] else Lowest(b, b.half(w), k - 1) + [b.low(w)]
  }

  /** The operation adds digit by digit, without carry. */
  ghost predicate Adds<T(!new)>(b: Binary<T>, xor: (T, T) -> T)
  {
    forall v, w :: b.half(xor(v, w)) == xor(b.half(v), b.half(w))
                   && b.low(xor(v, w)) == if b.low(v) == b.low(w) then 0 else 1
  }

  lemma XorSnoc(a: seq<Bit>, x: Bit, b: seq<Bit>, y: Bit)
    requires |a| == |b|
    ensures XorBits(a + [x], b + [y]) == XorBits(a, b) + [if x == y then 0 else 1]
  {
  }

  lemma {:induction false} LowestXor<T(!new)>(b: Binary<T>, xor: (T, T) -> T, v: T, w: T, k: nat)
    requires Adds(b, xor)
    ensures Lowest(b, xor(v, w), k) == XorBits(Lowest(b, v, k), Lowest(b, w, k))
    decreases k
  {
    if k > 0 {
      LowestXor(b, xor, b.half(v), b.half(w), k - 1);
      XorSnoc(Lowest(b, b.half(v), k - 1), b.low(v), Lowest(b, b.half(w), k - 1), b.low(w));
    }
  }

  lemma {:induction false} LowestZero<T>(b: Binary<T>, zero: T, k: nat)
    requires b.low(zero) == 0 && b.half(zero) == zero
    ensures Lowest(b, zero, k) == Zeros(k)
    decreases k
  {
    if k > 0 { LowestZero(b, zero, k - 1); }
  }

  // ----- words of sixteen bits

  function Low(w: bv16): Bit
  {
    if w & 1 == 1 then 1 else 0
  }

  function Half(w: bv16): bv16
  {
    w >> 1
  }

  function Xor(v: bv16, w: bv16): bv16
  {
    v ^ w
  }

  const WORD: Binary<bv16> := Binary(Low, Half)

  /** The register that holds the word. */
  function Reg(w: bv16): Register
  {
    Lowest(WORD, w, 16)
  }

  lemma HalvesXor(v: bv16, w: bv16)
    ensures Half(Xor(v, w)) == Xor(Half(v), Half(w)) && Low(Xor(v, w)) == if Low(v) == Low(w) then 0 else 1
  {
  }

  lemma WordsAdd()
    ensures Adds(WORD, Xor)
  {
    forall v, w
      ensures WORD.half(Xor(v, w)) == Xor(WORD.half(v), WORD.half(w))
      ensures WORD.low(Xor(v, w)) == if WORD.low(v) == WORD.low(w) then 0 else 1
    {
      HalvesXor(v, w);
    }
  }

  lemma RegXor(v: bv16, w: bv16)
    ensures Reg(Xor(v, w)) == XorBits(Reg(v), Reg(w))
  {
    WordsAdd();
    LowestXor(WORD, Xor, v, w, 16);
  }

  lemma LowestLast(w: bv16, k: nat)
    ensures Lowest(WORD, w, k + 1) == Lowest(WORD, w >> 1, k) + [Low(w)]
  {
  }

  /** Bit k, counted from the bottom. */
  function BitAt(w: bv16, k: nat): Bit
    decreases k
  {
    if k == 0 then Low(w) else BitAt(w >> 1, k - 1)
  }

  lemma {:induction false} LowestFront(w: bv16, k: nat)
    ensures Lowest(WORD, w, k + 1) == [BitAt(w, k)] + Lowest(WORD, w, k)
    decreases k
  {
    if k > 0 { LowestFront(w >> 1, k - 1); }
  }

  /** Agreement in the lowest k bits. */
  predicate Agree(v: bv16, w: bv16, k: nat)
    decreases k
  {
    k == 0 || (Low(v) == Low(w) && Agree(v >> 1, w >> 1, k - 1))
  }

  lemma {:induction false} AgreeLowest(v: bv16, w: bv16, k: nat)
    requires Agree(v, w, k)
    ensures Lowest(WORD, v, k) == Lowest(WORD, w, k)
    decreases k
  {
    if k > 0 { AgreeLowest(v >> 1, w >> 1, k - 1); }
  }

  function Up(w: bv16): bv16
  {
    w << 1
  }

  function Added(w: bv16): bv16
  {
    if w & 0x8000 == 0 then 0 else 0x1021
  }

  /** One shift of the word. */
  function Next(w: bv16): bv16
  {
    Xor(Up(w), Added(w))
  }

  lemma UpDown(w: bv16)
    ensures Low(Up(w)) == 0 && Agree(Up(w) >> 1, w, 15)
  {
  }

  lemma TopAt(w: bv16)
    ensures BitAt(w, 15) == if w & 0x8000 == 0 then 0 else 1
  {
    assert BitAt(w, 15) == BitAt(w >> 4, 11);
    assert BitAt(w >> 4, 11) == BitAt(w >> 8, 7);
    assert BitAt(w >> 8, 7) == BitAt(w >> 12, 3);
  }

  lemma PolyWord()
    ensures Reg(0x1021) == POLY_BITS
  {
    assert Lowest(WORD, 0x1, 4) == [0, 0, 0, 1];
    assert Lowest(WORD, 0x10, 8) == [0, 0, 0, 1, 0, 0, 0, 0];
    assert Lowest(WORD, 0x102, 12) == [0, 0, 0, 1, 0, 0, 0, 0, 0, 0, 1, 0];
  }

  lemma RegZero()
    ensures Reg(0) == Zeros(16)
  {
    LowestZero(WORD, 0, 16);
  }

  lemma RegParts(w: bv16)
    ensures Reg(w)[0] == (if w & 0x8000 == 0 then 0 else 1) && Reg(w)[1..] == Lowest(WORD, w, 15)
  {
    LowestFront(w, 15);
    TopAt(w);
  }

  lemma RegUp(w: bv16)
    ensures Reg(Up(w)) == Lowest(WORD, w, 15) + [0]
  {
    UpDown(w);
    AgreeLowest(Up(w) >> 1, w, 15);
    LowestLast(Up(w), 15);
  }

  lemma RegAdded(w: bv16)
    ensures Reg(Added(w)) == if w & 0x8000 == 0 then Zeros(16) else POLY_BITS
  {
    PolyWord();
    RegZero();
  }

  lemma ShiftIsSum(r: Register, up: Register, added: Register)
    requires up == r[1..] + [0] && added == if r[0] == 0 then Zeros(16) else POLY_BITS
    ensures Shift(r) == XorBits(up, added)
  {
  }

  lemma RegNext(w: bv16)
    ensures Reg(Next(w)) == Shift(Reg(w))
  {
    RegParts(w);
    RegUp(w);
    RegAdded(w);
    RegXor(Up(w), Added(w));
    ShiftIsSum(Reg(w), Reg(Up(w)), Reg(Added(w)));
  }

  function Term(acc: bv16, b: Bit, v: bv16): bv16
  {
    if b == 1 then Xor(Next(acc), v) else Next(acc)
  }

  /** The lowest k bits of u, times v. */
  function Prod(u: bv16, v: bv16, k: nat): bv16
    decreases k
  {
    if k == 0 then 0 else Term(Prod(u >> 1, v, k - 1), Low(u), v)
  }

  /** The product of two words. */
  function Times(u: bv16, v: bv16): bv16
  {
    Prod(u, v, 16)
  }

  lemma RegTerm(acc: bv16, b: Bit, v: bv16)
    ensures Reg(Term(acc, b, v)) == XorBits(Shift(Reg(acc)), if b == 1 then Reg(v) else Zeros(16))
  {
    RegNext(acc);
    RegXor(Next(acc), v);
    ZerosAddNothing(Shift(Reg(acc)));
  }

  lemma ZerosAddNothing(r: Register)
    ensures XorBits(r, Zeros(16)) == r
  {
  }

  lemma MulSnoc(s: seq<Bit>, b: Bit, v: Register)
    ensures Mul(s + [b], v) == XorBits(Shift(Mul(s, v)), if b == 1 then v else Zeros(16))
  {
    assert (s + [b])[..|s|] == s;
  }

  lemma {:induction false} RegProd(u: bv16, v: bv16, k: nat)
    ensures Reg(Prod(u, v, k)) == Mul(Lowest(WORD, u, k), Reg(v))
    decreases k
  {
    if k == 0 {
      RegZero();
    } else {
      RegProd(u >> 1, v, k - 1);
      RegTerm(Prod(u >> 1, v, k - 1), Low(u), v);
      MulSnoc(Lowest(WORD, u >> 1, k - 1), Low(u), Reg(v));
    }
  }

  /** Four terms. */
  function Four(acc: bv16, u: bv16, v: bv16): bv16
  {
    Term(Term(Term(Term(acc, Low(u >> 3), v), Low(u >> 2), v), Low(u >> 1), v), Low(u), v)
  }

  lemma ProdFour(u: bv16, v: bv16, k: nat)
    ensures Prod(u, v, k + 4) == Four(Prod(u >> 4, v, k), u, v)
  {
    assert u >> 1 >> 1 == u >> 2 && u >> 2 >> 1 == u >> 3 && u >> 3 >> 1 == u >> 4;
    assert Prod(u >> 3, v, k + 1) == Term(Prod(u >> 4, v, k), Low(u >> 3), v);
    assert Prod(u >> 2, v, k + 2) == Term(Prod(u >> 3, v, k + 1), Low(u >> 2), v);
    assert Prod(u >> 1, v, k + 3) == Term(Prod(u >> 2, v, k + 2), Low(u >> 1), v);
  }

  /** The product of u and v is w, with the words on the way. */
  predicate Computes(u: bv16, v: bv16, a: bv16, b: bv16, c: bv16, w: bv16)
  {
    Four(0, u >> 12, v) == a && Four(a, u >> 8, v) == b && Four(b, u >> 4, v) == c && Four(c, u, v) == w
  }

  lemma Product(u: bv16, v: bv16, a: bv16, b: bv16, c: bv16, w: bv16)
    requires Computes(u, v, a, b, c, w)
    ensures Times(u, v) == w
  {
    ProdFour(u, v, 12);
    ProdFour(u >> 4, v, 8);
    ProdFour(u >> 8, v, 4);
    ProdFour(u >> 12, v, 0);
    assert u >> 4 >> 4 == u >> 8 && u >> 8 >> 4 == u >> 12;
  }

  // ----- products of particular words, each with the words on the way

  lemma Words16()
    ensures Computes(0x0002, 0x0002, 0x0000, 0x0000, 0x0000, 0x0004)
    ensures Computes(0x0004, 0x0004, 0x0000, 0x0000, 0x0000, 0x0010)
    ensures Computes(0x0010, 0x0010, 0x0000, 0x0000, 0x0010, 0x0100)
    ensures Computes(0x0100, 0x0100, 0x0000, 0x0100, 0x1000, 0x1021)
  {
  }

  lemma Words256()
    ensures Computes(0x1021, 0x1021, 0x1021, 0x1231, 0x1373, 0x3730)
    ensures Computes(0x3730, 0x3730, 0x5950, 0x4035, 0x1a84, 0xb861)
    ensures Computes(0xb861, 0xb861, 0x4b2f, 0x61d9, 0xdc73, 0xaefc)
    ensures Computes(0xaefc, 0xaefc, 0x6a9c, 0x3828, 0xed31, 0x8e29)
  {
  }

  lemma Words4096()
    ensures Computes(0x8e29, 0x8e29, 0x31cc, 0x09fa, 0x93d3, 0x13fc)
    ensures Computes(0x13fc, 0x13fc, 0x13fc, 0x1be5, 0x4a65, 0x36c4)
    ensures Computes(0x36c4, 0x36c4, 0x5b4c, 0x52fd, 0x0264, 0xfd50)
    ensures Computes(0xfd50, 0xfd50, 0x4895, 0x6bc0, 0xe4b5, 0xaa9e)
  {
  }

  lemma Words32768()
    ensures Computes(0xaa9e, 0xaa9e, 0x4148, 0x154c, 0xea2a, 0x881c)
    ensures Computes(0x881c, 0x881c, 0x0064, 0x0624, 0xea5c, 0x4458)
    ensures Computes(0x4458, 0x4458, 0x0141, 0x1551, 0x0028, 0x0002)
  {
  }

  lemma Words217()
    ensures Computes(0xaefc, 0xb861, 0xf34e, 0xf787, 0x0376, 0x650b)
    ensures Computes(0x650b, 0x1021, 0x60c6, 0x3c03, 0xf053, 0x45b4)
    ensures Computes(0x45b4, 0x0100, 0x0400, 0x4500, 0x1b84, 0xac61)
    ensures Computes(0xac61, 0x0002, 0x0014, 0x0158, 0x158c, 0x48e3)
  {
  }

  lemma Words1057()
    ensures Computes(0x36c4, 0x3730, 0x5950, 0x7705, 0x75d6, 0xf147)
    ensures Computes(0xf147, 0x0002, 0x001e, 0x01e2, 0x1e28, 0xf2af)
  {
  }

  lemma Words4681()
    ensures Computes(0xaa9e, 0x13fc, 0xb818, 0x88f3, 0x8224, 0x54a0)
    ensures Computes(0x54a0, 0xb861, 0x79a7, 0x2b51, 0x661c, 0x0106)
    ensures Computes(0x0106, 0x0100, 0x0000, 0x0100, 0x1000, 0x1621)
    ensures Computes(0x1621, 0x0002, 0x0002, 0x002c, 0x02c4, 0x2c42)
  {
  }

  // ----- powers of x

  /** The n-th power of x as a word. */
  function Pow(n: nat): bv16
  {
    if n == 0 then 1 else Next(Pow(n - 1))
  }

  lemma RegOne(one: Register)
    requires IsOne(one)
    ensures Reg(1) == one
  {
    LowestZero(WORD, 0, 15);
    LowestLast(1, 15);
  }

  lemma {:induction false} RegPow(one: Register, n: nat)
    requires IsOne(one)
    ensures Reg(Pow(n)) == Shifts(one, n)
  {
    if n == 0 {
      RegOne(one);
    } else {
      RegPow(one, n - 1);
      RegNext(Pow(n - 1));
      ShiftsAdd(one, n - 1, 1);
    }
  }

  lemma {:induction false} LowestAgree(v: bv16, w: bv16, k: nat)
    requires Lowest(WORD, v, k) == Lowest(WORD, w, k)
    ensures Agree(v, w, k)
    decreases k
  {
    if k > 0 {
      LowestLast(v, k - 1);
      LowestLast(w, k - 1);
      SnocInjective(Lowest(WORD, v >> 1, k - 1), Low(v), Lowest(WORD, w >> 1, k - 1), Low(w));
      LowestAgree(v >> 1, w >> 1, k - 1);
    }
  }

  lemma SnocInjective(a: seq<Bit>, x: Bit, b: seq<Bit>, y: Bit)
    requires |a| == |b| && a + [x] == b + [y]
    ensures a == b && x == y
  {
    assert (a + [x])[..|a|] == a && (b + [y])[..|a|] == b;
    assert (a + [x])[|a|] == x && (b + [y])[|a|] == y;
  }

  lemma AgreeAll(v: bv16, w: bv16)
    requires Agree(v, w, 16)
    ensures v == w
  {
    AgreeFour(v, w, 12);
    AgreeFour(v >> 4, w >> 4, 8);
    AgreeFour(v >> 4 >> 4, w >> 4 >> 4, 4);
    AgreeFour(v >> 4 >> 4 >> 4, w >> 4 >> 4 >> 4, 0);
  }

  lemma AgreeFour(v: bv16, w: bv16, k: nat)
    requires Agree(v, w, k + 4)
    ensures v & 0xf == w & 0xf && Agree(v >> 4, w >> 4, k)
  {
    assert Agree(v >> 1, w >> 1, k + 3) && Agree(v >> 1 >> 1, w >> 1 >> 1, k + 2);
    assert Agree(v >> 1 >> 1 >> 1, w >> 1 >> 1 >> 1, k + 1);
  }

  lemma RegInjective(v: bv16, w: bv16)
    requires Reg(v) == Reg(w)
    ensures v == w
  {
    LowestAgree(v, w, 16);
    AgreeAll(v, w);
  }

  lemma PowTimes(one: Register, m: nat, n: nat)
    requires IsOne(one)
    ensures Times(Pow(m), Pow(n)) == Pow(m + n)
  {
    RegProd(Pow(m), Pow(n), 16);
    RegPow(one, m);
    RegPow(one, n);
    RegPow(one, m + n);
    MulPower(Shifts(one, m), one, n);
    ShiftsAdd(one, m, n);
    RegInjective(Times(Pow(m), Pow(n)), Pow(m + n));
  }

  /** Exponents add up. */
  ghost predicate Exponential<R(!new)>(pow: nat -> R, mul: (R, R) -> R)
  {
    forall m: nat, n: nat :: mul(pow(m), pow(n)) == pow(m + n)
  }

  lemma FourSquares<R(!new)>(pow: nat -> R, mul: (R, R) -> R, e: nat, a: R, b: R, c: R, d: R, f: R)
    requires Exponential(pow, mul)
    requires pow(e) == a && mul(a, a) == b && mul(b, b) == c && mul(c, c) == d && mul(d, d) == f
    ensures pow(2 * e) == b && pow(4 * e) == c && pow(8 * e) == d && pow(16 * e) == f
  {
    assert pow(e + e) == b;
    assert pow(2 * e + 2 * e) == c;
    assert pow(4 * e + 4 * e) == d;
    assert pow(8 * e + 8 * e) == f;
  }

  lemma TwoProducts<R(!new)>(pow: nat -> R, mul: (R, R) -> R, k: nat, l: nat, m: nat, a: R, b: R, c: R, ab: R, abc: R)
    requires Exponential(pow, mul)
    requires pow(k) == a && pow(l) == b && pow(m) == c && mul(a, b) == ab && mul(ab, c) == abc
    ensures pow(k + l) == ab && pow(k + l + m) == abc
  {
    assert pow(k + l) == ab;
    assert pow((k + l) + m) == abc;
  }

  ghost predicate LowTable(mul: (bv16, bv16) -> bv16)
  {
    && mul(0x0002, 0x0002) == 0x0004 && mul(0x0004, 0x0004) == 0x0010 && mul(0x0010, 0x0010) == 0x0100
    && mul(0x0100, 0x0100) == 0x1021 && mul(0x1021, 0x1021) == 0x3730 && mul(0x3730, 0x3730) == 0xb861
    && mul(0xb861, 0xb861) == 0xaefc && mul(0xaefc, 0xaefc) == 0x8e29
  }

  ghost predicate HighTable(mul: (bv16, bv16) -> bv16)
  {
    && mul(0x8e29, 0x8e29) == 0x13fc && mul(0x13fc, 0x13fc) == 0x36c4 && mul(0x36c4, 0x36c4) == 0xfd50
    && mul(0xfd50, 0xfd50) == 0xaa9e && mul(0xaa9e, 0xaa9e) == 0x881c && mul(0x881c, 0x881c) == 0x4458
    && mul(0x4458, 0x4458) == 0x0002
  }

  ghost predicate MixedTable(mul: (bv16, bv16) -> bv16)
  {
    && mul(0xaefc, 0xb861) == 0x650b && mul(0x650b, 0x1021) == 0x45b4 && mul(0x45b4, 0x0100) == 0xac61
    && mul(0xac61, 0x0002) == 0x48e3 && mul(0x36c4, 0x3730) == 0xf147 && mul(0xf147, 0x0002) == 0xf2af
    && mul(0xaa9e, 0x13fc) == 0x54a0 && mul(0x54a0, 0xb861) == 0x0106 && mul(0x0106, 0x0100) == 0x1621
    && mul(0x1621, 0x0002) == 0x2c42
  }

  lemma LowPowers(pow: nat -> bv16, mul: (bv16, bv16) -> bv16, e: nat)
    requires Exponential(pow, mul) && LowTable(mul) && pow(e) == 0x0002
    ensures pow(8 * e) == 0x0100 && pow(16 * e) == 0x1021 && pow(32 * e) == 0x3730 && pow(64 * e) == 0xb861
    ensures pow(128 * e) == 0xaefc && pow(256 * e) == 0x8e29
  {
    FourSquares(pow, mul, e, 0x0002, 0x0004, 0x0010, 0x0100, 0x1021);
    FourSquares(pow, mul, 16 * e, 0x1021, 0x3730, 0xb861, 0xaefc, 0x8e29);
  }

  lemma HighPowers(pow: nat -> bv16, mul: (bv16, bv16) -> bv16, e: nat)
    requires Exponential(pow, mul) && LowTable(mul) && HighTable(mul) && pow(256 * e) == 0x8e29
    ensures pow(512 * e) == 0x13fc && pow(1024 * e) == 0x36c4 && pow(4096 * e) == 0xaa9e && pow(32768 * e) == 0x0002
  {
    FourSquares(pow, mul, 256 * e, 0x8e29, 0x13fc, 0x36c4, 0xfd50, 0xaa9e);
    FourSquares(pow, mul, 4096 * e, 0xaa9e, 0x881c, 0x4458, 0x0002, 0x0004);
  }

  lemma Power217(pow: nat -> bv16, mul: (bv16, bv16) -> bv16, e: nat)
    requires Exponential(pow, mul) && MixedTable(mul) && pow(e) == 0x0002 && pow(8 * e) == 0x0100
    requires pow(16 * e) == 0x1021 && pow(64 * e) == 0xb861 && pow(128 * e) == 0xaefc
    ensures pow(217 * e) == 0x48e3
  {
    TwoProducts(pow, mul, 128 * e, 64 * e, 16 * e, 0xaefc, 0xb861, 0x1021, 0x650b, 0x45b4);
    TwoProducts(pow, mul, 208 * e, 8 * e, e, 0x45b4, 0x0100, 0x0002, 0xac61, 0x48e3);
  }

  lemma Power1057(pow: nat -> bv16, mul: (bv16, bv16) -> bv16, e: nat)
    requires Exponential(pow, mul) && MixedTable(mul)
    requires pow(e) == 0x0002 && pow(32 * e) == 0x3730 && pow(1024 * e) == 0x36c4
    ensures pow(1057 * e) == 0xf2af
  {
    TwoProducts(pow, mul, 1024 * e, 32 * e, e, 0x36c4, 0x3730, 0x0002, 0xf147, 0xf2af);
  }

  lemma Power4681(pow: nat -> bv16, mul: (bv16, bv16) -> bv16, e: nat)
    requires Exponential(pow, mul) && MixedTable(mul) && pow(e) == 0x0002 && pow(8 * e) == 0x0100
    requires pow(64 * e) == 0xb861 && pow(512 * e) == 0x13fc && pow(4096 * e) == 0xaa9e
    ensures pow(4681 * e) == 0x2c42
  {
    TwoProducts(pow, mul, 4096 * e, 512 * e, 64 * e, 0xaa9e, 0x13fc, 0xb861, 0x54a0, 0x0106);
    TwoProducts(pow, mul, 4672 * e, 8 * e, e, 0x0106, 0x0100, 0x0002, 0x1621, 0x2c42);
  }

  lemma Powers(pow: nat -> bv16, mul: (bv16, bv16) -> bv16, e: nat)
    requires Exponential(pow, mul) && LowTable(mul) && HighTable(mul) && MixedTable(mul) && pow(e) == 0x0002
    ensures pow(217 * e) == 0x48e3 && pow(1057 * e) == 0xf2af && pow(4681 * e) == 0x2c42 && pow(32768 * e) == 0x0002
  {
    LowPowers(pow, mul, e);
    HighPowers(pow, mul, e);
    Power217(pow, mul, e);
    Power1057(pow, mul, e);
    Power4681(pow, mul, e);
  }

  lemma LowProducts()
    ensures LowTable(Times)
  {
    Words16();
    Words256();
    Product(0x0002, 0x0002, 0x0000, 0x0000, 0x0000, 0x0004);
    Product(0x0004, 0x0004, 0x0000, 0x0000, 0x0000, 0x0010);
    Product(0x0010, 0x0010, 0x0000, 0x0000, 0x0010, 0x0100);
    Product(0x0100, 0x0100, 0x0000, 0x0100, 0x1000, 0x1021);
    Product(0x1021, 0x1021, 0x1021, 0x1231, 0x1373, 0x3730);
    Product(0x3730, 0x3730, 0x5950, 0x4035, 0x1a84, 0xb861);
    Product(0xb861, 0xb861, 0x4b2f, 0x61d9, 0xdc73, 0xaefc);
    Product(0xaefc, 0xaefc, 0x6a9c, 0x3828, 0xed31, 0x8e29);
  }

  lemma HighProducts()
    ensures HighTable(Times)
  {
    Words4096();
    Words32768();
    Product(0x8e29, 0x8e29, 0x31cc, 0x09fa, 0x93d3, 0x13fc);
    Product(0x13fc, 0x13fc, 0x13fc, 0x1be5, 0x4a65, 0x36c4);
    Product(0x36c4, 0x36c4, 0x5b4c, 0x52fd, 0x0264, 0xfd50);
    Product(0xfd50, 0xfd50, 0x4895, 0x6bc0, 0xe4b5, 0xaa9e);
    Product(0xaa9e, 0xaa9e, 0x4148, 0x154c, 0xea2a, 0x881c);
    Product(0x881c, 0x881c, 0x0064, 0x0624, 0xea5c, 0x4458);
    Product(0x4458, 0x4458, 0x0141, 0x1551, 0x0028, 0x0002);
  }

  lemma MixedProducts()
    ensures MixedTable(Times)
  {
    Words217();
    Words1057();
    Words4681();
    Product(0xaefc, 0xb861, 0xf34e, 0xf787, 0x0376, 0x650b);
    Product(0x650b, 0x1021, 0x60c6, 0x3c03, 0xf053, 0x45b4);
    Product(0x45b4, 0x0100, 0x0400, 0x4500, 0x1b84, 0xac61);
    Product(0xac61, 0x0002, 0x0014, 0x0158, 0x158c, 0x48e3);
    Product(0x36c4, 0x3730, 0x5950, 0x7705, 0x75d6, 0xf147);
    Product(0xf147, 0x0002, 0x001e, 0x01e2, 0x1e28, 0xf2af);
    Product(0xaa9e, 0x13fc, 0xb818, 0x88f3, 0x8224, 0x54a0);
    Product(0x54a0, 0xb861, 0x79a7, 0x2b51, 0x661c, 0x0106);
    Product(0x0106, 0x0100, 0x0000, 0x0100, 0x1000, 0x1621);
    Product(0x1621, 0x0002, 0x0002, 0x002c, 0x02c4, 0x2c42);
  }

  lemma PowExponential(one: Register)
    requires IsOne(one)
    ensures Exponential(Pow, Times)
  {
    forall m: nat, n: nat ensures Times(Pow(m), Pow(n)) == Pow(m + n) {
      PowTimes(one, m, n);
    }
  }

  lemma WordPowers(one: Register, e: nat)
    requires IsOne(one) && Pow(e) == 0x0002
    ensures Pow(217 * e) == 0x48e3 && Pow(1057 * e) == 0xf2af && Pow(4681 * e) == 0x2c42 && Pow(32768 * e) == 0x0002
  {
    PowExponential(one);
    LowProducts();
    HighProducts();
    MixedProducts();
    Powers(Pow, Times, e);
  }

  /** After 32767 shifts the word is one again, and not after the greatest proper divisors of 32767. */
  lemma Witnesses(one: Register, e: nat)
    requires IsOne(one) && e == 1
    ensures Pow(217 * e) != 1 && Pow(1057 * e) != 1 && Pow(4681 * e) != 1 && Pow(32767 * e) == 1
  {
    FirstPower(e);
    WordPowers(one, e);
    FullRound(one, 32767 * e);
  }

  lemma FirstPower(e: nat)
    requires e == 1
    ensures Pow(e) == 0x0002
  {
    assert Pow(e) == Next(Pow(e - 1));
  }

  lemma FullRound(one: Register, n: nat)
    requires IsOne(one) && Pow(n + 1) == 0x0002
    ensures Pow(n) == 1
  {
    assert Next(Pow(n)) == Next(1);
    RegNext(Pow(n));
    RegNext(1);
    ShiftInjective(Reg(Pow(n)), Reg(1));
    RegInjective(Pow(n), 1);
  }

  // ----- when the register comes round

  predicate Round(one: Register, n: nat)
  {
    Shifts(one, n) == one
  }

  lemma RoundIsOne(one: Register, n: nat)
    requires IsOne(one)
    ensures Round(one, n) <==> Pow(n) == 1
  {
    RegPow(one, n);
    RegOne(one);
    if Round(one, n) { RegInjective(Pow(n), 1); }
  }

  lemma {:induction false} RoundTimes(one: Register, m: nat, k: nat)
    requires Round(one, m)
    ensures Round(one, k * m)
    decreases k
  {
    if k > 0 {
      RoundTimes(one, m, k - 1);
      ShiftsAdd(one, (k - 1) * m, m);
    }
  }

  lemma RoundRest(one: Register, m: nat, k: nat, r: nat)
    requires Round(one, m) && Round(one, k * m + r)
    ensures Round(one, r)
  {
    RoundTimes(one, m, k);
    ShiftsAdd(one, k * m, r);
  }

  /** Multiples of q on the way to the full round leave smaller ones. */
  lemma RoundMod(one: Register, q: nat, n: nat, r: nat)
    requires r > 0 && Round(one, q * r) && Round(one, q * n)
    ensures Round(one, q * (n % r))
  {
    var k := n / r;
    Distribute(q, n, r, k);
    RoundRest(one, q * r, k, q * (n % r));
  }

  lemma Distribute(q: nat, n: nat, r: nat, k: nat)
    requires r > 0 && k == n / r
    ensures q * n == k * (q * r) + q * (n % r)
  {
    assert n == k * r + n % r;
    assert q * n == q * (k * r) + q * (n % r);
    assert q * (k * r) == k * (q * r);
  }

  predicate Prime(p: nat)
  {
    p > 1 && forall m :: 1 < m < p ==> p % m != 0
  }

  /** If q * p shifts bring the register round and q do not, no smaller multiple of q does, for a prime p. */
  lemma {:induction false} NoPart(one: Register, q: nat, p: nat, r: nat)
    requires q > 0 && Prime(p) && 1 <= r < p && Round(one, q * p) && !Round(one, q)
    ensures !Round(one, q * r)
    decreases r
  {
    if r > 1 && Round(one, q * r) {
      RoundMod(one, q, p, r);
      NoPart(one, q, p, p % r);
    }
  }

  lemma PrimeDivides(one: Register, q: nat, p: nat, n: nat)
    requires q > 0 && Prime(p) && Round(one, q * p) && !Round(one, q) && Round(one, n)
    ensures n % p == 0
  {
    RoundTimes(one, n, q);
    RoundMod(one, q, n, p);
    if n % p != 0 { NoPart(one, q, p, n % p); }
  }

  lemma Primes()
    ensures Prime(7) && Prime(31) && Prime(151)
  {
    forall m | 1 < m < 151 ensures 151 % m != 0 {
      NoFactors(m, 151 / m);
      assert m * (151 / m) + 151 % m == 151;
    }
  }

  lemma NoFactors(a: nat, b: nat)
    requires 1 < a < 151
    ensures a * b != 151
  {
    if a <= 12 {
      NoSmallFactor(a, b);
    } else if 1 < b <= 12 {
      NoSmallFactor(b, a);
    } else if b > 12 {
      assert a * b >= 13 * b;
    }
  }

  lemma NoSmallFactor(a: nat, b: nat)
    requires 1 < a <= 12
    ensures a * b != 151
  {
    assert a == 2 || a == 3 || a == 4 || a == 5 || a == 6 || a == 7 || a == 8 || a == 9 || a == 10 || a == 11
           || a == 12;
  }

  lemma Multiples(n: nat)
    requires n % 7 == 0 && n % 31 == 0 && n % 151 == 0
    ensures n % 32767 == 0
  {
    var d := 40 * (n / 31) - 9 * (n / 7);
    assert n == 217 * d;
    FullMultiple(n, -16 * (n / 151) + 23 * d);
  }

  lemma FullMultiple(n: nat, q: int)
    requires n == 32767 * q
    ensures n % 32767 == 0
  {
  }

  lemma OrderFrom(one: Register, n: nat, full: nat, a: nat, b: nat, c: nat)
    requires full == 32767 && a == 4681 && b == 1057 && c == 217
    requires Round(one, full) && !Round(one, a) && !Round(one, b) && !Round(one, c)
    ensures Round(one, n) <==> n % full == 0
  {
    if Round(one, n) {
      Primes();
      PrimeDivides(one, a, 7, n);
      PrimeDivides(one, b, 31, n);
      PrimeDivides(one, c, 151, n);
      Multiples(n);
    }
    if n % full == 0 { RoundTimes(one, full, n / full); }
  }

  /** The register comes round after n shifts exactly when n is a multiple of 32767. */
  lemma OrderExact(one: Register, n: nat)
    requires IsOne(one)
    ensures Shifts(one, n) == one <==> n % 32767 == 0
  {
    OrderFor(one, n, 1);
  }

  lemma OrderFor(one: Register, n: nat, e: nat)
    requires IsOne(one) && e == 1
    ensures Round(one, n) <==> n % 32767 == 0
  {
    Witnesses(one, e);
    RoundIsOne(one, 32767 * e);
    RoundIsOne(one, 4681 * e);
    RoundIsOne(one, 1057 * e);
    RoundIsOne(one, 217 * e);
    OrderFrom(one, n, 32767 * e, 4681 * e, 1057 * e, 217 * e);
  }
}
