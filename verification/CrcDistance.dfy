/** The checksum as polynomial division over GF(2), and the least distance of streams it cannot tell apart. */
module CrcDistance {
  import opened Bits
  import opened Crc16
  import opened CrcOrder

  // ----- quotient and remainder

  /** The polynomial with its leading term. */
  const POLY17: seq<Bit> := [1] + POLY_BITS

  function Multiple(b: Bit): (s: seq<Bit>)
    ensures |s| == 17 && s[0] == b
  {
    if b == 1 then POLY17 else Zeros(17)
  }

  /** The product of a polynomial with the checksum's, as bits from the highest coefficient down. */
  function Times(q: seq<Bit>): (s: seq<Bit>)
    ensures |s| == |q| + 16
  {
    if q == [] then Zeros(16) else XorBits(Multiple(q[0]) + Zeros(|q| - 1), [0] + Times(q[1..]))
  }

  /** The bits that fall out of the register on the way. */
  function Quotient(r: Register, bits: seq<Bit>): (q: seq<Bit>)
    ensures |q| == |bits|
    decreases |bits|
  {
    if bits == [] then [] else [XorBits(r, [bits[0]] + Zeros(15))[0]] + Quotient(Feed(r, bits[0]), bits[1..])
  }

  /** One step of long division: what is taken off is a multiple of the polynomial. */
  lemma OneDivisionStep(c: Register, i: nat)
    requires i < 17
    ensures (c + [0])[i] == XorBits(Multiple(c[0]), [0] + Shift(c))[i]
  {
    if i > 0 { ShiftAt(c, i - 1); }
  }

  lemma {:induction false} DivisionFrom(r: Register, bits: seq<Bit>)
    ensures XorBits(r + Zeros(|bits|), bits + Zeros(16)) ==
            XorBits(Times(Quotient(r, bits)), Zeros(|bits|) + Absorb(r, bits))
    decreases |bits|
  {
    var n := |bits|;
    if n == 0 {
      assert XorBits(r + Zeros(0), [] + Zeros(16)) == r;
      assert XorBits(Zeros(16), Zeros(0) + r) == r;
    } else {
      var c := XorBits(r, [bits[0]] + Zeros(15));
      DivisionFrom(Shift(c), bits[1..]);
      StepDown(r, bits, c, Times(Quotient(Shift(c), bits[1..])), Absorb(Shift(c), bits[1..]));
    }
  }

  lemma StepDown(r: Register, bits: seq<Bit>, c: Register, times: seq<Bit>, rest: Register)
    requires bits != [] && c == XorBits(r, [bits[0]] + Zeros(15)) && |times| == |bits| - 1 + 16
    requires XorBits(Shift(c) + Zeros(|bits| - 1), bits[1..] + Zeros(16)) == XorBits(times, Zeros(|bits| - 1) + rest)
    ensures XorBits(r + Zeros(|bits|), bits + Zeros(16)) ==
            XorBits(XorBits(Multiple(c[0]) + Zeros(|bits| - 1), [0] + times), Zeros(|bits|) + rest)
  {
    var n := |bits|;
    var left, right := XorBits(r + Zeros(n), bits + Zeros(16)),
                       XorBits(XorBits(Multiple(c[0]) + Zeros(n - 1), [0] + times), Zeros(n) + rest);
    forall i | 0 <= i < n + 16 ensures left[i] == right[i] {
      StepDownAt(r, bits, c, times, rest, i);
    }
  }

  lemma StepDownAt(r: Register, bits: seq<Bit>, c: Register, times: seq<Bit>, rest: Register, i: nat)
    requires bits != [] && c == XorBits(r, [bits[0]] + Zeros(15)) && |times| == |bits| - 1 + 16 && i < |bits| + 16
    requires XorBits(Shift(c) + Zeros(|bits| - 1), bits[1..] + Zeros(16)) == XorBits(times, Zeros(|bits| - 1) + rest)
    ensures XorBits(r + Zeros(|bits|), bits + Zeros(16))[i] ==
            XorBits(XorBits(Multiple(c[0]) + Zeros(|bits| - 1), [0] + times), Zeros(|bits|) + rest)[i]
  {
    var n := |bits|;
    var a, b := Shift(c) + Zeros(n - 1), bits[1..] + Zeros(16);
    if i > 0 {
      assert XorBits(a, b)[i - 1] == XorBits(times, Zeros(n - 1) + rest)[i - 1];
      assert (bits + Zeros(16))[i] == b[i - 1];
      assert (Zeros(n) + rest)[i] == (Zeros(n - 1) + rest)[i - 1];
    }
    if i < 17 { OneDivisionStep(c, i); }
    assert (r + Zeros(n))[i] == if i < 16 then r[i] else 0;
  }

  /** The register after a message is the remainder of the message times x^16 divided by the polynomial. */
  lemma Division(zero: Register, bits: seq<Bit>)
    requires zero == Zeros(16)
    ensures bits + zero == XorBits(Times(Quotient(zero, bits)), Zeros(|bits|) + Absorb(zero, bits))
  {
    DivisionFrom(zero, bits);
    XorWithZeros(zero + Zeros(|bits|), bits + zero);
  }

  lemma XorWithZeros(z: seq<Bit>, m: seq<Bit>)
    requires |z| == |m| && forall i :: 0 <= i < |z| ==> z[i] == 0
    ensures XorBits(z, m) == m
  {
  }

  lemma {:induction false} DivisionUnique(q: seq<Bit>, r: Register, q': seq<Bit>, r': Register)
    requires |q| == |q'| && XorBits(Times(q), Zeros(|q|) + r) == XorBits(Times(q'), Zeros(|q'|) + r')
    ensures q == q' && r == r'
    decreases |q|
  {
    if q == [] {
      XorWithZeros(Times(q), Zeros(|q|) + r);
      XorWithZeros(Times(q'), Zeros(|q|) + r');
      assert Zeros(0) + r == r && Zeros(0) + r' == r';
    } else {
      var n := |q|;
      SameLeading(q[0], Times(q[1..]), Zeros(n) + r, Zeros(n - 1) + r,
                  q'[0], Times(q'[1..]), Zeros(n) + r', Zeros(n - 1) + r', n);
      DivisionUnique(q[1..], r, q'[1..], r');
      assert q == [q[0]] + q[1..] && q' == [q'[0]] + q'[1..];
    }
  }

  /** Equal sums have equal leading bits and equal rests. */
  lemma SameLeading(b: Bit, t: seq<Bit>, z: seq<Bit>, y: seq<Bit>,
                    b': Bit, t': seq<Bit>, z': seq<Bit>, y': seq<Bit>, n: nat)
    requires n > 0 && |t| == |t'| == |y| == |y'| == n + 15 && |z| == |z'| == n + 16
    requires z == [0] + y && z' == [0] + y'
    requires XorBits(XorBits(Multiple(b) + Zeros(n - 1), [0] + t), z) ==
             XorBits(XorBits(Multiple(b') + Zeros(n - 1), [0] + t'), z')
    ensures b == b' && XorBits(t, y) == XorBits(t', y')
  {
    var m, m' := Multiple(b) + Zeros(n - 1), Multiple(b') + Zeros(n - 1);
    var left, right := XorBits(XorBits(m, [0] + t), z), XorBits(XorBits(m', [0] + t'), z');
    assert left[0] == b && right[0] == b';
    forall i | 0 <= i < n + 15 ensures XorBits(t, y)[i] == XorBits(t', y')[i] {
      assert left[i + 1] == right[i + 1] && m[i + 1] == m'[i + 1];
      assert ([0] + t)[i + 1] == t[i] && ([0] + t')[i + 1] == t'[i] && z[i + 1] == y[i] && z'[i + 1] == y'[i];
    }
  }

  /** It is the only remainder of degree below sixteen. */
  lemma OnlyRemainder(zero: Register, bits: seq<Bit>, q: seq<Bit>, r: Register)
    requires zero == Zeros(16) && |q| == |bits| && bits + zero == XorBits(Times(q), Zeros(|bits|) + r)
    ensures r == Absorb(zero, bits) && q == Quotient(zero, bits)
  {
    Division(zero, bits);
    DivisionUnique(q, r, Quotient(zero, bits), Absorb(zero, bits));
  }

  // ----- two flipped bits

  lemma FeedXor(a: Register, b: Register, u: Bit, v: Bit)
    ensures XorBits(Feed(a, u), Feed(b, v)) == Shift(XorBits(XorBits(a, b), [if u == v then 0 else 1] + Zeros(15)))
  {
    var x, y := XorBits(a, [u] + Zeros(15)), XorBits(b, [v] + Zeros(15));
    ShiftXor(x, y);
    assert XorBits(x, y) == XorBits(XorBits(a, b), [if u == v then 0 else 1] + Zeros(15));
  }

  /** The difference of two registers that are fed the same bits is merely shifted. */
  lemma {:induction false} DifferenceShifts(a: Register, b: Register, bits: seq<Bit>)
    ensures XorBits(Absorb(a, bits), Absorb(b, bits)) == Shifts(XorBits(a, b), |bits|)
    decreases |bits|
  {
    if bits != [] {
      FeedXor(a, b, bits[0], bits[0]);
      XorWithZeros([0] + Zeros(15), XorBits(a, b));
      assert XorBits(XorBits(a, b), [0] + Zeros(15)) == XorBits(a, b);
      DifferenceShifts(Feed(a, bits[0]), Feed(b, bits[0]), bits[1..]);
    }
  }

  /** Only the top bit is set. */
  predicate IsTop(top: Register)
  {
    top[0] == 1 && top[1..] == Zeros(15)
  }

  lemma {:induction false} OneMovesUp(one: Register, k: nat)
    requires IsOne(one) && k <= 15
    ensures Shifts(one, k) == Zeros(15 - k) + ([1] + Zeros(k))
    decreases k
  {
    if k > 0 {
      OneMovesUp(one, k - 1);
      ShiftsAdd(one, k - 1, 1);
      MovedOnce(Zeros(16 - k) + ([1] + Zeros(k - 1)), k);
    }
  }

  lemma MovedOnce(r: Register, k: nat)
    requires 0 < k <= 15 && r == Zeros(16 - k) + ([1] + Zeros(k - 1))
    ensures Shift(r) == Zeros(15 - k) + ([1] + Zeros(k))
  {
    assert r[0] == 0;
  }

  /** The top bit comes round as the whole register does. */
  lemma TopComesRound(top: Register, n: nat)
    requires IsTop(top)
    ensures Shifts(top, n) == top <==> n % 32767 == 0
  {
    RoundWith(Zeros(15) + [1], top, n);
  }

  lemma RoundWith(one: Register, top: Register, n: nat)
    requires IsOne(one) && IsTop(top)
    ensures Shifts(top, n) == top <==> n % 32767 == 0
  {
    OneMovesUp(one, 15);
    assert top == Zeros(0) + ([1] + Zeros(15));
    Exchange(one, n, 15);
    OrderExact(one, n);
    if Shifts(top, n) == top { ShiftsInjective(Shifts(one, n), one, 15); }
  }

  lemma Exchange(r: Register, m: nat, n: nat)
    ensures Shifts(Shifts(r, m), n) == Shifts(Shifts(r, n), m)
  {
    ShiftsAdd(r, m, n);
    ShiftsAdd(r, n, m);
  }

  lemma FirstFlip(r: Register, u: Bit, top: Register)
    requires IsTop(top)
    ensures XorBits(Feed(r, u), Feed(r, 1 - u)) == Shift(top)
  {
    var x, y := XorBits(r, [u] + Zeros(15)), XorBits(r, [1 - u] + Zeros(15));
    ShiftXor(x, y);
    forall i | 0 <= i < 16 ensures XorBits(x, y)[i] == top[i] {
      if i > 0 { assert top[i] == top[1..][i - 1]; }
    }
    assert XorBits(x, y) == top;
  }

  /** Different bits bring two registers together exactly when these differ in the top bit alone. */
  lemma LastFlip(c: Register, d: Register, v: Bit, top: Register)
    requires IsTop(top)
    ensures Feed(c, v) == Feed(d, 1 - v) <==> XorBits(c, d) == top
  {
    var x, y := XorBits(c, [v] + Zeros(15)), XorBits(d, [1 - v] + Zeros(15));
    if Feed(c, v) == Feed(d, 1 - v) { ShiftInjective(x, y); }
    SameButTop(c, d, v, top);
  }

  lemma SameButTop(c: Register, d: Register, v: Bit, top: Register)
    requires IsTop(top)
    ensures XorBits(c, [v] + Zeros(15)) == XorBits(d, [1 - v] + Zeros(15)) <==> XorBits(c, d) == top
  {
    var x, y := XorBits(c, [v] + Zeros(15)), XorBits(d, [1 - v] + Zeros(15));
    forall i | 0 <= i < 16 ensures x[i] == y[i] <==> XorBits(c, d)[i] == top[i] {
      if i > 0 { assert top[i] == top[1..][i - 1]; }
    }
  }

  /** A first flipped bit leaves the difference of one shifted top bit, which a second takes away exactly when it
      comes after a full round. */
  lemma FlipsApart(r: Register, u: Bit, mid: seq<Bit>, v: Bit, post: seq<Bit>)
    ensures (|mid| + 1) % 32767 == 0 <==>
            Absorb(Feed(Absorb(Feed(r, u), mid), v), post) == Absorb(Feed(Absorb(Feed(r, 1 - u), mid), 1 - v), post)
  {
    var top := TopRegister();
    var a, b := Feed(r, u), Feed(r, 1 - u);
    var c, d := Absorb(a, mid), Absorb(b, mid);
    FirstFlip(r, u, top);
    DifferenceShifts(a, b, mid);
    ShiftsFront(top, |mid|);
    TopComesRound(top, |mid| + 1);
    LastFlip(c, d, v, top);
    if Absorb(Feed(c, v), post) == Absorb(Feed(d, 1 - v), post) { AbsorbInjective(Feed(c, v), Feed(d, 1 - v), post); }
  }

  lemma ShiftsFront(r: Register, n: nat)
    ensures Shifts(r, n + 1) == Shifts(Shift(r), n)
  {
  }

  lemma AbsorbParts(r: Register, pre: seq<Bit>, u: Bit, mid: seq<Bit>, v: Bit, post: seq<Bit>)
    ensures Absorb(r, pre + ([u] + (mid + ([v] + post)))) == Absorb(Feed(Absorb(Feed(Absorb(r, pre), u), mid), v), post)
  {
    AbsorbTwo(r, pre, u, mid + ([v] + post));
    AbsorbTwo(Feed(Absorb(r, pre), u), mid, v, post);
  }

  /** Flipping two bits of a stream goes unnoticed exactly when they are a multiple of 32767 places apart. */
  lemma TwoFlipsIff(r: Register, pre: seq<Bit>, u: Bit, mid: seq<Bit>, v: Bit, post: seq<Bit>)
    ensures Absorb(r, pre + ([u] + (mid + ([v] + post)))) == Absorb(r, pre + ([1 - u] + (mid + ([1 - v] + post)))) <==>
            (|mid| + 1) % 32767 == 0
  {
    FlipsApart(Absorb(r, pre), u, mid, v, post);
    AbsorbParts(r, pre, u, mid, v, post);
    AbsorbParts(r, pre, 1 - u, mid, 1 - v, post);
  }

  lemma TopRegister() returns (top: Register)
    ensures IsTop(top)
  {
    top := [1] + Zeros(15);
  }

  lemma AbsorbTwo(r: Register, pre: seq<Bit>, u: Bit, rest: seq<Bit>)
    ensures Absorb(r, pre + ([u] + rest)) == Absorb(Feed(Absorb(r, pre), u), rest)
  {
    AbsorbConcat(r, pre, [u] + rest);
    assert ([u] + rest)[1..] == rest;
  }

  // ----- counting differences

  function Ones(s: seq<Bit>): nat
  {
    if s == [] then 0 else s[0] + Ones(s[1..])
  }

  lemma {:induction false} OnesParity(s: seq<Bit>)
    ensures Ones(s) % 2 == Parity(s)
  {
    if s != [] { OnesParity(s[1..]); }
  }

  lemma {:induction false} NoOnes(s: seq<Bit>)
    requires Ones(s) == 0
    ensures s == Zeros(|s|)
  {
    if s != [] {
      NoOnes(s[1..]);
      assert s == [0] + s[1..];
    }
  }

  /** Where the first one is. */
  lemma {:induction false} FirstOne(s: seq<Bit>) returns (i: nat)
    requires Ones(s) > 0
    ensures i < |s| && s[i] == 1 && s[..i] == Zeros(i) && Ones(s[i + 1..]) == Ones(s) - 1
  {
    if s[0] == 1 {
      i := 0;
    } else {
      var j := FirstOne(s[1..]);
      i := j + 1;
      assert s[..i] == [0] + s[1..][..j];
      assert s[i + 1..] == s[1..][j + 1..];
    }
  }

  lemma DropSame(a: seq<Bit>, b: seq<Bit>, i: nat)
    requires |a| == |b| && i < |a| && XorBits(a, b)[..i] == Zeros(i) && XorBits(a, b)[i] == 1
    ensures a[..i] == b[..i] && b[i] == 1 - a[i] && XorBits(a, b)[i + 1..] == XorBits(a[i + 1..], b[i + 1..])
  {
    forall k | 0 <= k < i ensures a[k] == b[k] {
      assert XorBits(a, b)[..i][k] == XorBits(a, b)[k];
    }
  }

  /** Two streams of at most 32767 bits that lead to the same register are equal or differ in at least four bits. */
  lemma FourApart(r: Register, a: seq<Bit>, b: seq<Bit>)
    requires |a| == |b| <= 32767 && Absorb(r, a) == Absorb(r, b)
    ensures a == b || Ones(XorBits(a, b)) >= 4
  {
    var x := XorBits(a, b);
    EvenDistance(r, a, b);
    if Ones(x) == 0 {
      NoOnes(x);
      SameTails(a, b);
    } else if Ones(x) == 2 {
      TwoApart(r, a, b);
    }
  }

  lemma EvenDistance(r: Register, a: seq<Bit>, b: seq<Bit>)
    requires |a| == |b| && Absorb(r, a) == Absorb(r, b)
    ensures Ones(XorBits(a, b)) % 2 == 0
  {
    AbsorbParity(r, a);
    AbsorbParity(r, b);
    ParityXor(a, b);
    OnesParity(XorBits(a, b));
  }

  lemma TwoApart(r: Register, a: seq<Bit>, b: seq<Bit>)
    requires |a| == |b| <= 32767 && Ones(XorBits(a, b)) == 2
    ensures Absorb(r, a) != Absorb(r, b)
  {
    var pre, u, mid, v, post := TwoPlaces(a, b);
    assert |mid| + 2 <= |a|;
    TwoFlipsIff(r, pre, u, mid, v, post);
  }

  /** The two places in which streams at distance two differ. */
  lemma TwoPlaces(a: seq<Bit>, b: seq<Bit>) returns (pre: seq<Bit>, u: Bit, mid: seq<Bit>, v: Bit, post: seq<Bit>)
    requires |a| == |b| && Ones(XorBits(a, b)) == 2
    ensures a == pre + ([u] + (mid + ([v] + post))) && b == pre + ([1 - u] + (mid + ([1 - v] + post)))
  {
    var i := FirstOne(XorBits(a, b));
    DropSame(a, b, i);
    var a', b' := a[i + 1..], b[i + 1..];
    var j := FirstOne(XorBits(a', b'));
    DropSame(a', b', j);
    NoOnes(XorBits(a'[j + 1..], b'[j + 1..]));
    SameTails(a'[j + 1..], b'[j + 1..]);
    Rejoin(a, i);
    Rejoin(b, i);
    Rejoin(a', j);
    Rejoin(b', j);
    pre, u, mid, v, post := a[..i], a[i], a'[..j], a'[j], a'[j + 1..];
  }

  // ----- the bound is reached

  lemma TopBecomesPoly(top: Register)
    requires IsTop(top)
    ensures Shift(top) == POLY_BITS
  {
    forall i | 0 <= i < 16 ensures Shift(top)[i] == POLY_BITS[i] {
      ShiftAt(top, i);
      if i < 15 { assert top[i + 1] == top[1..][i]; }
    }
  }

  lemma SixteenAlike(a: Register, b: Register, bits: seq<Bit>, bits': seq<Bit>)
    requires |bits| == |bits'| == 16 && bits' == XorBits(bits, XorBits(a, b))
    ensures Absorb(a, bits) == Absorb(b, bits')
  {
    AbsorbIsShifts(a, bits);
    AbsorbIsShifts(b, bits');
    assert bits + Zeros(0) == bits && bits' + Zeros(0) == bits';
    assert XorBits(a, bits) == XorBits(b, bits');
  }

  /** Adding the polynomial to any seventeen bits changes four of them and goes unnoticed. */
  lemma PolynomialUnnoticed(r: Register, w: seq<Bit>)
    requires |w| == 17
    ensures Absorb(r, w) == Absorb(r, XorBits(w, POLY17))
  {
    var top := TopRegister();
    FirstFlip(r, w[0], top);
    TopBecomesPoly(top);
    AddPolynomial(w);
    SixteenAlike(Feed(r, w[0]), Feed(r, 1 - w[0]), w[1..], XorBits(w, POLY17)[1..]);
  }

  lemma AddPolynomial(w: seq<Bit>)
    requires |w| == 17
    ensures XorBits(w, POLY17)[0] == 1 - w[0] && XorBits(w, POLY17)[1..] == XorBits(w[1..], POLY_BITS)
  {
  }

  lemma {:induction false} OnesConcat(a: seq<Bit>, b: seq<Bit>)
    ensures Ones(a + b) == Ones(a) + Ones(b)
  {
    if a == [] {
      assert a + b == b;
    } else {
      assert (a + b)[1..] == a[1..] + b;
      OnesConcat(a[1..], b);
    }
  }

  lemma {:induction false} OnesOfZeros(n: nat)
    ensures Ones(Zeros(n)) == 0
  {
    if n > 0 {
      assert Zeros(n)[1..] == Zeros(n - 1);
      OnesOfZeros(n - 1);
    }
  }

  /** A one behind n zeros, before the rest. */
  lemma OneAfter(n: nat, rest: seq<Bit>)
    ensures Ones(Zeros(n) + ([1] + rest)) == 1 + Ones(rest)
  {
    OnesOfZeros(n);
    OnesConcat(Zeros(n), [1] + rest);
    assert ([1] + rest)[1..] == rest;
  }

  lemma FourOnes()
    ensures Ones(POLY17) == 4
  {
    var a := Zeros(4) + ([1] + []);
    var b := Zeros(6) + ([1] + a);
    var c := Zeros(3) + ([1] + b);
    OneAfter(4, []);
    OneAfter(6, a);
    OneAfter(3, b);
    OneAfter(0, c);
    assert POLY17 == Zeros(0) + ([1] + c);
  }

  /** So streams at distance four with the same residue exist around every stream. */
  lemma FourReached(r: Register, pre: seq<Bit>, w: seq<Bit>, post: seq<Bit>)
    requires |w| == 17
    ensures Absorb(r, pre + (w + post)) == Absorb(r, pre + (XorBits(w, POLY17) + post)) && Ones(POLY17) == 4
  {
    FourOnes();
    var w' := XorBits(w, POLY17);
    PolynomialUnnoticed(Absorb(r, pre), w);
    AbsorbConcat(r, pre, w + post);
    AbsorbConcat(r, pre, w' + post);
    AbsorbConcat(Absorb(r, pre), w, post);
    AbsorbConcat(Absorb(r, pre), w', post);
  }

  /** In streams of n bits, those with one residue are always equal or four bits apart. */
  ghost predicate FourEverywhere(n: nat)
  {
    forall r: Register, a: seq<Bit>, b: seq<Bit> ::
      |a| == |b| == n && Absorb(r, a) == Absorb(r, b) ==> a == b || Ones(XorBits(a, b)) >= 4
  }

  /** Two ones a full round apart. */
  lemma TwoOnes(gap: nat, rest: nat)
    ensures var b := [1] + (Zeros(gap) + ([1] + Zeros(rest)));
            Ones(XorBits(Zeros(|b|), b)) == 2
  {
    var tail := [1] + Zeros(rest);
    var b := [1] + (Zeros(gap) + tail);
    OnesOfZeros(rest);
    OneAfter(gap, Zeros(rest));
    assert b[1..] == Zeros(gap) + tail;
    assert XorBits(Zeros(|b|), b) == b;
  }

  lemma ZeroParts(gap: nat, rest: nat)
    ensures [0] + (Zeros(gap) + ([0] + Zeros(rest))) == Zeros(gap + rest + 2)
  {
  }

  lemma Unnoticed(r: Register, mid: seq<Bit>, post: seq<Bit>)
    requires (|mid| + 1) % 32767 == 0
    ensures Absorb(r, [0] + (mid + ([0] + post))) == Absorb(r, [1] + (mid + ([1] + post)))
  {
    TwoFlipsIff(r, [], 0, mid, 0, post);
    NothingBefore([0] + (mid + ([0] + post)));
    NothingBefore([1] + (mid + ([1] + post)));
  }

  lemma NothingBefore(s: seq<Bit>)
    ensures [] + s == s
  {
  }

  lemma Refuted(n: nat, r: Register, a: seq<Bit>, b: seq<Bit>)
    requires |a| == |b| == n && Absorb(r, a) == Absorb(r, b) && a != b && Ones(XorBits(a, b)) == 2
    ensures !FourEverywhere(n)
  {
  }

  lemma LongStreams(n: nat, gap: nat)
    requires (gap + 1) % 32767 == 0 && n >= gap + 2
    ensures !FourEverywhere(n)
  {
    var mid, post, r := Zeros(gap), Zeros(n - gap - 2), Zeros(16);
    var b := [1] + (mid + ([1] + post));
    Unnoticed(r, mid, post);
    ZeroParts(gap, n - gap - 2);
    TwoOnes(gap, n - gap - 2);
    Differ(n, b);
    Refuted(n, r, Zeros(n), b);
  }

  lemma Differ(n: nat, b: seq<Bit>)
    requires |b| == n > 0 && b[0] == 1
    ensures Zeros(n) != b
  {
    assert Zeros(n)[0] == 0;
  }

  /** That is so exactly for streams of at most 32767 bits. */
  lemma FourEverywhereIff(n: nat)
    ensures FourEverywhere(n) <==> n <= 32767
  {
    if n <= 32767 {
      forall r: Register, a: seq<Bit>, b: seq<Bit> | |a| == |b| == n && Absorb(r, a) == Absorb(r, b)
        ensures a == b || Ones(XorBits(a, b)) >= 4
      {
        FourApart(r, a, b);
      }
    } else {
      LongStreams(n, 32766);
    }
  }

  lemma SameTails(a: seq<Bit>, b: seq<Bit>)
    requires |a| == |b| && XorBits(a, b) == Zeros(|a|)
    ensures a == b
  {
    forall k | 0 <= k < |a| ensures a[k] == b[k] {
      assert XorBits(a, b)[k] == 0;
    }
  }

  lemma Rejoin(s: seq<Bit>, i: nat)
    requires i < |s|
    ensures s == s[..i] + ([s[i]] + s[i + 1..])
  {
  }
}
