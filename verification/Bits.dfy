/** Bit strings, most significant bit first, and their fixed-width chunks.
    Shared by every codec of the model: shifts are division and multiplication by powers of two. */
module Bits {

  type Bit = b: int | b == 0 || b == 1
  type Byte = b: int | 0 <= b < 256

  function Pow2(n: nat): (p: nat)
    ensures p >= 1
  {
    if n == 0 then 1 else 2 * Pow2(n - 1)
  }

  /** The number a bit string denotes. */
  function Val(s: seq<Bit>): nat
  {
    if s == [] then 0 else 2 * Val(s[..|s| - 1]) + s[|s| - 1]
  }

  /** The k low bits of n. */
  function ToBits(n: nat, k: nat): (s: seq<Bit>)
    ensures |s| == k
  {
    if k == 0 then [] else ToBits(n / 2, k - 1) + [n % 2]
  }

  /** Every element of xs written in k bits. */
  function Flatten(xs: seq<nat>, k: nat): seq<Bit>
  {
    if xs == [] then [] else ToBits(xs[0], k) + Flatten(xs[1..], k)
  }

  /** The complete k-bit chunks of s, as numbers; a trailing partial chunk is dropped. */
  function Chunks(s: seq<Bit>, k: nat): seq<nat>
    requires k > 0
  {
    if |s| < k then [] else [Val(s[..k])] + Chunks(s[k..], k)
  }

  lemma {:induction false} ValBound(s: seq<Bit>)
    ensures Val(s) < Pow2(|s|)
  {
    if s != [] { ValBound(s[..|s| - 1]); }
  }

  lemma {:induction false} ValConcat(a: seq<Bit>, b: seq<Bit>)
    ensures Val(a + b) == Val(a) * Pow2(|b|) + Val(b)
  {
    if b == [] {
      assert a + b == a;
    } else {
      var b' := b[..|b| - 1];
      assert (a + b)[..|a + b| - 1] == a + b';
      ValConcat(a, b');
      Doubled(Val(a), Pow2(|b'|));
    }
  }

  lemma Doubled(v: nat, p: nat)
    ensures v * (2 * p) == 2 * (v * p)
  {
  }

  lemma {:induction false} ValOfToBits(n: nat, k: nat)
    requires n < Pow2(k)
    ensures Val(ToBits(n, k)) == n
  {
    if k > 0 {
      ValOfToBits(n / 2, k - 1);
      assert ToBits(n, k)[..k - 1] == ToBits(n / 2, k - 1);
    }
  }

  lemma {:induction false} ToBitsOfVal(s: seq<Bit>)
    ensures ToBits(Val(s), |s|) == s
  {
    if s != [] { ToBitsOfVal(s[..|s| - 1]); }
  }

  lemma DivOfSum(q: nat, m: nat, r: nat)
    requires r < m
    ensures (q * m + r) / m == q
    ensures (q * m + r) % m == r
  {
    var n := q * m + r;
    var q', r' := n / m, n % m;
    assert n == m * q' + r';
    QuotientUnique(m, q, r, q', r');
  }

  lemma QuotientUnique(m: nat, q: int, r: nat, q': int, r': nat)
    requires r < m && r' < m && q * m + r == q' * m + r'
    ensures q == q' && r == r'
  {
    var d := q - q';
    assert d * m == q * m - q' * m;
    if d >= 1 {
      MulAtLeast(d, m);
    } else if d <= -1 {
      assert (-d) * m == -(d * m);
      MulAtLeast(-d, m);
    }
  }

  lemma MulAtLeast(d: int, m: nat)
    requires d >= 1
    ensures d * m >= m
  {
  }

  /** Shifting right past `low` and masking to the width of `mid` leaves exactly `mid`. */
  lemma FieldOf(high: seq<Bit>, mid: seq<Bit>, low: seq<Bit>)
    ensures (Val(high + mid + low) / Pow2(|low|)) % Pow2(|mid|) == Val(mid)
  {
    ValConcat(high + mid, low);
    ValConcat(high, mid);
    ValBound(low);
    ValBound(mid);
    DivOfSum(Val(high + mid), Pow2(|low|), Val(low));
    DivOfSum(Val(high), Pow2(|mid|), Val(mid));
  }

  /** Bit j of ToBits is what a shift by k-1-j and a mask of one yields. */
  lemma {:induction false} ToBitsAt(n: nat, k: nat, j: nat)
    requires j < k
    ensures ToBits(n, k)[j] == (n / Pow2(k - 1 - j)) % 2
  {
    if j < k - 1 {
      ToBitsAt(n / 2, k - 1, j);
      DivDiv(n, Pow2(k - 2 - j));
    }
  }

  lemma DivDiv(n: nat, p: nat)
    requires p > 0
    ensures (n / 2) / p == n / (2 * p)
  {
    var q := n / (2 * p);
    var r := n % (2 * p);
    assert n == (2 * p) * q + r;
    assert (2 * p) * q == 2 * (p * q);
    assert n / 2 == p * q + r / 2;
    assert q * p == p * q;
    DivOfSum(q, p, r / 2);
  }

  lemma {:induction false} FlattenConcat(a: seq<nat>, b: seq<nat>, k: nat)
    ensures Flatten(a + b, k) == Flatten(a, k) + Flatten(b, k)
  {
    if a == [] {
      assert a + b == b;
    } else {
      assert (a + b)[1..] == a[1..] + b;
      FlattenConcat(a[1..], b, k);
    }
  }

  lemma {:induction false} FlattenLength(xs: seq<nat>, k: nat)
    ensures |Flatten(xs, k)| == |xs| * k
  {
    if xs != [] {
      FlattenLength(xs[1..], k);
      assert |xs| * k == (|xs| - 1) * k + k;
    }
  }

  predicate Fits(xs: seq<nat>, k: nat)
  {
    forall i :: 0 <= i < |xs| ==> xs[i] < Pow2(k)
  }

  /** Chunking undoes flattening, whatever bits follow. */
  lemma {:induction false} ChunksOfFlatten(xs: seq<nat>, rest: seq<Bit>, k: nat)
    requires k > 0 && Fits(xs, k)
    ensures Chunks(Flatten(xs, k) + rest, k) == xs + Chunks(rest, k)
  {
    if xs == [] {
      assert Flatten(xs, k) + rest == rest;
      assert xs + Chunks(rest, k) == Chunks(rest, k);
    } else {
      var tail := Flatten(xs[1..], k) + rest;
      var s := Flatten(xs, k) + rest;
      assert s == ToBits(xs[0], k) + tail;
      ChunksCons(ToBits(xs[0], k), tail, k);
      ValOfToBits(xs[0], k);
      ChunksOfFlatten(xs[1..], rest, k);
      HeadThenTail(xs, Chunks(rest, k));
    }
  }

  lemma HeadThenTail<T>(xs: seq<T>, ys: seq<T>)
    requires xs != []
    ensures [xs[0]] + (xs[1..] + ys) == xs + ys
  {
  }

  lemma ThreeParts<T>(s: seq<T>, i: nat, j: nat)
    requires i <= j <= |s|
    ensures s == s[..i] + s[i..j] + s[j..]
  {
  }

  lemma ChunksCons(c: seq<Bit>, s: seq<Bit>, k: nat)
    requires k > 0 && |c| == k
    ensures Chunks(c + s, k) == [Val(c)] + Chunks(s, k)
  {
    assert (c + s)[..k] == c;
    assert (c + s)[k..] == s;
  }

  /** Flattening undoes chunking when no partial chunk is left over. */
  lemma {:induction false} FlattenOfChunks(s: seq<Bit>, k: nat)
    requires k > 0 && |s| % k == 0
    ensures Flatten(Chunks(s, k), k) == s
    decreases |s|
  {
    if |s| < k {
      SmallMod(|s|, k);
    } else {
      OneLess(|s|, k);
      FlattenOfChunks(s[k..], k);
      ToBitsOfVal(s[..k]);
    }
  }

  lemma OneLess(n: nat, k: nat)
    requires 0 < k <= n && n % k == 0
    ensures (n - k) % k == 0
  {
    var q := n / k;
    assert n == k * q;
    assert n - k == (q - 1) * k + 0;
    DivOfSum(q - 1, k, 0);
  }

  lemma SmallMod(n: nat, k: nat)
    requires n < k
    ensures n % k == n
  {
    DivOfSum(0, k, n);
  }

  lemma {:induction false} ChunksBound(s: seq<Bit>, k: nat)
    requires k > 0
    ensures Fits(Chunks(s, k), k)
    decreases |s|
  {
    if |s| >= k {
      ValBound(s[..k]);
      ChunksBound(s[k..], k);
    }
  }

  lemma {:induction false} ChunksLength(s: seq<Bit>, k: nat)
    requires k > 0
    ensures |Chunks(s, k)| * k <= |s| < |Chunks(s, k)| * k + k
    decreases |s|
  {
    if |s| >= k {
      ChunksLength(s[k..], k);
      assert |Chunks(s, k)| * k == |Chunks(s[k..], k)| * k + k;
    }
  }

  /** Chunking a string that starts with complete chunks chunks the two parts separately. */
  lemma ChunksSplit(s: seq<Bit>, rest: seq<Bit>, k: nat)
    requires k > 0 && |s| % k == 0
    ensures Chunks(s + rest, k) == Chunks(s, k) + Chunks(rest, k)
  {
    FlattenOfChunks(s, k);
    ChunksBound(s, k);
    ChunksOfFlatten(Chunks(s, k), rest, k);
  }

  /** A bit stream cut into two element widths: equal streams of equal-width elements are equal sequences. */
  lemma FlattenInjective(xs: seq<nat>, ys: seq<nat>, k: nat)
    requires k > 0 && Fits(xs, k) && Fits(ys, k)
    requires Flatten(xs, k) == Flatten(ys, k)
    ensures xs == ys
  {
    ChunksOfFlatten(xs, [], k);
    ChunksOfFlatten(ys, [], k);
    assert Flatten(xs, k) + [] == Flatten(xs, k);
    assert Flatten(ys, k) + [] == Flatten(ys, k);
    assert xs + [] == xs && ys + [] == ys;
  }

  function Zeros(n: nat): (s: seq<Bit>)
    ensures |s| == n
  {
    seq(n, i => 0)
  }

  lemma {:induction false} ValOfZeros(n: nat)
    ensures Val(Zeros(n)) == 0
  {
    if n > 0 {
      assert Zeros(n)[..n - 1] == Zeros(n - 1);
      ValOfZeros(n - 1);
    }
  }

  /** Exclusive or of two bit strings of the same length. */
  function XorBits(a: seq<Bit>, b: seq<Bit>): (c: seq<Bit>)
    requires |a| == |b|
    ensures |c| == |a|
    ensures forall i :: 0 <= i < |a| ==> c[i] == (if a[i] == b[i] then 0 else 1)
  {
    seq(|a|, i requires 0 <= i < |a| => if a[i] == b[i] then 0 else 1)
  }

  /** Exclusive or of two unbounded naturals. */
  function Xor(a: nat, b: nat): nat
    decreases a + b
  {
    if a == 0 then b
    else if b == 0 then a
    else 2 * Xor(a / 2, b / 2) + (if a % 2 == b % 2 then 0 else 1)
  }

  lemma {:induction false} ToBitsOfZero(k: nat)
    ensures ToBits(0, k) == Zeros(k)
  {
    if k > 0 { ToBitsOfZero(k - 1); }
  }

  lemma {:induction false} ToBitsOfXor(a: nat, b: nat, k: nat)
    ensures ToBits(Xor(a, b), k) == XorBits(ToBits(a, k), ToBits(b, k))
  {
    if k == 0 {
    } else if a == 0 || b == 0 {
      ToBitsOfZero(k);
    } else {
      ToBitsOfXor(a / 2, b / 2, k - 1);
    }
  }

  lemma {:induction false} ToBitsSuffix(n: nat, k: nat, j: nat)
    requires j <= k
    ensures ToBits(n, k)[k - j..] == ToBits(n, j)
  {
    if j > 0 {
      ToBitsSuffix(n / 2, k - 1, j - 1);
      assert ToBits(n, k)[k - j..] == ToBits(n / 2, k - 1)[k - j..] + [n % 2];
    }
  }

  lemma {:induction false} XorBound(a: nat, b: nat, k: nat)
    requires a < Pow2(k) && b < Pow2(k)
    ensures Xor(a, b) < Pow2(k)
  {
    if k > 0 && a > 0 && b > 0 { XorBound(a / 2, b / 2, k - 1); }
  }

  lemma {:induction false} ToBitsShifted(n: nat, k: nat, j: nat)
    ensures ToBits(Pow2(j) * n, k + j) == ToBits(n, k) + Zeros(j)
  {
    if j > 0 {
      assert Pow2(j) * n == 2 * (Pow2(j - 1) * n);
      ToBitsShifted(n, k, j - 1);
    }
  }

  lemma {:induction false} ValOfLowBits(n: nat, k: nat)
    ensures Val(ToBits(n, k)) == n % Pow2(k)
  {
    if k > 0 {
      ValOfLowBits(n / 2, k - 1);
      assert ToBits(n, k)[..k - 1] == ToBits(n / 2, k - 1);
      ModDouble(n, Pow2(k - 1));
    }
  }

  lemma ModDouble(n: nat, p: nat)
    requires p > 0
    ensures n % (2 * p) == 2 * ((n / 2) % p) + n % 2
  {
    var q, r := (n / 2) / p, (n / 2) % p;
    assert n / 2 == p * q + r;
    assert q * (2 * p) == 2 * (p * q);
    DivOfSum(q, 2 * p, 2 * r + n % 2);
  }

  lemma ToBitsOfMod(n: nat, k: nat)
    ensures ToBits(n % Pow2(k), k) == ToBits(n, k)
  {
    ValOfLowBits(n, k);
    ToBitsOfVal(ToBits(n, k));
  }

  lemma Pow2Values()
    ensures Pow2(4) == 16 && Pow2(5) == 32 && Pow2(8) == 256 && Pow2(16) == 0x10000
  {
    assert Pow2(4) == 16;
    assert Pow2(8) == 256;
    assert Pow2(12) == 4096;
  }
}
