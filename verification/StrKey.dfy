/** Stellar StrKeys: base32 (section 6 of RFC 4648) over 35 bytes, the last two of which are a
    CRC16-XMODEM checksum of the first 33. */
module Crc16 {
  import opened Bits

  const POLY: nat := 0x1021

  /** The polynomial as a register value. */
  const POLY_BITS: seq<Bit> := [0, 0, 0, 1, 0, 0, 0, 0, 0, 0, 1, 0, 0, 0, 0, 1]

  type Register = r: seq<Bit> | |r| == 16 witness Zeros(16)

  /** One shift of the register: the bit that falls out selects whether the polynomial is added. */
  function Shift(r: Register): Register
  {
    var s := r[1..] + [0];
    if r[0] == 1 then XorBits(s, POLY_BITS) else s
  }

  function Shifts(r: Register, n: nat): Register
    decreases n
  {
    if n == 0 then r else Shifts(Shift(r), n - 1)
  }

  /** Feed one message bit at the top of the register. */
  function Feed(r: Register, b: Bit): Register
  {
    Shift(XorBits(r, [b] + Zeros(15)))
  }

  /** The checksum register after a whole bit stream: division by the polynomial over GF(2). */
  function Absorb(r: Register, bits: seq<Bit>): Register
    decreases |bits|
  {
    if bits == [] then r else Absorb(Feed(r, bits[0]), bits[1..])
  }

  lemma {:induction false} AbsorbConcat(r: Register, a: seq<Bit>, b: seq<Bit>)
    ensures Absorb(r, a + b) == Absorb(Absorb(r, a), b)
    decreases |a|
  {
    if a == [] {
      assert a + b == b;
    } else {
      assert (a + b)[1..] == a[1..] + b;
      AbsorbConcat(Feed(r, a[0]), a[1..], b);
    }
  }

  lemma ShiftAt(r: Register, i: nat)
    requires i < 16
    ensures i == 15 ==> Shift(r)[i] == r[0]
    ensures i < 15 ==> Shift(r)[i] == (if r[0] == 1 && POLY_BITS[i] == 1 then 1 - r[i + 1] else r[i + 1])
  {
  }

  lemma ShiftInjective(a: Register, b: Register)
    requires Shift(a) == Shift(b)
    ensures a == b
  {
    ShiftAt(a, 15);
    ShiftAt(b, 15);
    forall i | 0 <= i < 16 ensures a[i] == b[i] {
      if i > 0 {
        ShiftAt(a, i - 1);
        ShiftAt(b, i - 1);
      }
    }
  }

  lemma {:induction false} ShiftsInjective(a: Register, b: Register, n: nat)
    requires Shifts(a, n) == Shifts(b, n)
    ensures a == b
    decreases n
  {
    if n > 0 {
      ShiftsInjective(Shift(a), Shift(b), n - 1);
      ShiftInjective(a, b);
    }
  }

  lemma XorCancel(a: seq<Bit>, x: seq<Bit>, y: seq<Bit>)
    requires |a| == |x| == |y| && XorBits(a, x) == XorBits(a, y)
    ensures x == y
  {
    forall i | 0 <= i < |x| ensures x[i] == y[i] {
      assert XorBits(a, x)[i] == XorBits(a, y)[i];
    }
  }

  /** Feeding the same bits into two registers never makes them meet. */
  lemma {:induction false} AbsorbInjective(a: Register, b: Register, bits: seq<Bit>)
    requires Absorb(a, bits) == Absorb(b, bits)
    ensures a == b
    decreases |bits|
  {
    if bits != [] {
      AbsorbInjective(Feed(a, bits[0]), Feed(b, bits[0]), bits[1..]);
      var top := [bits[0]] + Zeros(15);
      ShiftInjective(XorBits(a, top), XorBits(b, top));
      forall i | 0 <= i < 16 ensures a[i] == b[i] {
        assert XorBits(a, top)[i] == XorBits(b, top)[i];
      }
    }
  }

  /** Bits added below the top of the register commute with one shift. */
  lemma ShiftLinear(r: Register, c: Register)
    requires c[0] == 0
    ensures Shift(XorBits(r, c)) == XorBits(Shift(r), c[1..] + [0])
  {
    forall i | 0 <= i < 16 ensures Shift(XorBits(r, c))[i] == XorBits(Shift(r), c[1..] + [0])[i] {
      ShiftAt(XorBits(r, c), i);
      ShiftAt(r, i);
    }
  }

  /** Up to 16 bits may be added to the top of the register at once and then shifted through. */
  lemma {:induction false} AbsorbIsShifts(r: Register, bits: seq<Bit>)
    requires |bits| <= 16
    ensures Absorb(r, bits) == Shifts(XorBits(r, bits + Zeros(16 - |bits|)), |bits|)
    decreases |bits|
  {
    if bits == [] {
      assert XorBits(r, bits + Zeros(16)) == r;
    } else {
      var all := bits + Zeros(16 - |bits|);
      var top, low := [bits[0]] + Zeros(15), [0] + all[1..];
      assert XorBits(r, all) == XorBits(XorBits(r, top), low);
      ShiftLinear(XorBits(r, top), low);
      assert low[1..] + [0] == bits[1..] + Zeros(16 - |bits[1..]|);
      AbsorbIsShifts(Feed(r, bits[0]), bits[1..]);
    }
  }

  /** No two different bursts of at most 16 bits lead from one register to the same register. */
  lemma BurstInjective(r: Register, w: seq<Bit>, w': seq<Bit>)
    requires |w| == |w'| <= 16 && Absorb(r, w) == Absorb(r, w')
    ensures w == w'
  {
    AbsorbIsShifts(r, w);
    AbsorbIsShifts(r, w');
    var z := Zeros(16 - |w|);
    ShiftsInjective(XorBits(r, w + z), XorBits(r, w' + z), |w|);
    XorCancel(r, w + z, w' + z);
    assert w == (w + z)[..|w|] && w' == (w' + z)[..|w|];
  }

  lemma {:induction false} ShiftsOfZero(n: nat)
    ensures Shifts(Zeros(16), n) == Zeros(16)
  {
    if n > 0 {
      assert Shift(Zeros(16)) == Zeros(16);
      ShiftsOfZero(n - 1);
    }
  }

  /** Sixteen further bits bring the register to zero exactly when they repeat the register. */
  lemma ZeroResidue(r: Register, x: Register)
    ensures Absorb(r, x) == Zeros(16) <==> x == r
  {
    AbsorbIsShifts(r, x);
    assert x + Zeros(0) == x;
    ShiftsOfZero(16);
    if Absorb(r, x) == Zeros(16) {
      ShiftsInjective(XorBits(r, x), Zeros(16), 16);
      forall i | 0 <= i < 16 ensures x[i] == r[i] {
        assert XorBits(r, x)[i] == Zeros(16)[i];
      }
    }
    if x == r {
      assert XorBits(r, x) == Zeros(16);
    }
  }

  /** Two streams with equal residues that agree outside a window of at most 16 bits are equal. */
  lemma BurstDetected(pre: seq<Bit>, w: seq<Bit>, w': seq<Bit>, post: seq<Bit>)
    requires |w| == |w'| <= 16
    requires Absorb(Zeros(16), pre + w + post) == Absorb(Zeros(16), pre + w' + post)
    ensures w == w'
  {
    var r := Absorb(Zeros(16), pre);
    AbsorbConcat(Zeros(16), pre + w, post);
    AbsorbConcat(Zeros(16), pre, w);
    AbsorbConcat(Zeros(16), pre + w', post);
    AbsorbConcat(Zeros(16), pre, w');
    AbsorbInjective(Absorb(r, w), Absorb(r, w'), post);
    BurstInjective(r, w, w');
  }

  /** One when the number of ones is odd. */
  function Parity(s: seq<Bit>): Bit
  {
    if s == [] then 0 else if Parity(s[1..]) == s[0] then 0 else 1
  }

  lemma {:induction false} ParityXor(a: seq<Bit>, b: seq<Bit>)
    requires |a| == |b|
    ensures Parity(XorBits(a, b)) == (if Parity(a) == Parity(b) then 0 else 1)
  {
    if a != [] {
      assert XorBits(a, b)[1..] == XorBits(a[1..], b[1..]);
      ParityXor(a[1..], b[1..]);
    }
  }

  lemma {:induction false} ParityConcat(a: seq<Bit>, b: seq<Bit>)
    ensures Parity(a + b) == (if Parity(a) == Parity(b) then 0 else 1)
  {
    if a == [] {
      assert a + b == b;
    } else {
      assert (a + b)[1..] == a[1..] + b;
      ParityConcat(a[1..], b);
    }
  }

  lemma {:induction false} ParityOfZeros(n: nat)
    ensures Parity(Zeros(n)) == 0
  {
    if n > 0 {
      assert Zeros(n)[1..] == Zeros(n - 1);
      ParityOfZeros(n - 1);
    }
  }

  lemma PolyParity()
    ensures Parity(POLY_BITS) == 1
  {
    var one: seq<Bit> := [1];
    var tail := Zeros(4) + one;
    var mid := Zeros(6) + (one + tail);
    assert POLY_BITS == Zeros(3) + (one + mid);
    assert one[1..] == [];
    ParityOfZeros(3);
    ParityOfZeros(4);
    ParityOfZeros(6);
    ParityConcat(Zeros(4), one);
    ParityConcat(one, tail);
    ParityConcat(Zeros(6), one + tail);
    ParityConcat(one, mid);
    ParityConcat(Zeros(3), one + mid);
  }

  lemma ShiftKeepsParity(r: Register)
    ensures Parity(Shift(r)) == Parity(r)
  {
    var z: seq<Bit> := [0];
    assert z[1..] == [];
    ParityConcat(r[1..], z);
    if r[0] == 1 {
      PolyParity();
      ParityXor(r[1..] + [0], POLY_BITS);
    }
  }

  /** The polynomial has an even number of terms, so the register carries the parity of the stream. */
  lemma {:induction false} AbsorbParity(r: Register, bits: seq<Bit>)
    ensures Parity(Absorb(r, bits)) == (if Parity(r) == Parity(bits) then 0 else 1)
    decreases |bits|
  {
    if bits != [] {
      var top := [bits[0]] + Zeros(15);
      assert top[1..] == Zeros(15);
      ParityOfZeros(15);
      ParityXor(r, top);
      ShiftKeepsParity(XorBits(r, top));
      AbsorbParity(Feed(r, bits[0]), bits[1..]);
    }
  }

  /** The checksum as a number: the residue of the message read as one bit stream. */
  function Checksum(data: seq<Byte>): (crc: nat)
    ensures crc < 0x10000
    ensures ToBits(crc, 16) == Absorb(Zeros(16), Flatten(data, 8))
  {
    var r := Absorb(Zeros(16), Flatten(data, 8));
    ValBound(r);
    ToBitsOfVal(r);
    Pow2Values();
    Val(r)
  }

  lemma PolyAsBits()
    ensures ToBits(POLY, 16) == POLY_BITS
  {
    assert ToBits(1, 4) == [0, 0, 0, 1];
    assert ToBits(4, 6) == [0, 0, 0, 1, 0, 0];
    assert ToBits(16, 8) == [0, 0, 0, 1, 0, 0, 0, 0];
    assert ToBits(64, 10) == [0, 0, 0, 1, 0, 0, 0, 0, 0, 0];
    assert ToBits(258, 12) == [0, 0, 0, 1, 0, 0, 0, 0, 0, 0, 1, 0];
    assert ToBits(1032, 14) == [0, 0, 0, 1, 0, 0, 0, 0, 0, 0, 1, 0, 0, 0];
  }

  /** One turn of the inner loop is one shift of the register. */
  lemma ShiftOfNumber(crc: nat, left: nat)
    requires crc < 0x10000 && left > 0
    ensures var d := 2 * crc;
            var next := if (d / 0x10000) % 2 == 1 then Xor(d, POLY) % 0x10000 else d;
            next < 0x10000 && Shifts(ToBits(next, 16), left - 1) == Shifts(ToBits(crc, 16), left)
  {
    var d := 2 * crc;
    Pow2Values();
    assert ToBits(d, 17) == ToBits(crc, 16) + [0];
    ToBitsAt(d, 17, 0);
    ToBitsSuffix(d, 17, 16);
    assert ToBits(crc, 16)[0] == (d / 0x10000) % 2;
    assert ToBits(d, 16) == ToBits(crc, 16)[1..] + [0];
    ToBitsOfMod(Xor(d, POLY), 16);
    ToBitsOfXor(d, POLY, 16);
    PolyAsBits();
  }

  /** A byte shifted to the top of the register. */
  function HighByte(b: nat): nat
  {
    0x100 * b
  }

  method Crc16Xmodem(data: seq<Byte>) returns (crc: nat)
    ensures crc == Checksum(data)
  {
    crc := 0;
    ToBitsOfZero(16);
    assert Flatten(data[..0], 8) == [];
    Pow2Values();
    for n := 0 to |data|
      invariant crc < 0x10000
      invariant ToBits(crc, 16) == Absorb(Zeros(16), Flatten(data[..n], 8))
    {
      AbsorbByte(data, n, crc);
      ghost var after := Absorb(Zeros(16), Flatten(data[..n + 1], 8));
      crc := Xor(crc, HighByte(data[n]));
      for j := 0 to 8
        invariant crc < 0x10000
        invariant Shifts(ToBits(crc, 16), 8 - j) == after
      {
        ShiftOfNumber(crc, 8 - j);
        crc := 2 * crc;
        if (crc / 0x10000) % 2 == 1 {
          crc := Xor(crc, POLY) % 0x10000;
        }
      }
    }
    assert data[..|data|] == data;
    ValOfToBits(crc, 16);
  }

  lemma AbsorbByte(data: seq<Byte>, n: nat, crc: nat)
    requires n < |data| && crc < 0x10000
    ensures var x := Xor(crc, HighByte(data[n]));
            x < 0x10000 && Shifts(ToBits(x, 16), 8) == Absorb(ToBits(crc, 16), ToBits(data[n], 8))
    ensures Absorb(Zeros(16), Flatten(data[..n + 1], 8)) ==
            Absorb(Absorb(Zeros(16), Flatten(data[..n], 8)), ToBits(data[n], 8))
  {
    var byte := ToBits(data[n], 8);
    Pow2Values();
    XorBound(crc, HighByte(data[n]), 16);
    ToBitsOfXor(crc, HighByte(data[n]), 16);
    ToBitsShifted(data[n], 8, 8);
    AbsorbIsShifts(ToBits(crc, 16), byte);
    assert data[..n + 1] == data[..n] + [data[n]];
    FlattenConcat(data[..n], [data[n]], 8);
    assert [data[n]][1..] == [];
    assert Flatten([data[n]], 8) == byte + [] == byte;
    AbsorbConcat(Zeros(16), Flatten(data[..n], 8), byte);
  }
}

module StrKey {
  import opened Bits
  import opened Crc16
  import opened Outcomes
  import CrcDistance

  const ALPHABET := "ABCDEFGHIJKLMNOPQRSTUVWXYZ234567"
  const ENCODED_LENGTH: nat := 56
  const DECODED_LENGTH: nat := 35
  const PAYLOAD_LENGTH: nat := 32

  datatype KeyError = BadLength | BadCharacter | BadPayload

  predicate IsSymbol(c: char)
  {
    'A' <= c <= 'Z' || '2' <= c <= '7'
  }

  predicate AllSymbols(s: string)
  {
    forall i :: 0 <= i < |s| ==> IsSymbol(s[i])
  }

  function IndexOf(c: char): (i: nat)
    requires IsSymbol(c)
    ensures i < 32
  {
    if 'A' <= c <= 'Z' then (c - 'A') as int else 26 + (c - '2') as int
  }

  function SymbolAt(i: nat): (c: char)
    requires i < 32
    ensures IsSymbol(c) && IndexOf(c) == i
  {
    if i < 26 then 'A' + i as char else '2' + (i - 26) as char
  }

  /** The table of the source is this numbering of the alphabet. */
  lemma AlphabetTable()
    ensures |ALPHABET| == 32
    ensures forall i :: 0 <= i < 32 ==> ALPHABET[i] == SymbolAt(i)
    ensures forall c :: c in ALPHABET <==> IsSymbol(c)
  {
    assert forall c :: IsSymbol(c) ==> c == SymbolAt(IndexOf(c)) && c == ALPHABET[IndexOf(c)];
  }

  function AlphabetAt(i: nat): (c: char)
    requires i < 32
    ensures c == SymbolAt(i)
  {
    AlphabetTable();
    ALPHABET[i]
  }

  function Indices(s: string): (xs: seq<nat>)
    requires AllSymbols(s)
    ensures |xs| == |s| && Fits(xs, 5)
  {
    Pow2Values();
    seq(|s|, i requires 0 <= i < |s| => IndexOf(s[i]))
  }

  function Symbols(xs: seq<nat>): (s: string)
    requires Fits(xs, 5)
    ensures |s| == |xs| && AllSymbols(s) && Indices(s) == xs
  {
    Pow2Values();
    seq(|xs|, i requires 0 <= i < |xs| => SymbolAt(xs[i]))
  }

  lemma SymbolsOfIndices(s: string)
    requires AllSymbols(s)
    ensures Symbols(Indices(s)) == s
  {
  }

  /** The bit stream a base32 string carries. */
  function StreamOf(s: string): (bits: seq<Bit>)
    requires AllSymbols(s)
    ensures |bits| == |s| * 5
  {
    FlattenLength(Indices(s), 5);
    Flatten(Indices(s), 5)
  }

  function BytesOf(bits: seq<Bit>): (r: seq<Byte>)
    ensures r == Chunks(bits, 8)
  {
    ChunksBound(bits, 8);
    Pow2Values();
    Chunks(bits, 8)
  }

  lemma ByteFits(b: seq<Byte>)
    ensures Fits(b, 8)
  {
    Pow2Values();
  }

  function Decode(s: string): Result<seq<Byte>, KeyError>
  {
    if |s| != ENCODED_LENGTH then Err(BadLength)
    else if !AllSymbols(s) then Err(BadCharacter)
    else Ok(BytesOf(StreamOf(s)))
  }

  /** Zero bits needed to reach a multiple of five. */
  function Padding(n: nat): nat
  {
    (5 - n % 5) % 5
  }

  function Encode(data: seq<Byte>): string
  {
    var bits := Flatten(data, 8);
    ChunksBound(bits + Zeros(Padding(|bits|)), 5);
    Symbols(Chunks(bits + Zeros(Padding(|bits|)), 5))
  }

  /** Decoding keeps the bit stream: 56 symbols and 35 bytes are the same 280 bits. */
  lemma DecodeKeepsStream(s: string)
    requires |s| == ENCODED_LENGTH && AllSymbols(s)
    ensures Decode(s).Ok? && |Decode(s).value| == DECODED_LENGTH
    ensures Flatten(Decode(s).value, 8) == StreamOf(s)
  {
    FlattenOfChunks(StreamOf(s), 8);
    ChunksLength(StreamOf(s), 8);
  }

  lemma EncodeKeepsStream(b: seq<Byte>)
    requires |b| == DECODED_LENGTH
    ensures |Encode(b)| == ENCODED_LENGTH && AllSymbols(Encode(b))
    ensures StreamOf(Encode(b)) == Flatten(b, 8)
  {
    var bits := Flatten(b, 8);
    FlattenLength(b, 8);
    assert bits + Zeros(0) == bits;
    FlattenOfChunks(bits, 5);
    ChunksLength(bits, 5);
  }

  lemma DecodeEncode(b: seq<Byte>)
    requires |b| == DECODED_LENGTH
    ensures Decode(Encode(b)) == Ok(b)
  {
    EncodeKeepsStream(b);
    DecodeKeepsStream(Encode(b));
    ByteFits(b);
    ByteFits(Decode(Encode(b)).value);
    FlattenInjective(b, Decode(Encode(b)).value, 8);
  }

  lemma EncodeDecode(s: string)
    requires |s| == ENCODED_LENGTH && AllSymbols(s)
    ensures Decode(s).Ok? && Encode(Decode(s).value) == s
  {
    DecodeKeepsStream(s);
    var b := Decode(s).value;
    EncodeKeepsStream(b);
    FlattenInjective(Indices(s), Indices(Encode(b)), 5);
    SymbolsOfIndices(s);
    SymbolsOfIndices(Encode(b));
  }

  /** The value in two checksum bytes. */
  function Stored(d: seq<Byte>): nat
    requires |d| == DECODED_LENGTH
  {
    HighByte(d[33]) + d[34]
  }

  /** A key is valid when its upper-case form decodes to the version byte, 32 bytes and their checksum.
      `upper` stands for the host language's upper-casing. */
  predicate IsValid(value: string, version: Byte, upper: string -> string)
  {
    && |value| == ENCODED_LENGTH
    && var n := upper(value);
    && n != [] && n[0] == SymbolAt(version / 8)
    && Decode(n).Ok?
    && var d := Decode(n).value;
    && |d| == DECODED_LENGTH
    && d[0] == version
    && Stored(d) == Checksum(d[..33])
  }

  lemma TwoBytes(hi: Byte, lo: Byte)
    ensures HighByte(hi) + lo < 0x10000
    ensures ToBits(HighByte(hi) + lo, 16) == ToBits(hi, 8) + ToBits(lo, 8)
  {
    Pow2Values();
    ValConcat(ToBits(hi, 8), ToBits(lo, 8));
    ValOfToBits(hi, 8);
    ValOfToBits(lo, 8);
    ToBitsOfVal(ToBits(hi, 8) + ToBits(lo, 8));
  }

  lemma FlattenPair(xs: seq<nat>)
    requires |xs| == 2
    ensures Flatten(xs, 8) == ToBits(xs[0], 8) + ToBits(xs[1], 8)
  {
    assert xs[1..][1..] == [];
    assert Flatten(xs[1..], 8) == ToBits(xs[1], 8) + [] == ToBits(xs[1], 8);
  }

  lemma TailPair(pre: seq<nat>, hi: Byte, lo: Byte)
    ensures Flatten(pre + [hi, lo], 8) == Flatten(pre, 8) + ToBits(HighByte(hi) + lo, 16)
  {
    TwoBytes(hi, lo);
    FlattenPair([hi, lo]);
    FlattenConcat(pre, [hi, lo], 8);
  }

  lemma StoredBits(d: seq<Byte>)
    requires |d| == DECODED_LENGTH
    ensures HighByte(d[33]) + d[34] < 0x10000
    ensures Flatten(d, 8) == Flatten(d[..33], 8) + ToBits(HighByte(d[33]) + d[34], 16)
  {
    var pre, hi, lo := d[..33], d[33], d[34];
    assert d == pre + [hi, lo];
    TailPair(pre, hi, lo);
  }

  /** The stored checksum is right exactly when the whole 280-bit stream leaves no residue. */
  lemma ChecksumIffNoResidue(d: seq<Byte>)
    requires |d| == DECODED_LENGTH
    ensures Stored(d) == Checksum(d[..33]) <==> Absorb(Zeros(16), Flatten(d, 8)) == Zeros(16)
  {
    StoredBits(d);
    ResidueOf(Flatten(d[..33], 8), HighByte(d[33]) + d[34], Checksum(d[..33]));
  }

  /** Sixteen stored bits cancel the residue exactly when they spell the checksum. */
  lemma ResidueOf(message: seq<Bit>, stored: nat, crc: nat)
    requires stored < 0x10000 && crc < 0x10000 && ToBits(crc, 16) == Absorb(Zeros(16), message)
    ensures stored == crc <==> Absorb(Zeros(16), message + ToBits(stored, 16)) == Zeros(16)
  {
    AbsorbConcat(Zeros(16), message, ToBits(stored, 16));
    ZeroResidue(ToBits(crc, 16), ToBits(stored, 16));
    Pow2Values();
    ValOfToBits(stored, 16);
    ValOfToBits(crc, 16);
  }

  lemma TopFive(bits: seq<Bit>)
    requires |bits| == 8
    ensures Val(bits) / 8 == Val(bits[..5])
  {
    assert bits == bits[..5] + bits[5..];
    ValConcat(bits[..5], bits[5..]);
    ValBound(bits[5..]);
    assert Pow2(3) == 8;
  }

  /** The first symbol is the top five bits of the first byte. */
  lemma FirstSymbol(s: string)
    requires |s| == ENCODED_LENGTH && AllSymbols(s)
    ensures Decode(s).Ok? && |Decode(s).value| == DECODED_LENGTH
    ensures IndexOf(s[0]) == Decode(s).value[0] / 8
  {
    DecodeKeepsStream(s);
    var bits := StreamOf(s);
    TopFive(bits[..8]);
    assert bits[..8][..5] == bits[..5];
    FirstChunk(Indices(s), 5);
    Pow2Values();
    ValOfToBits(IndexOf(s[0]), 5);
  }

  lemma FirstChunk(xs: seq<nat>, k: nat)
    requires xs != []
    ensures k <= |Flatten(xs, k)| && Flatten(xs, k)[..k] == ToBits(xs[0], k)
  {
  }

  /** Reference form of validity, read off the upper-case form n: the fast prefix check adds nothing, and the checksum
      test is a zero residue of the stream. */
  predicate Sound(n: string, version: Byte)
  {
    && |n| == ENCODED_LENGTH && AllSymbols(n)
    && Decode(n).Ok? && |Decode(n).value| == DECODED_LENGTH && Decode(n).value[0] == version
    && Absorb(Zeros(16), StreamOf(n)) == Zeros(16)
  }

  lemma ValidIff(s: string, version: Byte, upper: string -> string)
    ensures IsValid(s, version, upper) <==> |s| == 56 && Sound(upper(s), version)
  {
    var n := upper(s);
    if |n| == ENCODED_LENGTH && AllSymbols(n) {
      DecodeKeepsStream(n);
      FirstSymbol(n);
      ChecksumIffNoResidue(Decode(n).value);
      assert SymbolAt(IndexOf(n[0])) == n[0];
    }
  }

  /** Case plays no part: a text is valid exactly when it has the length of a key and its upper-case form is valid. */
  lemma CaseIrrelevant(s: string, version: Byte, upper: string -> string)
    requires upper(upper(s)) == upper(s)
    ensures IsValid(s, version, upper) <==> |s| == 56 && IsValid(upper(s), version, upper)
  {
    ValidIff(s, version, upper);
    ValidIff(upper(s), version, upper);
  }

  /** Two valid keys whose streams agree outside a window of at most 16 bits are the same key, wherever
      the window lies: inside the payload, inside the checksum or across their border. */
  lemma BitBurstDetected(s: string, t: string, v: Byte, v': Byte, upper: string -> string,
                         pre: seq<Bit>, w: seq<Bit>, w': seq<Bit>, post: seq<Bit>)
    requires IsValid(s, v, upper) && IsValid(t, v', upper)
    requires |w| == |w'| <= 16
    requires AllSymbols(upper(s)) && StreamOf(upper(s)) == pre + w + post
    requires AllSymbols(upper(t)) && StreamOf(upper(t)) == pre + w' + post
    ensures upper(s) == upper(t)
  {
    ValidIff(s, v, upper);
    ValidIff(t, v', upper);
    BurstDetected(pre, w, w', post);
    FlattenInjective(Indices(upper(s)), Indices(upper(t)), 5);
    SymbolsOfIndices(upper(s));
    SymbolsOfIndices(upper(t));
  }

  /** No change confined to three consecutive characters turns a valid key into another valid key. */
  lemma CharacterBurstDetected(s: string, t: string, v: Byte, v': Byte, upper: string -> string, i: nat)
    requires IsValid(s, v, upper) && IsValid(t, v', upper) && i + 3 <= 56
    requires |upper(s)| == |upper(t)| == 56
    requires forall j :: 0 <= j < 56 && !(i <= j < i + 3) ==> upper(s)[j] == upper(t)[j]
    ensures upper(s) == upper(t)
  {
    var a, b := upper(s), upper(t);
    ValidIff(s, v, upper);
    ValidIff(t, v', upper);
    StreamSplit(a, i);
    StreamSplit(b, i);
    assert a[..i] == b[..i] && a[i + 3..] == b[i + 3..];
    BitBurstDetected(s, t, v, v', upper,
                     StreamOf(a[..i]), StreamOf(a[i..i + 3]), StreamOf(b[i..i + 3]), StreamOf(a[i + 3..]));
  }

  lemma StreamSplit(s: string, i: nat)
    requires AllSymbols(s) && i + 3 <= |s|
    ensures StreamOf(s) == StreamOf(s[..i]) + StreamOf(s[i..i + 3]) + StreamOf(s[i + 3..])
  {
    var x := Indices(s);
    assert Indices(s[..i]) == x[..i] && Indices(s[i..i + 3]) == x[i..i + 3] && Indices(s[i + 3..]) == x[i + 3..];
    assert x == (x[..i] + x[i..i + 3]) + x[i + 3..];
    FlattenConcat(x[..i] + x[i..i + 3], x[i + 3..], 5);
    FlattenConcat(x[..i], x[i..i + 3], 5);
  }

  /** Two valid keys differ in an even number of bits, so an odd number of flips never goes unnoticed. */
  lemma OddFlipsDetected(s: string, t: string, v: Byte, v': Byte, upper: string -> string)
    requires IsValid(s, v, upper) && IsValid(t, v', upper)
    ensures AllSymbols(upper(s)) && AllSymbols(upper(t))
    ensures |StreamOf(upper(s))| == |StreamOf(upper(t))|
    ensures Parity(XorBits(StreamOf(upper(s)), StreamOf(upper(t)))) == 0
  {
    ValidIff(s, v, upper);
    ValidIff(t, v', upper);
    DecodeKeepsStream(upper(s));
    DecodeKeepsStream(upper(t));
    ParityOfZeros(16);
    AbsorbParity(Zeros(16), StreamOf(upper(s)));
    AbsorbParity(Zeros(16), StreamOf(upper(t)));
    ParityXor(StreamOf(upper(s)), StreamOf(upper(t)));
  }

  /** Two different valid keys, of whatever versions, differ in at least four of their 280 bits. */
  lemma KeysDifferInFourBits(s: string, t: string, v: Byte, v': Byte, upper: string -> string)
    requires IsValid(s, v, upper) && IsValid(t, v', upper) && upper(s) != upper(t)
    ensures AllSymbols(upper(s)) && AllSymbols(upper(t))
    ensures |StreamOf(upper(s))| == |StreamOf(upper(t))| == 280
    ensures CrcDistance.Ones(XorBits(StreamOf(upper(s)), StreamOf(upper(t)))) >= 4
  {
    var a, b := upper(s), upper(t);
    ValidIff(s, v, upper);
    ValidIff(t, v', upper);
    DecodeKeepsStream(a);
    DecodeKeepsStream(b);
    CrcDistance.FourApart(Zeros(16), StreamOf(a), StreamOf(b));
    if StreamOf(a) == StreamOf(b) {
      FlattenInjective(Indices(a), Indices(b), 5);
      SymbolsOfIndices(a);
      SymbolsOfIndices(b);
    }
  }

  /** The 35 bytes of a key: version, payload, checksum. */
  function RawKey(version: Byte, payload: seq<Byte>): (raw: seq<Byte>)
    requires |payload| == PAYLOAD_LENGTH
    ensures |raw| == DECODED_LENGTH && raw[0] == version && raw[1..33] == payload
    ensures Stored(raw) == Checksum(raw[..33])
  {
    var body := [version] + payload;
    var crc := Checksum(body);
    var raw := body + [crc / 256, crc % 256];
    assert raw[..33] == body;
    raw
  }

  function Make(version: Byte, payload: seq<Byte>): Result<string, KeyError>
  {
    if |payload| != PAYLOAD_LENGTH then Err(BadPayload) else Ok(Encode(RawKey(version, payload)))
  }

  /** Every key that is made is valid; `upper` need only leave it alone, as it does for base32 symbols. */
  lemma MadeIsValid(version: Byte, payload: seq<Byte>, upper: string -> string)
    requires |payload| == PAYLOAD_LENGTH
    requires upper(Make(version, payload).value) == Make(version, payload).value
    ensures IsValid(Make(version, payload).value, version, upper)
  {
    var raw := RawKey(version, payload);
    EncodeKeepsStream(raw);
    DecodeEncode(raw);
    ChecksumIffNoResidue(raw);
    ValidIff(Encode(raw), version, upper);
  }

  lemma MakeInjective(version: Byte, p: seq<Byte>, q: seq<Byte>)
    requires |p| == |q| == PAYLOAD_LENGTH && Make(version, p) == Make(version, q)
    ensures p == q
  {
    DecodeEncode(RawKey(version, p));
    DecodeEncode(RawKey(version, q));
  }

  lemma RawKeyBack(d: seq<Byte>, version: Byte)
    requires |d| == DECODED_LENGTH && d[0] == version && Stored(d) == Checksum(d[..33])
    ensures RawKey(version, d[1..33]) == d
  {
    var raw := RawKey(version, d[1..33]);
    assert d[..33] == [version] + d[1..33];
    assert raw[..33] == [version] + raw[1..33];
    SameStored(d, raw);
  }

  lemma SameStored(d: seq<Byte>, e: seq<Byte>)
    requires |d| == |e| == DECODED_LENGTH && d[..33] == e[..33] && Stored(d) == Stored(e)
    ensures d == e
  {
    assert d[33] == e[33] && d[34] == e[34];
    assert d == d[..33] + [d[33], d[34]];
    assert e == e[..33] + [e[33], e[34]];
  }

  /** The upper-case form of every valid key is made from exactly one payload. */
  lemma ValidIsMade(s: string, version: Byte, upper: string -> string) returns (payload: seq<Byte>)
    requires IsValid(s, version, upper)
    ensures |payload| == 32 && Make(version, payload) == Ok(upper(s))
    ensures forall p: seq<Byte> :: Make(version, p) == Ok(upper(s)) ==> p == payload
  {
    var n := upper(s);
    ValidIff(s, version, upper);
    DecodeKeepsStream(n);
    payload := Decode(n).value[1..33];
    RawKeyBack(Decode(n).value, version);
    EncodeDecode(n);
    forall p: seq<Byte> | Make(version, p) == Ok(n) ensures p == payload {
      MakeInjective(version, p, payload);
    }
  }

  method DecodeBase32(data: string) returns (r: Result<seq<Byte>, KeyError>)
    ensures r == Decode(data)
  {
    if |data| != ENCODED_LENGTH {
      return Err(BadLength);
    }
    var result := new Byte[DECODED_LENGTH](_ => 0);
    var bitsConsumed: nat, buffer: nat, byteIndex: nat := 0, 0, 0;
    for k := 0 to |data|
      invariant byteIndex <= DECODED_LENGTH && Decoding(data, k, buffer, bitsConsumed, byteIndex, result[..byteIndex])
    {
      if !IsSymbol(data[k]) {
        return Err(BadCharacter);
      }
      var value := IndexOf(data[k]);
      NextSymbol(data, k, buffer, bitsConsumed, byteIndex, result[..byteIndex]);
      buffer := 32 * buffer + value;
      bitsConsumed := bitsConsumed + 5;
      if bitsConsumed >= 8 {
        bitsConsumed := bitsConsumed - 8;
        ghost var done := result[..byteIndex];
        result[byteIndex] := (buffer / Pow2(bitsConsumed)) % 256;
        byteIndex := byteIndex + 1;
        assert result[..byteIndex] == done + [result[byteIndex - 1]];
      }
    }
    assert data[..|data|] == data && result[..] == result[..byteIndex];
    r := Ok(result[..]);
  }

  /** After k symbols: the buffer holds their stream, and the bytes written are its complete chunks. */
  ghost predicate Decoding(data: string, k: nat, buffer: nat, consumed: nat, n: nat, done: seq<nat>)
  {
    && k <= |data| && AllSymbols(data[..k])
    && buffer == Val(StreamOf(data[..k]))
    && consumed < 8 && 8 * n + consumed == 5 * k
    && done == Chunks(StreamOf(data[..k]), 8)
  }

  lemma NextSymbol(data: string, k: nat, buffer: nat, consumed: nat, n: nat, done: seq<nat>)
    requires k < |data| && Decoding(data, k, buffer, consumed, n, done) && IsSymbol(data[k])
    ensures var buffer' := 32 * buffer + IndexOf(data[k]);
            if consumed + 5 >= 8
            then Decoding(data, k + 1, buffer', consumed - 3, n + 1, done + [(buffer' / Pow2(consumed - 3)) % 256])
            else Decoding(data, k + 1, buffer', consumed + 5, n, done)
  {
    var value := IndexOf(data[k]);
    var bits := StreamOf(data[..k]);
    var bits' := bits + ToBits(value, 5);
    StreamSnoc(data, k);
    BufferSnoc(bits, value);
    if consumed + 5 >= 8 {
      TakeByte(bits, bits', n, consumed - 3);
    } else {
      NoByteYet(bits, bits', n);
    }
  }

  lemma StreamSnoc(s: string, k: nat)
    requires k < |s| && AllSymbols(s[..k]) && IsSymbol(s[k])
    ensures AllSymbols(s[..k + 1])
    ensures StreamOf(s[..k + 1]) == StreamOf(s[..k]) + ToBits(IndexOf(s[k]), 5)
  {
    var x: seq<nat> := [IndexOf(s[k])];
    assert Indices(s[..k + 1]) == Indices(s[..k]) + x;
    FlattenConcat(Indices(s[..k]), x, 5);
    assert x[1..] == [];
    assert Flatten(x, 5) == ToBits(x[0], 5) + [] == ToBits(x[0], 5);
  }

  lemma BufferSnoc(bits: seq<Bit>, value: nat)
    requires value < 32
    ensures Val(bits + ToBits(value, 5)) == 32 * Val(bits) + value
  {
    Pow2Values();
    ValConcat(bits, ToBits(value, 5));
    ValOfToBits(value, 5);
  }

  /** When a byte is complete the shifted and masked buffer is the next chunk of the stream. */
  lemma TakeByte(bits: seq<Bit>, bits': seq<Bit>, n: nat, r: nat)
    requires 8 * n <= |bits| < 8 * n + 8 && r < 8
    requires bits <= bits' && |bits'| == 8 * n + 8 + r
    ensures Chunks(bits', 8) == Chunks(bits, 8) + [(Val(bits') / Pow2(r)) % 256]
    ensures |Chunks(bits, 8)| == n
  {
    var high, mid, low := bits'[..8 * n], bits'[8 * n..8 * n + 8], bits'[8 * n + 8..];
    assert bits[..8 * n] == high;
    NoByteYet(high, bits, n);
    ThreeParts(bits', 8 * n, 8 * n + 8);
    ByteBetween(high, mid, low);
  }

  lemma ByteBetween(high: seq<Bit>, mid: seq<Bit>, low: seq<Bit>)
    requires |high| % 8 == 0 && |mid| == 8 && |low| < 8
    ensures Chunks(high + mid + low, 8) == Chunks(high, 8) + [(Val(high + mid + low) / Pow2(|low|)) % 256]
  {
    Pow2Values();
    FieldOf(high, mid, low);
    ChunksSplit(high, mid + low, 8);
    assert high + mid + low == high + (mid + low);
    ChunksCons(mid, low, 8);
  }

  lemma NoByteYet(bits: seq<Bit>, bits': seq<Bit>, n: nat)
    requires 8 * n <= |bits| <= |bits'| < 8 * n + 8 && bits <= bits'
    ensures Chunks(bits', 8) == Chunks(bits, 8) && |Chunks(bits, 8)| == n
  {
    WholeBytes(bits, n);
    WholeBytes(bits', n);
    assert bits'[..8 * n] == bits[..8 * n];
    ChunksLength(bits, 8);
  }

  lemma WholeBytes(bits: seq<Bit>, n: nat)
    requires 8 * n <= |bits| < 8 * n + 8
    ensures Chunks(bits, 8) == Chunks(bits[..8 * n], 8)
  {
    var high, low := bits[..8 * n], bits[8 * n..];
    assert bits == high + low;
    SplitBytes(high, low, n);
  }

  lemma SplitBytes(high: seq<Bit>, low: seq<Bit>, n: nat)
    requires |high| == 8 * n && |low| < 8
    ensures Chunks(high + low, 8) == Chunks(high, 8)
  {
    assert |high| % 8 == 0;
    ChunksSplit(high, low, 8);
    assert Chunks(high, 8) + [] == Chunks(high, 8);
  }

  method EncodeBase32(data: seq<Byte>) returns (r: string)
    ensures r == Encode(data)
  {
    r := [];
    var bitBuffer: nat, bitsInBuffer: nat := 0, 0;
    ghost var bits: seq<Bit> := [];
    for n := 0 to |data|
      invariant bits == Flatten(data[..n], 8)
      invariant bitsInBuffer < 5 && Encoding(r, bits, bitBuffer, bitsInBuffer)
    {
      FlattenSnoc(data, n);
      TakeInByte(r, bits, bitBuffer, bitsInBuffer, data[n]);
      bits := bits + ToBits(data[n], 8);
      bitBuffer := HighByte(bitBuffer) + data[n];
      bitsInBuffer := bitsInBuffer + 8;
      while bitsInBuffer >= 5
        invariant Encoding(r, bits, bitBuffer, bitsInBuffer)
      {
        bitsInBuffer := bitsInBuffer - 5;
        EmitSymbol(r, bits, bitBuffer, bitsInBuffer);
        var idx := (bitBuffer / Pow2(bitsInBuffer)) % 32;
        r := r + [AlphabetAt(idx)];
      }
    }
    assert data[..|data|] == data;
    FinishEncoding(data, r, bitBuffer, bitsInBuffer);
    if bitsInBuffer > 0 {
      r := r + [AlphabetAt((bitBuffer * Pow2(5 - bitsInBuffer)) % 32)];
    }
  }

  /** What is left in the buffer becomes one more symbol, filled up with zero bits. */
  lemma FinishEncoding(data: seq<Byte>, r: string, buffer: nat, left: nat)
    requires left < 5 && Encoding(r, Flatten(data, 8), buffer, left)
    ensures left == 0 ==> Encode(data) == r
    ensures left > 0 ==>
              (buffer * Pow2(5 - left)) % 32 < 32 && Encode(data) == r + [SymbolAt((buffer * Pow2(5 - left)) % 32)]
  {
    var bits := Flatten(data, 8);
    PaddingOf(|r|, left);
    if left > 0 {
      EmitLast(r, bits, left);
      Finished(data, r + [SymbolAt((buffer * Pow2(5 - left)) % 32)], 5 - left);
    } else {
      assert bits + Zeros(0) == bits == bits[..5 * |r|];
      Finished(data, r, 0);
    }
  }

  lemma PaddingOf(m: nat, left: nat)
    requires left < 5
    ensures Padding(5 * m + left) == if left == 0 then 0 else 5 - left
  {
  }

  /** The buffer holds the stream; its bits beyond the symbols written so far are counted. */
  ghost predicate Encoding(r: string, bits: seq<Bit>, buffer: nat, left: nat)
  {
    buffer == Val(bits) && |bits| == 5 * |r| + left && Emitted(r, bits)
  }

  lemma Finished(data: seq<Byte>, r: string, zeros: nat)
    requires zeros == Padding(|Flatten(data, 8)|)
    requires AllSymbols(r) && Indices(r) == Chunks(Flatten(data, 8) + Zeros(zeros), 5)
    ensures r == Encode(data)
  {
    SymbolsOfIndices(r);
  }

  /** The symbols written so far are the leading chunks of the stream. */
  ghost predicate Emitted(r: string, bits: seq<Bit>)
  {
    && AllSymbols(r)
    && 5 * |r| <= |bits|
    && Indices(r) == Chunks(bits[..5 * |r|], 5)
  }

  lemma FlattenSnoc(data: seq<Byte>, n: nat)
    requires n < |data|
    ensures Flatten(data[..n + 1], 8) == Flatten(data[..n], 8) + ToBits(data[n], 8)
  {
    var x: seq<nat> := [data[n]];
    assert data[..n + 1] == data[..n] + x;
    FlattenConcat(data[..n], x, 8);
    assert x[1..] == [];
    assert Flatten(x, 8) == ToBits(data[n], 8) + [] == ToBits(data[n], 8);
  }

  lemma TakeInByte(r: string, bits: seq<Bit>, buffer: nat, left: nat, byte: Byte)
    requires Encoding(r, bits, buffer, left)
    ensures Encoding(r, bits + ToBits(byte, 8), HighByte(buffer) + byte, left + 8)
  {
    var more := ToBits(byte, 8);
    ValConcat(bits, more);
    Pow2Values();
    ValOfToBits(byte, 8);
    assert (bits + more)[..5 * |r|] == bits[..5 * |r|];
  }

  lemma EmitSymbol(r: string, bits: seq<Bit>, buffer: nat, left: nat)
    requires Encoding(r, bits, buffer, left + 5)
    ensures var idx := (buffer / Pow2(left)) % 32;
            idx < 32 && Encoding(r + [SymbolAt(idx)], bits, buffer, left)
  {
    var m := 5 * |r|;
    var high, mid, low := bits[..m], bits[m..m + 5], bits[m + 5..];
    ThreeParts(bits, m, m + 5);
    Pow2Values();
    FieldOf(high, mid, low);
    AppendSymbol(r, high, mid, (buffer / Pow2(left)) % 32);
    assert bits[..m + 5] == high + mid;
  }

  lemma AppendSymbol(r: string, high: seq<Bit>, mid: seq<Bit>, idx: nat)
    requires AllSymbols(r) && |high| == 5 * |r| && Indices(r) == Chunks(high, 5)
    requires |mid| == 5 && idx == Val(mid) < 32
    ensures AllSymbols(r + [SymbolAt(idx)])
    ensures Indices(r + [SymbolAt(idx)]) == Chunks(high + mid, 5)
  {
    ChunksSplit(high, mid, 5);
    ChunksCons(mid, [], 5);
    assert mid + [] == mid;
    assert Indices(r + [SymbolAt(idx)]) == Indices(r) + [idx];
  }

  lemma EmitLast(r: string, bits: seq<Bit>, left: nat)
    requires Emitted(r, bits) && |bits| == 5 * |r| + left && 0 < left < 5
    ensures var idx := (Val(bits) * Pow2(5 - left)) % 32;
            && idx < 32 && AllSymbols(r + [SymbolAt(idx)])
            && Indices(r + [SymbolAt(idx)]) == Chunks(bits + Zeros(5 - left), 5)
  {
    var idx := (Val(bits) * Pow2(5 - left)) % 32;
    var high, mid := bits[..5 * |r|], bits[5 * |r|..] + Zeros(5 - left);
    assert bits + Zeros(5 - left) == high + mid;
    assert idx == Val(mid) by { LastIndex(bits, high, mid, left); }
    AppendSymbol(r, high, mid, idx);
  }

  lemma LastIndex(bits: seq<Bit>, high: seq<Bit>, mid: seq<Bit>, left: nat)
    requires 0 < left < 5 && |mid| == 5 && bits + Zeros(5 - left) == high + mid
    ensures (Val(bits) * Pow2(5 - left)) % 32 == Val(mid)
  {
    ValConcat(bits, Zeros(5 - left));
    ValOfZeros(5 - left);
    Pow2Values();
    ValConcat(high, mid);
    ValBound(mid);
    DivOfSum(Val(high), 32, Val(mid));
  }

  method IsValidStrKey(value: string, expectedVersion: Byte, upper: string -> string) returns (ok: bool)
    ensures ok == IsValid(value, expectedVersion, upper)
  {
    if |value| != ENCODED_LENGTH {
      return false;
    }
    var normalised := upper(value);
    if normalised == [] || normalised[0] != AlphabetAt(expectedVersion / 8) {
      return false;
    }
    var decoded := DecodeBase32(normalised);
    if decoded.Err? {
      return false;
    }
    DecodeKeepsStream(normalised);
    var d := decoded.value;
    if d[0] != expectedVersion {
      return false;
    }
    var computed := Crc16Xmodem(d[..33]);
    ok := HighByte(d[33]) + d[34] == computed;
  }

  method MakeStrKey(version: Byte, payload: seq<Byte>) returns (r: Result<string, KeyError>)
    ensures r == Make(version, payload)
  {
    if |payload| != PAYLOAD_LENGTH {
      return Err(BadPayload);
    }
    var raw := [version] + payload;
    var crc := Crc16Xmodem(raw);
    raw := raw + [(crc / 256) % 256];
    raw := raw + [crc % 256];
    assert raw == RawKey(version, payload);
    var encoded := EncodeBase32(raw);
    r := Ok(encoded);
  }
}
