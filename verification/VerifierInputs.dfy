/** Big-endian numbers and hexadecimal text over bytes. */
module BigEndian {
  import opened Bits

  type Bytes = seq<Byte>

  function Pow256(k: nat): (p: nat)
    ensures p >= 1
  {
    if k == 0 then 1 else 256 * Pow256(k - 1)
  }

  /** The number a byte string denotes, most significant byte first. */
  function FromBytes(b: Bytes): nat
  {
    if b == [] then 0 else 256 * FromBytes(b[..|b| - 1]) + b[|b| - 1]
  }

  function ToBytes(n: nat, k: nat): (b: Bytes)
    ensures |b| == k
  {
    if k == 0 then [] else ToBytes(n / 256, k - 1) + [n % 256]
  }

  lemma {:induction false} FromBytesBound(b: Bytes)
    ensures FromBytes(b) < Pow256(|b|)
  {
    if b != [] { FromBytesBound(b[..|b| - 1]); }
  }

  lemma {:induction false} FromOfTo(n: nat, k: nat)
    requires n < Pow256(k)
    ensures FromBytes(ToBytes(n, k)) == n
  {
    if k > 0 {
      FromOfTo(n / 256, k - 1);
      assert ToBytes(n, k)[..k - 1] == ToBytes(n / 256, k - 1);
    }
  }

  lemma {:induction false} ToOfFrom(b: Bytes)
    ensures ToBytes(FromBytes(b), |b|) == b
  {
    if b != [] { ToOfFrom(b[..|b| - 1]); }
  }

  function ZeroBytes(k: nat): (b: Bytes)
    ensures |b| == k
  {
    seq(k, _ => 0)
  }

  /** Leading zero bytes do not count. */
  lemma {:induction false} LeadingZeros(k: nat, b: Bytes)
    ensures FromBytes(ZeroBytes(k) + b) == FromBytes(b)
    decreases |b|, k
  {
    if b != [] {
      assert (ZeroBytes(k) + b)[..k + |b| - 1] == ZeroBytes(k) + b[..|b| - 1];
      LeadingZeros(k, b[..|b| - 1]);
    } else {
      assert ZeroBytes(k) + b == ZeroBytes(k);
      if k > 0 {
        assert ZeroBytes(k)[..k - 1] == ZeroBytes(k - 1) == ZeroBytes(k - 1) + [];
        LeadingZeros(k - 1, []);
      }
    }
  }

  // ----- hexadecimal

  predicate IsHexDigit(c: char)
  {
    '0' <= c <= '9' || 'a' <= c <= 'f' || 'A' <= c <= 'F'
  }

  predicate IsHexText(s: string)
  {
    forall i :: 0 <= i < |s| ==> IsHexDigit(s[i])
  }

  function HexValue(c: char): (n: nat)
    requires IsHexDigit(c)
    ensures n < 16
  {
    if c <= '9' then (c - '0') as int else if c <= 'F' then 10 + (c - 'A') as int else 10 + (c - 'a') as int
  }

  function HexDigit(n: nat): (c: char)
    requires n < 16
    ensures IsHexDigit(c) && HexValue(c) == n
  {
    if n < 10 then '0' + n as char else 'a' + (n - 10) as char
  }

  /** The k low hexadecimal digits of n, lower case. */
  function HexText(n: nat, k: nat): (s: string)
    ensures |s| == k && IsHexText(s)
  {
    if k == 0 then [] else HexText(n / 16, k - 1) + [HexDigit(n % 16)]
  }

  /** Pairs of digits as bytes. */
  function FromHex(s: string): (b: Bytes)
    requires |s| % 2 == 0 && IsHexText(s)
    ensures |b| == |s| / 2
  {
    if s == [] then [] else [16 * HexValue(s[0]) + HexValue(s[1])] + FromHex(s[2..])
  }

  lemma {:induction false} FromHexConcat(s: string, t: string)
    requires |s| % 2 == 0 && |t| % 2 == 0 && IsHexText(s) && IsHexText(t)
    ensures FromHex(s + t) == FromHex(s) + FromHex(t)
    decreases |s|
  {
    if s == [] {
      assert s + t == t;
    } else {
      assert (s + t)[2..] == s[2..] + t;
      FromHexConcat(s[2..], t);
    }
  }

  lemma {:induction false} FromHexOfHexText(n: nat, k: nat)
    ensures FromHex(HexText(n, 2 * k)) == ToBytes(n, k)
  {
    if k > 0 {
      var lo: string := [HexDigit(n / 16 % 16), HexDigit(n % 16)];
      TwoDigits(n, 2 * (k - 1));
      FromHexOfHexText(n / 256, k - 1);
      FromHexConcat(HexText(n / 256, 2 * (k - 1)), lo);
    }
  }

  lemma TwoDigits(n: nat, j: nat)
    ensures var lo: string := [HexDigit(n / 16 % 16), HexDigit(n % 16)];
            HexText(n, j + 2) == HexText(n / 256, j) + lo && FromHex(lo) == [n % 256]
  {
    var lo: string := [HexDigit(n / 16 % 16), HexDigit(n % 16)];
    assert HexText(n, j + 2) == HexText(n / 16, j + 1) + [HexDigit(n % 16)];
    assert n / 16 / 16 == n / 256;
    assert lo[2..] == [];
    assert FromHex(lo) == [16 * (n / 16 % 16) + n % 16];
  }

  /** Two texts decode alike exactly when they agree digit for digit up to case. */
  lemma {:induction false} FromHexInjective(s: string, t: string)
    requires |s| % 2 == 0 && |t| % 2 == 0 && IsHexText(s) && IsHexText(t)
    ensures FromHex(s) == FromHex(t) <==> |s| == |t| && forall i :: 0 <= i < |s| ==> HexValue(s[i]) == HexValue(t[i])
    decreases |s|
  {
    if s != [] && t != [] {
      FromHexInjective(s[2..], t[2..]);
      var a, b := FromHex(s), FromHex(t);
      assert a[1..] == FromHex(s[2..]) && b[1..] == FromHex(t[2..]);
      assert a[0] == b[0] <==> HexValue(s[0]) == HexValue(t[0]) && HexValue(s[1]) == HexValue(t[1]);
      assert a == b <==> a[0] == b[0] && a[1..] == b[1..] by {
        assert a == [a[0]] + a[1..] && b == [b[0]] + b[1..];
      }
      if |s| == |t| && forall i :: 0 <= i < |s| ==> HexValue(s[i]) == HexValue(t[i]) {
        assert forall i :: 0 <= i < |s[2..]| ==> s[2..][i] == s[i + 2] && t[2..][i] == t[i + 2];
      }
      if a == b {
        forall i | 0 <= i < |s| ensures HexValue(s[i]) == HexValue(t[i]) {
          if i >= 2 { assert s[i] == s[2..][i - 2] && t[i] == t[2..][i - 2]; }
        }
      }
    }
  }
}

/** The canonical codec for verifier inputs: hexadecimal text, 32-byte fields, three schemas. */
module VerifierInputs {
  import opened Outcomes
  import opened Numerals
  import opened BigEndian

  const FIELD_LEN: nat := 32
  const MIN_PROOF_BYTES: nat := 64
  const MAX_PROOF_BYTES: nat := 65_536
  const MAX_HEX_CHARS: nat := 2 * (MAX_PROOF_BYTES + 1_024)
  const EXPECTED_CIRCUIT_VERSION: nat := 2
  const MODULUS: nat := 21888242871839275222246405745257275088548364400416034343698204186575808495617

  /** SHA-256 of the three domain constants. */
  const DOMAIN_TAG: Bytes :=
    [0x4a, 0xa0, 0x38, 0xf0, 0xa2, 0x7b, 0x66, 0x75, 0xd7, 0x12, 0x2a, 0xe2, 0xd4, 0xe1, 0x97, 0xc2,
     0x1e, 0x83, 0xfb, 0xe3, 0x01, 0x43, 0xa5, 0xc8, 0x3f, 0xf3, 0x5c, 0x95, 0x14, 0xb9, 0x2c, 0x55]

  /** HARPOCRATES_REVOCATION_V1 behind seven zero bytes. */
  const SEPARATOR_TEXT: Bytes :=
    [0x48, 0x41, 0x52, 0x50, 0x4f, 0x43, 0x52, 0x41, 0x54, 0x45, 0x53, 0x5f, 0x52,
     0x45, 0x56, 0x4f, 0x43, 0x41, 0x54, 0x49, 0x4f, 0x4e, 0x5f, 0x56, 0x31]
  const SEPARATOR: Bytes := ZeroBytes(7) + SEPARATOR_TEXT

  datatype RejectCode =
    | MalformedHex | Length | Padding | NonCanonicalField | ZeroField | DomainMismatch
    | ProofUndersize | ProofOversize | UnknownSchema | VersionMismatch

  datatype Rejection = Rejection(code: RejectCode, field: string)

  // ----- hexadecimal text

  function DecodeHex(value: string, field: string, oversize: RejectCode): Result<Bytes, Rejection>
  {
    if |value| > MAX_HEX_CHARS then Err(Rejection(oversize, field))
    else if |value| % 2 != 0 then Err(Rejection(MalformedHex, field))
    else if !IsHexText(value) then Err(Rejection(MalformedHex, field))
    else Ok(FromHex(value))
  }

  // ----- field elements

  datatype FieldValue = IntValue(n: int) | BoolValue(b: bool) | TextValue(s: string) | OtherValue

  /** The host language's reading of a numeral in a base. */
  type Reader = (string, nat) -> Option<int>

  function ParseField(read: Reader, value: FieldValue, field: string): Result<int, Rejection>
  {
    match value
    case IntValue(n) => Ok(n)
    case BoolValue(_) => Err(Rejection(MalformedHex, field))
    case OtherValue => Err(Rejection(MalformedHex, field))
    case TextValue(s) =>
      if s == "" then Err(Rejection(MalformedHex, field))
      else
        var n := read(s, if |s| >= 2 && s[0] == '0' && (s[1] == 'x' || s[1] == 'X') then 16 else 10);
        if n.None? then Err(Rejection(MalformedHex, field)) else Ok(n.value)
  }

  function EncodeField(read: Reader, value: FieldValue, field: string): Result<string, Rejection>
  {
    var n := ParseField(read, value, field);
    if n.Err? then Err(n.error)
    else if n.value < 0 || n.value >= MODULUS then Err(Rejection(NonCanonicalField, field))
    else Ok(HexText(n.value, 64))
  }

  function NameAt(names: seq<string>, i: nat): string
  {
    if i < |names| then names[i] else "field_" + Decimal(i)
  }

  /** The vector from position i on, encoded in order; the first value that is refused ends it. */
  function EncodeFrom(read: Reader, values: seq<FieldValue>, names: seq<string>, i: nat): Result<string, Rejection>
    decreases |values| - i
  {
    if i >= |values| then Ok("")
    else
      var head := EncodeField(read, values[i], NameAt(names, i));
      if head.Err? then head
      else
        var tail := EncodeFrom(read, values, names, i + 1);
        if tail.Err? then tail else Ok(head.value + tail.value)
  }

  function EncodePublicInputs(read: Reader, values: seq<FieldValue>, names: seq<string>): Result<string, Rejection>
  {
    EncodeFrom(read, values, names, 0)
  }

  predicate IsCanonical(b: Bytes)
  {
    |b| == FIELD_LEN && FromBytes(b) < MODULUS
  }

  // ----- splitting and joining

  function FieldAt(b: Bytes, i: nat): Bytes
    requires 32 * i + 32 <= |b|
  {
    b[32 * i..32 * i + 32]
  }

  function SplitFields(b: Bytes, count: nat): Result<seq<Bytes>, Rejection>
  {
    if |b| != 32 * count then Err(Rejection(Length, "public_inputs"))
    else Ok(seq(count, i requires 0 <= i < count => FieldAt(b, i)))
  }

  function Join(fs: seq<Bytes>): Bytes
  {
    if fs == [] then [] else fs[0] + Join(fs[1..])
  }

  predicate AllFields(fs: seq<Bytes>)
  {
    forall i :: 0 <= i < |fs| ==> |fs[i]| == FIELD_LEN
  }

  lemma {:induction false} JoinAt(fs: seq<Bytes>, i: nat)
    requires AllFields(fs) && i < |fs|
    ensures |Join(fs)| == 32 * |fs| && FieldAt(Join(fs), i) == fs[i]
    decreases |fs|
  {
    if |fs| == 1 {
      assert Join(fs) == fs[0] + [] == fs[0];
    } else if i == 0 {
      JoinAt(fs[1..], 0);
    } else {
      JoinAt(fs[1..], i - 1);
      assert FieldAt(Join(fs), i) == FieldAt(Join(fs[1..]), i - 1);
    }
  }

  /** Splitting a joined list of fields gives the list back. */
  lemma SplitOfJoin(fs: seq<Bytes>)
    requires AllFields(fs)
    ensures SplitFields(Join(fs), |fs|) == Ok(fs)
  {
    JoinLength(fs);
    forall i | 0 <= i < |fs| ensures FieldAt(Join(fs), i) == fs[i] {
      JoinAt(fs, i);
    }
    SplitIs(Join(fs), fs);
  }

  lemma SplitIs(b: Bytes, fs: seq<Bytes>)
    requires |b| == 32 * |fs| && forall i :: 0 <= i < |fs| ==> FieldAt(b, i) == fs[i]
    ensures SplitFields(b, |fs|) == Ok(fs)
  {
    assert SplitFields(b, |fs|).value == fs;
  }

  lemma JoinLength(fs: seq<Bytes>)
    requires AllFields(fs)
    ensures |Join(fs)| == 32 * |fs|
  {
    if fs != [] { JoinAt(fs, 0); }
  }

  /** Joining the fields of an input of the right length gives the input back. */
  lemma {:induction false} JoinOfSplit(b: Bytes, count: nat)
    requires SplitFields(b, count).Ok?
    ensures AllFields(SplitFields(b, count).value) && |SplitFields(b, count).value| == count
    ensures Join(SplitFields(b, count).value) == b
    decreases count
  {
    if count > 0 {
      var fs := SplitFields(b, count).value;
      var rest := b[32..];
      JoinOfSplit(rest, count - 1);
      forall i | 0 <= i < count - 1 ensures fs[1..][i] == SplitFields(rest, count - 1).value[i] {
        assert FieldAt(b, i + 1) == FieldAt(rest, i);
      }
      assert fs[1..] == SplitFields(rest, count - 1).value;
      assert b == b[..32] + rest;
    }
  }

  // ----- vectors of field elements

  predicate Element(n: int)
  {
    0 <= n < MODULUS
  }

  function ElementFields(ns: seq<int>): (fs: seq<Bytes>)
    requires forall i :: 0 <= i < |ns| ==> Element(ns[i])
    ensures |fs| == |ns| && AllFields(fs)
  {
    seq(|ns|, i requires 0 <= i < |ns| => (assert Element(ns[i]); ToBytes(ns[i], FIELD_LEN)))
  }

  lemma Pow256Values()
    ensures Pow256(16) == 0x1_0000_0000_0000_0000_0000_0000_0000_0000
    ensures Pow256(16) < MODULUS && Pow256(25) < MODULUS && MODULUS < Pow256(32)
  {
    assert Pow256(4) == 0x1_0000_0000;
    assert Pow256(8) == 0x1_0000_0000_0000_0000;
    assert Pow256(12) == 0x1_0000_0000_0000_0000_0000_0000;
    assert Pow256(16) == 0x1_0000_0000_0000_0000_0000_0000_0000_0000;
    assert Pow256(20) == 0x1_0000_0000_0000_0000_0000_0000_0000_0000_0000_0000;
    assert Pow256(24) == 0x1_0000_0000_0000_0000_0000_0000_0000_0000_0000_0000_0000_0000;
    assert Pow256(28) == 0x1_0000_0000_0000_0000_0000_0000_0000_0000_0000_0000_0000_0000_0000_0000;
  }

  lemma {:induction false} EncodedVector(read: Reader, ns: seq<int>, values: seq<FieldValue>,
                                         names: seq<string>, i: nat)
    requires |values| == |ns| && i <= |ns|
    requires forall j :: 0 <= j < |ns| ==> Element(ns[j]) && values[j] == IntValue(ns[j])
    ensures var r := EncodeFrom(read, values, names, i);
            && r.Ok? && |r.value| == 64 * (|ns| - i) && IsHexText(r.value)
            && FromHex(r.value) == Join(ElementFields(ns)[i..])
    decreases |ns| - i
  {
    if i < |ns| {
      EncodedVector(read, ns, values, names, i + 1);
      var fs := ElementFields(ns);
      assert Element(ns[i]) && EncodeField(read, values[i], NameAt(names, i)) == Ok(HexText(ns[i], 64));
      PrependElement(ns[i], EncodeFrom(read, values, names, i + 1).value, fs[i + 1..]);
      assert fs[i..] == [fs[i]] + fs[i + 1..];
    }
  }

  lemma PrependElement(n: nat, tail: string, rest: seq<Bytes>)
    requires |tail| % 2 == 0 && IsHexText(tail) && FromHex(tail) == Join(rest)
    ensures IsHexText(HexText(n, 64) + tail)
    ensures FromHex(HexText(n, 64) + tail) == Join([ToBytes(n, 32)] + rest)
  {
    FromHexOfHexText(n, 32);
    FromHexConcat(HexText(n, 64), tail);
    assert ([ToBytes(n, 32)] + rest)[1..] == rest;
  }

  /** Encoding any vector of field elements succeeds; decoding and splitting recovers every element when the
      text is within the bound on hexadecimal input, and the text is refused as oversized when it is not. */
  lemma VectorRoundTrip(read: Reader, ns: seq<int>, names: seq<string>, field: string, oversize: RejectCode)
    requires forall i :: 0 <= i < |ns| ==> Element(ns[i])
    ensures var values := seq(|ns|, i requires 0 <= i < |ns| => IntValue(ns[i]));
            var text := EncodePublicInputs(read, values, names);
            && text.Ok?
            && var bytes := DecodeHex(text.value, field, oversize);
            && (64 * |ns| > MAX_HEX_CHARS ==> bytes == Err(Rejection(oversize, field)))
            && (64 * |ns| <= MAX_HEX_CHARS ==>
                  && bytes.Ok?
                  && SplitFields(bytes.value, |ns|) == Ok(ElementFields(ns)))
    ensures forall i :: 0 <= i < |ns| ==> IsCanonical(ElementFields(ns)[i]) && FromBytes(ElementFields(ns)[i]) == ns[i]
  {
    var values := seq(|ns|, i requires 0 <= i < |ns| => IntValue(ns[i]));
    EncodedVector(read, ns, values, names, 0);
    assert ElementFields(ns)[0..] == ElementFields(ns);
    SplitOfJoin(ElementFields(ns));
    forall i | 0 <= i < |ns| ensures IsCanonical(ElementFields(ns)[i]) && FromBytes(ElementFields(ns)[i]) == ns[i] {
      assert Element(ns[i]);
      ElementBack(ns[i]);
    }
  }

  lemma ElementBack(n: int)
    requires Element(n)
    ensures IsCanonical(ToBytes(n, FIELD_LEN)) && FromBytes(ToBytes(n, FIELD_LEN)) == n
  {
    Pow256Values();
    FromOfTo(n, FIELD_LEN);
  }

  // ----- schemas

  datatype SilentWitness = SilentWitness(
    videoHash: Bytes, credentialRoot: Bytes, nullifier: Bytes, domainTag: Bytes,
    scope: Option<Bytes>, epoch: Option<Bytes>, circuitVersion: Option<nat>)

  datatype RevocationWitness = RevocationWitness(
    revocationRoot: Bytes, nullifier: Bytes, separator: Bytes, credentialRoot: Bytes)

  const SILENT_FIELDS: seq<string> := ["video_hash_hi", "video_hash_lo", "credential_root", "nullifier", "domain_tag"]
  const SILENT_V2_FIELDS: seq<string> :=
    ["video_hash_hi", "video_hash_lo", "credential_root", "nullifier",
     "verifier_scope", "epoch", "domain_tag", "circuit_version"]
  const REVOCATION_FIELDS: seq<string> := ["revocation_root", "nullifier", "domain_separator", "credential_root"]

  /** A half of the video hash is carried in the low 16 bytes of its field. */
  predicate HalfPadded(f: Bytes)
    requires |f| == FIELD_LEN
  {
    f[..16] == ZeroBytes(16)
  }

  /** The circuit version in a field; a sentinel when the upper 28 bytes are not zero. */
  function VersionOf(f: Bytes): nat
    requires |f| == FIELD_LEN
  {
    if f[..28] != ZeroBytes(28) then 0xFFFF_FFFF else FromBytes(f[28..])
  }

  /** The name of the first field at or after i, below n, that is not canonical. */
  function FirstNonCanonical(fs: seq<Bytes>, names: seq<string>, i: nat, n: nat): Option<string>
    requires n <= |fs| && n <= |names|
    decreases n - i
  {
    if i >= n then None
    else if !IsCanonical(fs[i]) then Some(names[i])
    else FirstNonCanonical(fs, names, i + 1, n)
  }

  lemma {:induction false} AllCanonical(fs: seq<Bytes>, names: seq<string>, i: nat, n: nat)
    requires n <= |fs| && n <= |names|
    ensures FirstNonCanonical(fs, names, i, n).None? <==> forall j :: i <= j < n ==> IsCanonical(fs[j])
    decreases n - i
  {
    if i < n { AllCanonical(fs, names, i + 1, n); }
  }

  const ZERO_FIELD: Bytes := ZeroBytes(32)

  function ParseSilent(input: Bytes): Result<SilentWitness, Rejection>
  {
    var split := SplitFields(input, 5);
    if split.Err? then Err(split.error)
    else
      var f := split.value;
      if !HalfPadded(f[0]) then Err(Rejection(Padding, "video_hash_hi"))
      else if !HalfPadded(f[1]) then Err(Rejection(Padding, "video_hash_lo"))
      else
        var odd := FirstNonCanonical(f, SILENT_FIELDS, 0, 4);
        if odd.Some? then Err(Rejection(NonCanonicalField, odd.value))
        else if f[2] == ZERO_FIELD then Err(Rejection(ZeroField, "credential_root"))
        else if f[3] == ZERO_FIELD then Err(Rejection(ZeroField, "nullifier"))
        else if f[4] == ZERO_FIELD then Err(Rejection(ZeroField, "domain_tag"))
        else if f[4] != DOMAIN_TAG then Err(Rejection(DomainMismatch, "domain_tag"))
        else Ok(SilentWitness(f[0][16..] + f[1][16..], f[2], f[3], f[4], None, None, None))
  }

  function ParseSilentV2(input: Bytes): Result<SilentWitness, Rejection>
  {
    var split := SplitFields(input, 8);
    if split.Err? then Err(split.error)
    else
      var f := split.value;
      if !HalfPadded(f[0]) then Err(Rejection(Padding, "video_hash_hi"))
      else if !HalfPadded(f[1]) then Err(Rejection(Padding, "video_hash_lo"))
      else if VersionOf(f[7]) != EXPECTED_CIRCUIT_VERSION then Err(Rejection(VersionMismatch, "circuit_version"))
      else
        var odd := FirstNonCanonical(f, SILENT_V2_FIELDS, 0, 6);
        if odd.Some? then Err(Rejection(NonCanonicalField, odd.value))
        else if f[2] == ZERO_FIELD then Err(Rejection(ZeroField, "credential_root"))
        else if f[3] == ZERO_FIELD then Err(Rejection(ZeroField, "nullifier"))
        else if f[6] == ZERO_FIELD then Err(Rejection(ZeroField, "domain_tag"))
        else if f[6] != DOMAIN_TAG then Err(Rejection(DomainMismatch, "domain_tag"))
        else Ok(SilentWitness(f[0][16..] + f[1][16..], f[2], f[3], f[6],
                              Some(f[4]), Some(f[5]), Some(EXPECTED_CIRCUIT_VERSION)))
  }

  function ParseRevocation(input: Bytes): Result<RevocationWitness, Rejection>
  {
    var split := SplitFields(input, 4);
    if split.Err? then Err(split.error)
    else
      var f := split.value;
      var odd := FirstNonCanonical(f, REVOCATION_FIELDS, 0, 4);
      if odd.Some? then Err(Rejection(NonCanonicalField, odd.value))
      else if f[0] == ZERO_FIELD then Err(Rejection(ZeroField, "revocation_root"))
      else if f[1] == ZERO_FIELD then Err(Rejection(ZeroField, "nullifier"))
      else if f[3] == ZERO_FIELD then Err(Rejection(ZeroField, "credential_root"))
      else if f[2] != SEPARATOR then Err(Rejection(DomainMismatch, "domain_separator"))
      else Ok(RevocationWitness(f[0], f[1], f[2], f[3]))
  }

  // ----- the canonical serialisation of each schema

  function Padded(half: Bytes): Bytes
  {
    ZeroBytes(16) + half
  }

  predicate Identity(b: Bytes)
  {
    IsCanonical(b) && b != ZERO_FIELD
  }

  predicate WellFormedSilent(v: SilentWitness)
  {
    && |v.videoHash| == 32 && Identity(v.credentialRoot) && Identity(v.nullifier) && v.domainTag == DOMAIN_TAG
    && v.scope.None? && v.epoch.None? && v.circuitVersion.None?
  }

  predicate WellFormedSilentV2(v: SilentWitness)
  {
    && |v.videoHash| == 32 && Identity(v.credentialRoot) && Identity(v.nullifier) && v.domainTag == DOMAIN_TAG
    && v.scope.Some? && IsCanonical(v.scope.value) && v.epoch.Some? && IsCanonical(v.epoch.value)
    && v.circuitVersion == Some(EXPECTED_CIRCUIT_VERSION)
  }

  predicate WellFormedRevocation(v: RevocationWitness)
  {
    Identity(v.revocationRoot) && Identity(v.nullifier) && v.separator == SEPARATOR && Identity(v.credentialRoot)
  }

  function SilentFields(v: SilentWitness): seq<Bytes>
    requires |v.videoHash| == 32
  {
    [Padded(v.videoHash[..16]), Padded(v.videoHash[16..]), v.credentialRoot, v.nullifier, v.domainTag]
  }

  function SilentV2Fields(v: SilentWitness): seq<Bytes>
    requires WellFormedSilentV2(v)
  {
    [Padded(v.videoHash[..16]), Padded(v.videoHash[16..]), v.credentialRoot, v.nullifier, v.scope.value, v.epoch.value,
     v.domainTag, ToBytes(v.circuitVersion.value, 32)]
  }

  function RevocationFields(v: RevocationWitness): seq<Bytes>
  {
    [v.revocationRoot, v.nullifier, v.separator, v.credentialRoot]
  }

  lemma PaddedIsCanonical(half: Bytes)
    requires |half| == 16
    ensures IsCanonical(Padded(half)) && HalfPadded(Padded(half)) && Padded(half)[16..] == half
  {
    LeadingZeros(16, half);
    FromBytesBound(half);
    Pow256Values();
  }

  lemma HalvesBack(f: Bytes, g: Bytes)
    requires |f| == FIELD_LEN == |g| && HalfPadded(f) && HalfPadded(g)
    ensures var hash := f[16..] + g[16..];
            |hash| == 32 && Padded(hash[..16]) == f && Padded(hash[16..]) == g
  {
    var hash := f[16..] + g[16..];
    assert hash[..16] == f[16..] && hash[16..] == g[16..];
  }

  /** The only field that reads as the expected version is its 32-byte encoding. */
  lemma VersionField(f: Bytes)
    requires |f| == FIELD_LEN
    ensures VersionOf(f) == EXPECTED_CIRCUIT_VERSION <==> f == ToBytes(EXPECTED_CIRCUIT_VERSION, 32)
  {
    var tail := ToBytes(EXPECTED_CIRCUIT_VERSION, 4);
    LeadingZeros(28, f[28..]);
    LeadingZeros(28, tail);
    assert Pow256(4) == 0x1_0000_0000;
    Pow256Values();
    FromOfTo(EXPECTED_CIRCUIT_VERSION, 4);
    FromOfTo(EXPECTED_CIRCUIT_VERSION, 32);
    ToOfFrom(ZeroBytes(28) + tail);
    ToOfFrom(f);
    if f[..28] == ZeroBytes(28) {
      assert f == ZeroBytes(28) + f[28..];
    }
    if f == ToBytes(EXPECTED_CIRCUIT_VERSION, 32) {
      assert f == ZeroBytes(28) + tail;
      assert f[28..] == tail;
    }
  }

  lemma TagNotZero()
    ensures DOMAIN_TAG != ZERO_FIELD && |SEPARATOR| == 32 && IsCanonical(SEPARATOR)
  {
    assert DOMAIN_TAG[0] != ZERO_FIELD[0];
    LeadingZeros(7, SEPARATOR_TEXT);
    FromBytesBound(SEPARATOR_TEXT);
    Pow256Values();
  }

  /** Parsing the serialisation of any well-formed value returns that value. */
  lemma ParseOfSilent(v: SilentWitness)
    requires WellFormedSilent(v)
    ensures ParseSilent(Join(SilentFields(v))) == Ok(v)
  {
    var fs := SilentFields(v);
    SplitOfJoin(fs);
    PaddedIsCanonical(v.videoHash[..16]);
    PaddedIsCanonical(v.videoHash[16..]);
    AllCanonical(fs, SILENT_FIELDS, 0, 4);
    TagNotZero();
    assert v.videoHash[..16] + v.videoHash[16..] == v.videoHash;
  }

  /** Serialising an accepted parse gives back the same bytes. */
  lemma SilentOfParse(input: Bytes)
    requires ParseSilent(input).Ok?
    ensures WellFormedSilent(ParseSilent(input).value)
    ensures Join(SilentFields(ParseSilent(input).value)) == input
  {
    JoinOfSplit(input, 5);
    var f, v := SplitFields(input, 5).value, ParseSilent(input).value;
    AllCanonical(f, SILENT_FIELDS, 0, 4);
    HalvesBack(f[0], f[1]);
    assert SilentFields(v) == f;
  }

  lemma ParseOfSilentV2(v: SilentWitness)
    requires WellFormedSilentV2(v)
    ensures ParseSilentV2(Join(SilentV2Fields(v))) == Ok(v)
  {
    var fs := SilentV2Fields(v);
    SplitOfJoin(fs);
    PaddedIsCanonical(v.videoHash[..16]);
    PaddedIsCanonical(v.videoHash[16..]);
    AllCanonical(fs, SILENT_V2_FIELDS, 0, 6);
    VersionField(fs[7]);
    TagNotZero();
    assert v.videoHash[..16] + v.videoHash[16..] == v.videoHash;
  }

  lemma SilentV2OfParse(input: Bytes)
    requires ParseSilentV2(input).Ok?
    ensures WellFormedSilentV2(ParseSilentV2(input).value)
    ensures Join(SilentV2Fields(ParseSilentV2(input).value)) == input
  {
    JoinOfSplit(input, 8);
    SilentV2Back(input, SplitFields(input, 8).value);
  }

  lemma SilentV2Back(input: Bytes, f: seq<Bytes>)
    requires ParseSilentV2(input).Ok? && SplitFields(input, 8) == Ok(f) && AllFields(f) && |f| == 8
    ensures WellFormedSilentV2(ParseSilentV2(input).value) && SilentV2Fields(ParseSilentV2(input).value) == f
  {
    var v := ParseSilentV2(input).value;
    AllCanonical(f, SILENT_V2_FIELDS, 0, 6);
    VersionField(f[7]);
    HalvesBack(f[0], f[1]);
    assert WellFormedSilentV2(v);
    assert SilentV2Fields(v)[7] == f[7];
  }

  lemma ParseOfRevocation(v: RevocationWitness)
    requires WellFormedRevocation(v)
    ensures ParseRevocation(Join(RevocationFields(v))) == Ok(v)
  {
    TagNotZero();
    SplitOfJoin(RevocationFields(v));
    AllCanonical(RevocationFields(v), REVOCATION_FIELDS, 0, 4);
  }

  lemma RevocationOfParse(input: Bytes)
    requires ParseRevocation(input).Ok?
    ensures WellFormedRevocation(ParseRevocation(input).value)
    ensures Join(RevocationFields(ParseRevocation(input).value)) == input
  {
    JoinOfSplit(input, 4);
    var f := SplitFields(input, 4).value;
    AllCanonical(f, REVOCATION_FIELDS, 0, 4);
    assert RevocationFields(ParseRevocation(input).value) == f;
  }

  // ----- dispatch and classification

  datatype Parsed = Silent(s: SilentWitness) | Revocation(r: RevocationWitness)

  const SCHEMA_SILENT: string := "silent_witness/v1"
  const SCHEMA_SILENT_V2: string := "silent_witness/v2"
  const SCHEMA_REVOCATION: string := "revocation_witness/v1"

  function ParsePublicInputs(schema: string, input: Bytes): Result<Parsed, Rejection>
  {
    if schema == SCHEMA_SILENT then
      var r := ParseSilent(input);
      if r.Ok? then Ok(Silent(r.value)) else Err(r.error)
    else if schema == SCHEMA_SILENT_V2 then
      var r := ParseSilentV2(input);
      if r.Ok? then Ok(Silent(r.value)) else Err(r.error)
    else if schema == SCHEMA_REVOCATION then
      var r := ParseRevocation(input);
      if r.Ok? then Ok(Revocation(r.value)) else Err(r.error)
    else Err(Rejection(UnknownSchema, "schema"))
  }

  predicate WellFormed(schema: string, v: Parsed)
  {
    if schema == SCHEMA_SILENT then v.Silent? && WellFormedSilent(v.s)
    else if schema == SCHEMA_SILENT_V2 then v.Silent? && WellFormedSilentV2(v.s)
    else schema == SCHEMA_REVOCATION && v.Revocation? && WellFormedRevocation(v.r)
  }

  function Serialise(schema: string, v: Parsed): Bytes
    requires WellFormed(schema, v)
  {
    if schema == SCHEMA_SILENT then Join(SilentFields(v.s))
    else if schema == SCHEMA_SILENT_V2 then Join(SilentV2Fields(v.s))
    else Join(RevocationFields(v.r))
  }

  lemma ParseOfSerialise(schema: string, v: Parsed)
    requires WellFormed(schema, v)
    ensures ParsePublicInputs(schema, Serialise(schema, v)) == Ok(v)
  {
    if schema == SCHEMA_SILENT {
      ParseOfSilent(v.s);
    } else if schema == SCHEMA_SILENT_V2 {
      ParseOfSilentV2(v.s);
    } else {
      ParseOfRevocation(v.r);
    }
  }

  lemma SerialiseOfParse(schema: string, input: Bytes)
    requires ParsePublicInputs(schema, input).Ok?
    ensures WellFormed(schema, ParsePublicInputs(schema, input).value)
    ensures Serialise(schema, ParsePublicInputs(schema, input).value) == input
  {
    if schema == SCHEMA_SILENT {
      SilentOfParse(input);
    } else if schema == SCHEMA_SILENT_V2 {
      SilentV2OfParse(input);
    } else {
      RevocationOfParse(input);
    }
  }

  function CheckProofBounds(proof: Bytes): Option<Rejection>
  {
    if |proof| < MIN_PROOF_BYTES then Some(Rejection(ProofUndersize, "proof"))
    else if |proof| > MAX_PROOF_BYTES then Some(Rejection(ProofOversize, "proof"))
    else None
  }

  /** Public inputs first, then the proof; the first check that fails gives the code. `parse` gives the code
      with which a schema refuses decoded inputs, if it does. */
  function ClassifyWith(parse: Bytes -> Option<RejectCode>, inputsHex: string, proofHex: string): Option<RejectCode>
  {
    var inputs := DecodeHex(inputsHex, "public_inputs", Length);
    if inputs.Err? then Some(inputs.error.code)
    else if parse(inputs.value).Some? then parse(inputs.value)
    else
      var proof := DecodeHex(proofHex, "proof", ProofOversize);
      if proof.Err? then Some(proof.error.code)
      else
        var bounds := CheckProofBounds(proof.value);
        if bounds.Some? then Some(bounds.value.code) else None
  }

  function ParseCode(schema: string): Bytes -> Option<RejectCode>
  {
    input => var r := ParsePublicInputs(schema, input); if r.Ok? then None else Some(r.error.code)
  }

  function Classify(schema: string, inputsHex: string, proofHex: string): Option<RejectCode>
  {
    ClassifyWith(ParseCode(schema), inputsHex, proofHex)
  }

  /** The text spells the bytes, in either case. */
  predicate Spells(text: string, b: Bytes)
  {
    |text| % 2 == 0 && IsHexText(text) && FromHex(text) == b
  }

  predicate ProofText(text: string)
  {
    IsHexText(text) && |text| % 2 == 0 && 2 * MIN_PROOF_BYTES <= |text| <= 2 * MAX_PROOF_BYTES
  }

  lemma ClassifyWithExact(parse: Bytes -> Option<RejectCode>, inputsHex: string, proofHex: string)
    ensures ClassifyWith(parse, inputsHex, proofHex) == None <==>
            && |inputsHex| <= MAX_HEX_CHARS && |inputsHex| % 2 == 0 && IsHexText(inputsHex)
            && parse(FromHex(inputsHex)) == None && ProofText(proofHex)
  {
  }

  /** Some well-formed value of the schema is spelt by the inputs, and the proof is a text of 64 to 65536 bytes. */
  ghost predicate Acceptable(schema: string, inputsHex: string, proofHex: string)
  {
    && (exists v :: WellFormed(schema, v) && Spells(inputsHex, Serialise(schema, v)))
    && ProofText(proofHex)
  }

  /** Classification accepts exactly the spellings of well-formed values with a proof of admissible size. */
  lemma ClassifyExact(schema: string, inputsHex: string, proofHex: string)
    ensures Classify(schema, inputsHex, proofHex) == None <==> Acceptable(schema, inputsHex, proofHex)
  {
    if Classify(schema, inputsHex, proofHex) == None {
      ClassifyWithExact(ParseCode(schema), inputsHex, proofHex);
      AcceptedSpells(schema, inputsHex);
    }
    if Acceptable(schema, inputsHex, proofHex) {
      var v :| WellFormed(schema, v) && Spells(inputsHex, Serialise(schema, v));
      SerialisedAccepted(schema, v);
      SpellingAccepted(ParseCode(schema), Serialise(schema, v), inputsHex, proofHex);
    }
  }

  lemma AcceptedSpells(schema: string, text: string)
    requires |text| % 2 == 0 && IsHexText(text) && ParseCode(schema)(FromHex(text)) == None
    ensures exists v :: WellFormed(schema, v) && Spells(text, Serialise(schema, v))
  {
    SerialiseOfParse(schema, FromHex(text));
    assert Spells(text, Serialise(schema, ParsePublicInputs(schema, FromHex(text)).value));
  }

  lemma SerialisedAccepted(schema: string, v: Parsed)
    requires WellFormed(schema, v)
    ensures |Serialise(schema, v)| <= 256 && ParseCode(schema)(Serialise(schema, v)) == None
  {
    NoCodeForSerialised(schema, v);
    SerialisedLength(schema, v);
  }

  lemma SpellingAccepted(parse: Bytes -> Option<RejectCode>, b: Bytes, inputsHex: string, proofHex: string)
    requires Spells(inputsHex, b) && |b| <= 256 && parse(b) == None && ProofText(proofHex)
    ensures ClassifyWith(parse, inputsHex, proofHex) == None
  {
  }

  lemma NoCodeForSerialised(schema: string, v: Parsed)
    requires WellFormed(schema, v)
    ensures ParseCode(schema)(Serialise(schema, v)) == None
  {
    ParseOfSerialise(schema, v);
    NoCodeWhenParsed(schema, Serialise(schema, v));
  }

  lemma NoCodeWhenParsed(schema: string, input: Bytes)
    requires ParsePublicInputs(schema, input).Ok?
    ensures ParseCode(schema)(input) == None
  {
  }

  lemma SerialisedLength(schema: string, v: Parsed)
    requires WellFormed(schema, v)
    ensures |Serialise(schema, v)| <= 256
  {
    if schema == SCHEMA_SILENT {
      JoinAt(SilentFields(v.s), 0);
    } else if schema == SCHEMA_SILENT_V2 {
      JoinAt(SilentV2Fields(v.s), 0);
    } else {
      TagNotZero();
      JoinAt(RevocationFields(v.r), 0);
    }
  }

  /** Non-malleability: two accepted texts that parse to one value differ at most in the case of their digits. */
  lemma AcceptedTextUnique(schema: string, a: string, b: string)
    requires |a| % 2 == 0 && |b| % 2 == 0 && IsHexText(a) && IsHexText(b)
    requires ParsePublicInputs(schema, FromHex(a)).Ok?
    requires ParsePublicInputs(schema, FromHex(a)) == ParsePublicInputs(schema, FromHex(b))
    ensures |a| == |b| && forall i :: 0 <= i < |a| ==> HexValue(a[i]) == HexValue(b[i])
  {
    SerialiseOfParse(schema, FromHex(a));
    SerialiseOfParse(schema, FromHex(b));
    FromHexInjective(a, b);
  }
}
