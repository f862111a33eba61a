/** The codec for verifier inputs by byte offset and by reject code: where each part of an accepted input stands,
    and which code the first failing check gives. */
module InputCodes {
  import opened Outcomes
  import opened Bits
  import opened Numerals
  import opened BigEndian
  import opened VerifierInputs

  // ----- digits

  /** A hexadecimal digit counts as its place in either alphabet. */
  lemma HexTable(c: char, n: nat)
    requires n < 16
    ensures IsHexDigit(c) && HexValue(c) == n <==> c == "0123456789abcdef"[n] || c == "0123456789ABCDEF"[n]
  {
  }

  /** The number a decimal text denotes. */
  function Denoted(s: string): nat
    requires forall i :: 0 <= i < |s| ==> '0' <= s[i] <= '9'
  {
    if s == [] then 0 else 10 * Denoted(s[..|s| - 1]) + (s[|s| - 1] - '0') as int
  }

  lemma {:induction false} DecimalDenotes(n: nat)
    ensures Denoted(Decimal(n)) == n && (n > 0 ==> Decimal(n)[0] != '0')
  {
    if n >= 10 {
      DecimalDenotes(n / 10);
      var s := Decimal(n);
      assert s[..|s| - 1] == Decimal(n / 10);
    }
  }

  // ----- values of public inputs

  /** Sixteen for a text that begins with 0x in either case, ten otherwise. */
  function Base(s: string): nat
  {
    if "0x" <= s || "0X" <= s then 16 else 10
  }

  predicate Readable(read: Reader, v: FieldValue)
  {
    v.IntValue? || (v.TextValue? && v.s != "" && read(v.s, Base(v.s)).Some?)
  }

  function Number(read: Reader, v: FieldValue): int
    requires Readable(read, v)
  {
    if v.IntValue? then v.n else read(v.s, Base(v.s)).value
  }

  predicate LowerHex(s: string)
  {
    forall i :: 0 <= i < |s| ==> '0' <= s[i] <= '9' || 'a' <= s[i] <= 'f'
  }

  lemma BaseOf(s: string)
    ensures Base(s) == if |s| >= 2 && s[0] == '0' && (s[1] == 'x' || s[1] == 'X') then 16 else 10
  {
    if |s| >= 2 {
      assert "0x" <= s <==> s[0] == '0' && s[1] == 'x' by { assert s[..2] == [s[0], s[1]]; }
      assert "0X" <= s <==> s[0] == '0' && s[1] == 'X' by { assert s[..2] == [s[0], s[1]]; }
    }
  }

  lemma {:induction false} HexTextLower(n: nat, k: nat)
    ensures LowerHex(HexText(n, k))
  {
    if k > 0 { HexTextLower(n / 16, k - 1); }
  }

  /** A value is encoded exactly when it reads as a number below the modulus, as 64 lower-case digits of that number;
      otherwise it is malformed or not canonical. */
  lemma FieldEncoded(read: Reader, v: FieldValue, field: string)
    ensures var r := EncodeField(read, v, field);
            if !Readable(read, v) then r == Err(Rejection(MalformedHex, field))
            else if !(0 <= Number(read, v) < MODULUS) then r == Err(Rejection(NonCanonicalField, field))
            else r.Ok? && |r.value| == 64 && LowerHex(r.value) && FromBytes(FromHex(r.value)) == Number(read, v)
  {
    if v.TextValue? { BaseOf(v.s); }
    if Readable(read, v) && 0 <= Number(read, v) < MODULUS { HexOfElement(Number(read, v)); }
  }

  lemma HexOfElement(n: nat)
    requires n < MODULUS
    ensures LowerHex(HexText(n, 64)) && FromBytes(FromHex(HexText(n, 64))) == n
  {
    HexTextLower(n, 64);
    FromHexOfHexText(n, 32);
    ElementBack(n);
  }

  predicate Encodable(read: Reader, v: FieldValue)
  {
    Readable(read, v) && 0 <= Number(read, v) < MODULUS
  }

  /** The first value that cannot be encoded is reported under its name, or under its place if it has none. */
  lemma {:induction false} VectorRefused(read: Reader, values: seq<FieldValue>, names: seq<string>, i: nat, k: nat)
    requires i <= k < |values| && !Encodable(read, values[k]) && forall j :: i <= j < k ==> Encodable(read, values[j])
    ensures var name := if k < |names| then names[k] else "field_" + Decimal(k);
            EncodeFrom(read, values, names, i) ==
              Err(Rejection(if Readable(read, values[k]) then NonCanonicalField else MalformedHex, name))
    decreases k - i
  {
    FieldEncoded(read, values[i], NameAt(names, i));
    if i < k { VectorRefused(read, values, names, i + 1, k); }
  }

  // ----- the three layouts, by offset

  predicate IsZero(b: Bytes)
  {
    forall i :: 0 <= i < |b| ==> b[i] == 0
  }

  /** A 32-byte field that denotes a number below the modulus of the scalar field. */
  predicate Scalar(b: Bytes)
  {
    |b| == 32 &&
    FromBytes(b) < 21888242871839275222246405745257275088548364400416034343698204186575808495617
  }

  lemma ZeroIff(b: Bytes)
    ensures IsZero(b) <==> b == ZeroBytes(|b|)
  {
    var z := ZeroBytes(|b|);
    assert b == z <==> forall i :: 0 <= i < |b| ==> b[i] == z[i];
  }

  /** The padding and zero checks, and the fields by offset. */
  lemma FieldBytes(input: Bytes, count: nat, i: nat)
    requires |input| == 32 * count && i < count
    ensures SplitFields(input, count).Ok? && |SplitFields(input, count).value| == count
    ensures SplitFields(input, count).value[i] == input[32 * i..32 * i + 32]
    ensures input[32 * i..32 * i + 32][..16] == input[32 * i..32 * i + 16]
    ensures input[32 * i..32 * i + 32][16..] == input[32 * i + 16..32 * i + 32]
  {
    var f := input[32 * i..32 * i + 32];
    assert f[..16] == input[32 * i..32 * i + 16] && f[16..] == input[32 * i + 16..32 * i + 32];
  }

  lemma {:induction false} FirstOdd(fs: seq<Bytes>, names: seq<string>, i: nat, n: nat)
    requires i <= n <= |fs| && n <= |names|
    ensures var odd := FirstNonCanonical(fs, names, i, n);
            && (odd.None? ==> forall j :: i <= j < n ==> Scalar(fs[j]))
            && (forall k :: i <= k < n && !Scalar(fs[k]) && (forall j :: i <= j < k ==> Scalar(fs[j])) ==>
                  odd == Some(names[k]))
    decreases n - i
  {
    if i < n { FirstOdd(fs, names, i + 1, n); }
  }

  lemma PaddedScalar(f: Bytes)
    requires |f| == 32 && HalfPadded(f)
    ensures Scalar(f)
  {
    PaddedIsCanonical(f[16..]);
    assert Padded(f[16..]) == f;
  }

  /** The check that decides a v1 input, in the order of the codec: length, padding, canonicity, zero, domain. */
  lemma SilentByOffset(b: Bytes)
    ensures var r := ParseSilent(b);
            if |b| != 160 then r == Err(Rejection(Length, "public_inputs"))
            else if !IsZero(b[0..16]) then r == Err(Rejection(Padding, "video_hash_hi"))
            else if !IsZero(b[32..48]) then r == Err(Rejection(Padding, "video_hash_lo"))
            else if !Scalar(b[64..96]) then r == Err(Rejection(NonCanonicalField, "credential_root"))
            else if !Scalar(b[96..128]) then r == Err(Rejection(NonCanonicalField, "nullifier"))
            else if IsZero(b[64..96]) then r == Err(Rejection(ZeroField, "credential_root"))
            else if IsZero(b[96..128]) then r == Err(Rejection(ZeroField, "nullifier"))
            else if IsZero(b[128..160]) then r == Err(Rejection(ZeroField, "domain_tag"))
            else if b[128..160] != DOMAIN_TAG then r == Err(Rejection(DomainMismatch, "domain_tag"))
            else r == Ok(SilentWitness(b[16..32] + b[48..64], b[64..96], b[96..128], b[128..160], None, None, None))
  {
    if |b| == 160 {
      var f := SplitFields(b, 5).value;
      FieldBytes(b, 5, 0);
      FieldBytes(b, 5, 1);
      FieldBytes(b, 5, 2);
      FieldBytes(b, 5, 3);
      FieldBytes(b, 5, 4);
      ZeroIff(b[0..16]);
      ZeroIff(b[32..48]);
      ZeroIff(b[64..96]);
      ZeroIff(b[96..128]);
      ZeroIff(b[128..160]);
      FirstOdd(f, SILENT_FIELDS, 0, 4);
      if HalfPadded(f[0]) { PaddedScalar(f[0]); }
      if HalfPadded(f[1]) { PaddedScalar(f[1]); }
    }
  }

  /** The check that decides a v2 input: as v1, with the circuit version between padding and canonicity. */
  lemma SilentV2ByOffset(b: Bytes)
    ensures var r := ParseSilentV2(b);
            if |b| != 256 then r == Err(Rejection(Length, "public_inputs"))
            else if !IsZero(b[0..16]) then r == Err(Rejection(Padding, "video_hash_hi"))
            else if !IsZero(b[32..48]) then r == Err(Rejection(Padding, "video_hash_lo"))
            else if b[224..256] != ZeroBytes(31) + [2] then r == Err(Rejection(VersionMismatch, "circuit_version"))
            else if !Scalar(b[64..96]) then r == Err(Rejection(NonCanonicalField, "credential_root"))
            else if !Scalar(b[96..128]) then r == Err(Rejection(NonCanonicalField, "nullifier"))
            else if !Scalar(b[128..160]) then r == Err(Rejection(NonCanonicalField, "verifier_scope"))
            else if !Scalar(b[160..192]) then r == Err(Rejection(NonCanonicalField, "epoch"))
            else if IsZero(b[64..96]) then r == Err(Rejection(ZeroField, "credential_root"))
            else if IsZero(b[96..128]) then r == Err(Rejection(ZeroField, "nullifier"))
            else if IsZero(b[192..224]) then r == Err(Rejection(ZeroField, "domain_tag"))
            else if b[192..224] != DOMAIN_TAG then r == Err(Rejection(DomainMismatch, "domain_tag"))
            else r == Ok(SilentWitness(b[16..32] + b[48..64], b[64..96], b[96..128], b[192..224],
                                       Some(b[128..160]), Some(b[160..192]), Some(2)))
  {
    if |b| == 256 {
      var f := SplitFields(b, 8).value;
      FieldBytes(b, 8, 0);
      FieldBytes(b, 8, 1);
      FieldBytes(b, 8, 2);
      FieldBytes(b, 8, 3);
      FieldBytes(b, 8, 4);
      FieldBytes(b, 8, 5);
      FieldBytes(b, 8, 6);
      FieldBytes(b, 8, 7);
      ZeroIff(b[0..16]);
      ZeroIff(b[32..48]);
      ZeroIff(b[64..96]);
      ZeroIff(b[96..128]);
      ZeroIff(b[192..224]);
      VersionIsTwo(f[7]);
      FirstOdd(f, SILENT_V2_FIELDS, 0, 6);
      if HalfPadded(f[0]) { PaddedScalar(f[0]); }
      if HalfPadded(f[1]) { PaddedScalar(f[1]); }
    }
  }

  lemma VersionIsTwo(f: Bytes)
    requires |f| == 32
    ensures VersionOf(f) == 2 <==> f == ZeroBytes(31) + [2]
  {
    var v := f[28..];
    assert FromBytes(v) == 2 <==> v == [0, 0, 0, 2] by { FourBytes(v); }
    assert f == f[..28] + v;
    if f == ZeroBytes(31) + [2] {
      assert f[..28] == ZeroBytes(28) && v == [0, 0, 0, 2];
    }
    if f[..28] == ZeroBytes(28) && v == [0, 0, 0, 2] {
      assert f == ZeroBytes(31) + [2];
    }
  }

  lemma FourBytes(v: Bytes)
    requires |v| == 4
    ensures FromBytes(v) == 256 * (256 * (256 * v[0] as int + v[1] as int) + v[2] as int) + v[3] as int
  {
    var a, b, c := v[..3], v[..2], v[..1];
    assert a[..2] == b && b[..1] == c && c[..0] == [];
    assert FromBytes(c) == v[0] as int;
    assert FromBytes(b) == 256 * FromBytes(c) + v[1] as int;
    assert FromBytes(a) == 256 * FromBytes(b) + v[2] as int;
  }

  /** The check that decides a revocation input: length, canonicity of all four fields, zero, domain. */
  lemma RevocationByOffset(b: Bytes)
    ensures var r := ParseRevocation(b);
            if |b| != 128 then r == Err(Rejection(Length, "public_inputs"))
            else if !Scalar(b[0..32]) then r == Err(Rejection(NonCanonicalField, "revocation_root"))
            else if !Scalar(b[32..64]) then r == Err(Rejection(NonCanonicalField, "nullifier"))
            else if !Scalar(b[64..96]) then r == Err(Rejection(NonCanonicalField, "domain_separator"))
            else if !Scalar(b[96..128]) then r == Err(Rejection(NonCanonicalField, "credential_root"))
            else if IsZero(b[0..32]) then r == Err(Rejection(ZeroField, "revocation_root"))
            else if IsZero(b[32..64]) then r == Err(Rejection(ZeroField, "nullifier"))
            else if IsZero(b[96..128]) then r == Err(Rejection(ZeroField, "credential_root"))
            else if !Separates(b[64..96]) then r == Err(Rejection(DomainMismatch, "domain_separator"))
            else r == Ok(RevocationWitness(b[0..32], b[32..64], b[64..96], b[96..128]))
  {
    if |b| == 128 {
      var f := SplitFields(b, 4).value;
      FieldBytes(b, 4, 0);
      FieldBytes(b, 4, 1);
      FieldBytes(b, 4, 2);
      FieldBytes(b, 4, 3);
      ZeroIff(b[0..32]);
      ZeroIff(b[32..64]);
      ZeroIff(b[96..128]);
      SeparatesIff(b[64..96]);
      FirstOdd(f, REVOCATION_FIELDS, 0, 4);
    }
  }

  /** Seven zero bytes, then the name of the domain in ASCII. */
  predicate Separates(f: Bytes)
  {
    var name := "HARPOCRATES_REVOCATION_V1";
    && |f| == 7 + |name|
    && IsZero(f[..7])
    && forall i :: 0 <= i < |name| ==> f[7 + i] as int == name[i] as int
  }

  lemma SeparatesIff(f: Bytes)
    ensures Separates(f) <==> f == SEPARATOR
  {
    if f == SEPARATOR {
      NameSpelt();
      assert f[..7] == ZeroBytes(7) && f[7..] == SEPARATOR_TEXT;
    }
    if Separates(f) {
      NameSpelt();
      ZeroIff(f[..7]);
      assert f[7..] == SEPARATOR_TEXT;
      assert f == f[..7] + f[7..];
    }
  }

  lemma NameSpelt()
    ensures var name := "HARPOCRATES_REVOCATION_V1";
            |name| == |SEPARATOR_TEXT| && forall i :: 0 <= i < |name| ==> SEPARATOR_TEXT[i] as int == name[i] as int
  {
  }

  // ----- the verdict on a case

  /** The code a schema's parser gives, if it refuses the input. */
  function Refusal(schema: string, b: Bytes): Option<RejectCode>
  {
    if schema == "silent_witness/v1" then (if ParseSilent(b).Err? then Some(ParseSilent(b).error.code) else None)
    else if schema == "silent_witness/v2" then
      (if ParseSilentV2(b).Err? then Some(ParseSilentV2(b).error.code) else None)
    else if schema == "revocation_witness/v1" then
      (if ParseRevocation(b).Err? then Some(ParseRevocation(b).error.code) else None)
    else Some(UnknownSchema)
  }

  lemma RefusalIs(schema: string, b: Bytes)
    ensures ParseCode(schema)(b) == Refusal(schema, b)
  {
  }

  /** The code of the first check that fails: the inputs' text, the inputs (refused or not), the proof's text, the
      proof's size. */
  function FirstFailing(inputs: string, refusal: Option<RejectCode>, proof: string): Option<RejectCode>
  {
    if |inputs| > 133_120 then Some(Length)
    else if |inputs| % 2 != 0 || !IsHexText(inputs) then Some(MalformedHex)
    else if refusal.Some? then refusal
    else if |proof| > 133_120 then Some(ProofOversize)
    else if |proof| % 2 != 0 || !IsHexText(proof) then Some(MalformedHex)
    else if |proof| < 128 then Some(ProofUndersize)
    else if |proof| > 131_072 then Some(ProofOversize)
    else None
  }

  predicate DecodesTo(inputs: string, b: Bytes)
  {
    |inputs| % 2 == 0 && IsHexText(inputs) ==> b == FromHex(inputs)
  }

  lemma ClassifyWithCodes(parse: Bytes -> Option<RejectCode>, inputs: string, b: Bytes, proof: string)
    requires DecodesTo(inputs, b)
    ensures ClassifyWith(parse, inputs, proof) == FirstFailing(inputs, parse(b), proof)
  {
  }

  /** The verdict on a case is the code of the first check that fails. */
  lemma ClassifyCodes(schema: string, inputs: string, b: Bytes, proof: string)
    requires DecodesTo(inputs, b)
    ensures Classify(schema, inputs, proof) == FirstFailing(inputs, Refusal(schema, b), proof)
  {
    RefusalIs(schema, b);
    ClassifyWithCodes(ParseCode(schema), inputs, b, proof);
  }
}
