/** The metadata envelope: magic, big-endian length, SHA-256 of the body, compressed canonical JSON. */
module Envelope {
  import opened Bits
  import opened Outcomes

  type Bytes = seq<Byte>

  const MAGIC_V1: Bytes := [0x48, 0x52, 0x50, 0x53, 0x54, 0x47, 0x31] // HRPSTG1
  const MAGIC_V2: Bytes := [0x48, 0x52, 0x50, 0x53, 0x54, 0x47, 0x32] // HRPSTG2
  const MAX_PAYLOAD_BYTES: nat := 64 * 1024
  const MAX_DECOMPRESSED_BYTES: nat := MAX_PAYLOAD_BYTES
  const HEADER_BYTES: nat := 7 + 4 + 32

  /** A JSON value; a number that is not an integer is kept as its text. */
  datatype Json =
    | Null
    | Bool(b: bool)
    | Int(i: int)
    | Number(text: string)
    | Str(s: string)
    | Arr(items: seq<Json>)
    | Obj(fields: Metadata)

  type Metadata = map<string, Json>

  datatype Inflation =
    | Corrupt
    | Inflated(data: Bytes, unconsumedTail: bool, eof: bool, unusedData: bool)

  /** The library routines the envelope is built from. */
  datatype Codecs = Codecs(
    json: Metadata -> Bytes,
    parse: Bytes -> Option<Json>,
    deflate: Bytes -> Bytes,
    inflate: (Bytes, nat) -> Inflation,
    sha256: Bytes -> Bytes,
    instant: string -> Option<real>)

  /** What the model takes from the libraries for one metadata object: its text parses back to it, the compressed
      text inflates back, and the digest of the body has 32 bytes. */
  ghost predicate Inverts(c: Codecs, m: Metadata)
  {
    var text := c.json(m);
    && c.parse(text) == Some(Obj(m))
    && (|text| <= MAX_DECOMPRESSED_BYTES ==>
          c.inflate(c.deflate(text), MAX_DECOMPRESSED_BYTES + 1) == Inflated(text, false, true, false))
    && |c.sha256(c.deflate(text))| == 32
  }

  datatype MetadataError =
    | MissingField(field: string)
    | InvalidField(field: string)
    | UnsupportedVersion
    | Oversized

  /** Required fields in the order in which a missing one is reported. */
  const REQUIRED: seq<string> := ["proofId", "protocol", "sourceHash", "tier", "timestamp", "version"]
  const ALLOWED_TIERS: set<string> := {"silent", "source", "seal"}

  predicate IsHexDigit(c: char)
  {
    '0' <= c <= '9' || 'a' <= c <= 'f' || 'A' <= c <= 'F'
  }

  predicate IsHex32(v: Json)
  {
    v.Str? && |v.s| == 64 && forall i :: 0 <= i < 64 ==> IsHexDigit(v.s[i])
  }

  function FirstMissing(m: Metadata, names: seq<string>): Option<string>
  {
    if names == [] then None
    else if names[0] !in m then Some(names[0])
    else FirstMissing(m, names[1..])
  }

  lemma {:induction false} NothingMissing(m: Metadata, names: seq<string>)
    ensures FirstMissing(m, names).None? <==> forall n :: n in names ==> n in m
  {
    if names != [] { NothingMissing(m, names[1..]); }
  }

  /** A timestamp is accepted when it is a zoned ISO-8601 instant at most five minutes ahead of the clock. */
  predicate TimestampOk(c: Codecs, v: Json, now: real)
  {
    v.Str? && c.instant(v.s).Some? && c.instant(v.s).value <= now + 300.0
  }

  function BaseError(c: Codecs, m: Metadata, now: real): Option<MetadataError>
  {
    NothingMissing(m, REQUIRED);
    var missing := FirstMissing(m, REQUIRED);
    if missing.Some? then Some(MissingField(missing.value))
    else if m["protocol"] != Str("harpocrates") then Some(InvalidField("protocol"))
    else if !(m["tier"].Str? && m["tier"].s in ALLOWED_TIERS) then Some(InvalidField("tier"))
    else if !IsHex32(m["sourceHash"]) then Some(InvalidField("sourceHash"))
    else if !IsHex32(m["proofId"]) then Some(InvalidField("proofId"))
    else if !TimestampOk(c, m["timestamp"], now) then Some(InvalidField("timestamp"))
    else None
  }

  function ValidateV1(c: Codecs, m: Metadata, now: real): Result<Metadata, MetadataError>
  {
    NothingMissing(m, REQUIRED);
    var e := BaseError(c, m, now);
    if e.Some? then Err(e.value)
    else if m["version"] != Int(1) then Err(InvalidField("version"))
    else Ok(m)
  }

  /** Version two raises an older version number to two and keeps every other field. */
  function ValidateV2(c: Codecs, m: Metadata, now: real): Result<Metadata, MetadataError>
  {
    NothingMissing(m, REQUIRED);
    var e := BaseError(c, m, now);
    if e.Some? then Err(e.value)
    else if !m["version"].Int? then Err(InvalidField("version"))
    else if m["version"].i < 2 then Ok(m["version" := Int(2)])
    else Ok(m)
  }

  /** The validation that goes with an envelope version. */
  function Canonical(c: Codecs, m: Metadata, version: int, now: real): Result<Metadata, MetadataError>
  {
    if version == 1 then ValidateV1(c, m, now) else ValidateV2(c, m, now)
  }

  function U32(n: nat): (b: Bytes)
    requires n < 0x1_0000_0000
    ensures |b| == 4
  {
    [n / 0x100_0000, n / 0x1_0000 % 0x100, n / 0x100 % 0x100, n % 0x100]
  }

  function ReadU32(b: Bytes): nat
    requires |b| == 4
  {
    0x100_0000 * Nat(b[0]) + 0x1_0000 * Nat(b[1]) + 0x100 * Nat(b[2]) + b[3]
  }

  function Nat(b: Byte): nat { b }

  lemma ReadU32OfU32(n: nat)
    requires n < 0x1_0000_0000
    ensures ReadU32(U32(n)) == n
  {
    var a, b := n / 0x100, n / 0x1_0000;
    assert n == 0x100 * a + n % 0x100;
    assert a / 0x100 == b && b / 0x100 == n / 0x100_0000;
    assert a == 0x100 * b + a % 0x100;
    assert b == 0x100 * (n / 0x100_0000) + b % 0x100;
  }

  /** Magic, length, digest and body in sequence. */
  function Frame(c: Codecs, magic: Bytes, body: Bytes): Bytes
    requires |body| <= MAX_PAYLOAD_BYTES
  {
    magic + U32(|body|) + c.sha256(body) + body
  }

  function MagicOf(version: int): Bytes
  {
    if version == 1 then MAGIC_V1 else MAGIC_V2
  }

  function VersionOf(magic: Bytes): int
  {
    if magic == MAGIC_V1 then 1 else 2
  }

  lemma VersionOfMagic(version: int)
    requires version == 1 || version == 2
    ensures VersionOf(MagicOf(version)) == version
  {
    assert MAGIC_V1[6] != MAGIC_V2[6];
  }

  function Pack(c: Codecs, m: Metadata, version: int, now: real): Result<Bytes, MetadataError>
  {
    if version != 1 && version != 2 then Err(UnsupportedVersion)
    else
      var v := Canonical(c, m, version, now);
      if v.Err? then Err(v.error)
      else
        var canonical := c.json(v.value);
        if |canonical| > MAX_DECOMPRESSED_BYTES then Err(Oversized)
        else
          var body := c.deflate(canonical);
          if |body| > MAX_PAYLOAD_BYTES then Err(Oversized)
          else Ok(Frame(c, MagicOf(version), body))
  }

  function Decompress(c: Codecs, body: Bytes): Option<Bytes>
  {
    var r := c.inflate(body, MAX_DECOMPRESSED_BYTES + 1);
    if r.Corrupt? then None
    else if |r.data| > MAX_DECOMPRESSED_BYTES then None
    else if r.unconsumedTail then None
    else if !r.eof then None
    else if r.unusedData then None
    else Some(r.data)
  }

  /** What the body of an accepted envelope denotes under its magic. */
  function Meaning(c: Codecs, magic: Bytes, body: Bytes, now: real): Option<Metadata>
  {
    var inflated := Decompress(c, body);
    if inflated.None? then None
    else
      var value := c.parse(inflated.value);
      if value.None? || !value.value.Obj? then None
      else
        var v := Canonical(c, value.value.fields, VersionOf(magic), now);
        if v.Err? then None else Some(v.value)
  }

  function Unpack(c: Codecs, data: Bytes, now: real): Option<Metadata>
  {
    if |data| < HEADER_BYTES then None
    else if data[..7] != MAGIC_V1 && data[..7] != MAGIC_V2 then None
    else
      var size := ReadU32(data[7..11]);
      if size > MAX_PAYLOAD_BYTES then None
      else if |data| < HEADER_BYTES + size then None
      else
        var body := data[HEADER_BYTES..HEADER_BYTES + size];
        if c.sha256(body) != data[11..HEADER_BYTES] then None
        else Meaning(c, data[..7], body, now)
  }

  // ----- which metadata is accepted, field by field

  predicate HasFields(m: Metadata)
  {
    && "protocol" in m && "version" in m && "tier" in m && "sourceHash" in m && "proofId" in m && "timestamp" in m
  }

  /** The five fields whose values both versions ask for. */
  predicate WellFormed(c: Codecs, m: Metadata, now: real)
  {
    && HasFields(m)
    && m["protocol"] == Str("harpocrates")
    && m["tier"] in {Str("silent"), Str("source"), Str("seal")}
    && IsDigest(m["sourceHash"]) && IsDigest(m["proofId"])
    && m["timestamp"].Str? && c.instant(m["timestamp"].s).Some?
    && c.instant(m["timestamp"].s).value - now <= 300.0
  }

  /** Sixty-four hexadecimal digits in either case. */
  predicate IsDigest(v: Json)
  {
    v.Str? && |v.s| == 64 && forall i :: 0 <= i < 64 ==> v.s[i] in "0123456789abcdefABCDEF"
  }

  lemma HexDigits(c: char)
    ensures IsHexDigit(c) <==> c in "0123456789abcdefABCDEF"
  {
    var all := "0123456789abcdefABCDEF";
    assert all[0] == '0' && all[1] == '1' && all[2] == '2' && all[3] == '3' && all[4] == '4' && all[5] == '5';
    assert all[6] == '6' && all[7] == '7' && all[8] == '8' && all[9] == '9' && all[10] == 'a' && all[11] == 'b';
    assert all[12] == 'c' && all[13] == 'd' && all[14] == 'e' && all[15] == 'f' && all[16] == 'A' && all[17] == 'B';
    assert all[18] == 'C' && all[19] == 'D' && all[20] == 'E' && all[21] == 'F';
  }

  lemma HexIsDigest(v: Json)
    ensures IsHex32(v) <==> IsDigest(v)
  {
    if v.Str? && |v.s| == 64 {
      forall i | 0 <= i < 64 ensures IsHexDigit(v.s[i]) <==> v.s[i] in "0123456789abcdefABCDEF" {
        HexDigits(v.s[i]);
      }
    }
  }

  predicate IsRequired(n: string)
  {
    n == "protocol" || n == "version" || n == "tier" || n == "sourceHash" || n == "proofId" || n == "timestamp"
  }

  lemma RequiredNames(n: string)
    ensures n in REQUIRED <==> IsRequired(n)
  {
    assert REQUIRED[0] == "proofId" && REQUIRED[1] == "protocol" && REQUIRED[2] == "sourceHash";
    assert REQUIRED[3] == "tier" && REQUIRED[4] == "timestamp" && REQUIRED[5] == "version";
  }

  lemma FieldsThere(m: Metadata)
    ensures FirstMissing(m, REQUIRED).None? <==> HasFields(m)
  {
    NothingMissing(m, REQUIRED);
    forall n ensures n in REQUIRED <==> IsRequired(n) {
      RequiredNames(n);
    }
  }

  lemma NoBaseError(c: Codecs, m: Metadata, now: real)
    ensures BaseError(c, m, now).None? <==> WellFormed(c, m, now)
  {
    FieldsThere(m);
    if HasFields(m) {
      HexIsDigest(m["sourceHash"]);
      HexIsDigest(m["proofId"]);
    }
  }

  /** Metadata is accepted exactly when the five fields are in order and the version is one, for version one, or any
      integer, for version two. */
  lemma AcceptedIff(c: Codecs, m: Metadata, version: int, now: real)
    requires version == 1 || version == 2
    ensures Canonical(c, m, version, now).Ok? <==>
            WellFormed(c, m, now) && m["version"].Int? && (version == 1 ==> m["version"].i == 1)
  {
    NoBaseError(c, m, now);
    FieldsThere(m);
  }

  /** A missing field is reported before any other fault, and of several the first in the alphabet. */
  lemma MissingReported(c: Codecs, m: Metadata, version: int, now: real)
    requires !HasFields(m)
    ensures Canonical(c, m, version, now) ==
            Err(MissingField(if "proofId" !in m then "proofId" else if "protocol" !in m then "protocol"
                             else if "sourceHash" !in m then "sourceHash" else if "tier" !in m then "tier"
                             else if "timestamp" !in m then "timestamp" else "version"))
  {
    FieldsThere(m);
    MissingFrom(m);
  }

  lemma MissingFrom(m: Metadata)
    requires !HasFields(m)
    ensures FirstMissing(m, REQUIRED) ==
            Some(if "proofId" !in m then "proofId" else if "protocol" !in m then "protocol"
                 else if "sourceHash" !in m then "sourceHash" else if "tier" !in m then "tier"
                 else if "timestamp" !in m then "timestamp" else "version")
  {
    var r1 := REQUIRED[1..];
    var r2 := r1[1..];
    var r3 := r2[1..];
    var r4 := r3[1..];
    assert r1[0] == "protocol" && r2[0] == "sourceHash" && r3[0] == "tier";
    assert r4[0] == "timestamp" && r4[1..][0] == "version";
    MissingNext(m, REQUIRED);
    MissingNext(m, r1);
    MissingNext(m, r2);
    MissingNext(m, r3);
    MissingNext(m, r4);
    MissingNext(m, r4[1..]);
  }

  lemma MissingNext(m: Metadata, names: seq<string>)
    requires names != []
    ensures FirstMissing(m, names) == if names[0] !in m then Some(names[0]) else FirstMissing(m, names[1..])
  {
  }

  /** An invalid field is reported only when those looked at before it are in order. */
  lemma InvalidReported(c: Codecs, m: Metadata, version: int, now: real)
    requires HasFields(m) && Canonical(c, m, version, now).Err?
    ensures var protocol := m["protocol"] == Str("harpocrates");
            var tier := m["tier"] in {Str("silent"), Str("source"), Str("seal")};
            Canonical(c, m, version, now) ==
            Err(InvalidField(if !protocol then "protocol" else if !tier then "tier"
                             else if !IsDigest(m["sourceHash"]) then "sourceHash"
                             else if !IsDigest(m["proofId"]) then "proofId"
                             else if !WellFormed(c, m, now) then "timestamp" else "version"))
  {
    FieldsThere(m);
    NoBaseError(c, m, now);
    HexIsDigest(m["sourceHash"]);
    HexIsDigest(m["proofId"]);
  }

  // ----- the bytes

  /** What is packed: seven letters that end in the version, the length of the body from its highest byte, the digest of
      the body, and the body. Metadata of more than 64 KiB, before or after compression, is refused. */
  lemma PackedBytes(c: Codecs, m: Metadata, version: int, now: real)
    ensures Pack(c, m, version, now).Ok? <==>
            && (version == 1 || version == 2) && Canonical(c, m, version, now).Ok?
            && |c.json(Canonical(c, m, version, now).value)| <= 65536
            && |c.deflate(c.json(Canonical(c, m, version, now).value))| <= 65536
    ensures Pack(c, m, version, now).Ok? ==>
              var p, body := Pack(c, m, version, now).value, c.deflate(c.json(Canonical(c, m, version, now).value));
              |c.sha256(body)| == 32 ==>
                && |p| == 43 + |body|
                && p[..7] == [72, 82, 80, 83, 84, 71, 48 + version]
                && 16777216 * Nat(p[7]) + 65536 * Nat(p[8]) + 256 * Nat(p[9]) + p[10] == |body|
                && p[11..43] == c.sha256(body) && p[43..] == body
    ensures Pack(c, m, version, now).Err? ==>
              Pack(c, m, version, now).error == if version != 1 && version != 2 then UnsupportedVersion
                                                else if Canonical(c, m, version, now).Err?
                                                then Canonical(c, m, version, now).error else Oversized
  {
    if Pack(c, m, version, now).Ok? {
      var p, body := Pack(c, m, version, now).value, c.deflate(c.json(Canonical(c, m, version, now).value));
      if |c.sha256(body)| == 32 {
        FrameParts(c, MagicOf(version), body);
        LengthBytes(p[7..11], p);
      }
    }
  }

  lemma LengthBytes(b: Bytes, p: Bytes)
    requires |p| >= 11 && b == p[7..11]
    ensures ReadU32(b) == 16777216 * Nat(p[7]) + 65536 * Nat(p[8]) + 256 * Nat(p[9]) + p[10]
  {
    assert b[0] == p[7] && b[1] == p[8] && b[2] == p[9] && b[3] == p[10];
  }

  /** The body inflates completely, to no more than 64 KiB, and the text is an object accepted under the version. */
  ghost predicate Denotes(c: Codecs, version: int, body: Bytes, now: real, m: Metadata)
  {
    exists text: Bytes, m0: Metadata ::
      && c.inflate(body, 65537) == Inflated(text, false, true, false) && |text| <= 65536
      && c.parse(text) == Some(Obj(m0)) && Canonical(c, m0, version, now) == Ok(m)
  }

  ghost predicate Opens(c: Codecs, data: Bytes, now: real, m: Metadata, version: int, body: Bytes, rest: Bytes)
  {
    && (version == 1 || version == 2) && |body| <= 65536 && |c.sha256(body)| == 32
    && data == Frame(c, MagicOf(version), body) + rest && Denotes(c, version, body, now, m)
  }

  lemma MeaningIff(c: Codecs, version: int, body: Bytes, now: real, m: Metadata)
    requires version == 1 || version == 2
    ensures Meaning(c, MagicOf(version), body, now) == Some(m) <==> Denotes(c, version, body, now, m)
  {
    VersionOfMagic(version);
    var r := c.inflate(body, 65537);
    if Meaning(c, MagicOf(version), body, now) == Some(m) {
      assert r == Inflated(r.data, false, true, false) && c.parse(r.data) == Some(Obj(c.parse(r.data).value.fields));
    }
  }

  lemma OpensUnpacks(c: Codecs, data: Bytes, now: real, m: Metadata, version: int, body: Bytes, rest: Bytes)
    requires Opens(c, data, now, m, version, body, rest)
    ensures Unpack(c, data, now) == Some(m)
  {
    var magic := MagicOf(version);
    var p := Frame(c, magic, body);
    FrameParts(c, magic, body);
    MeaningIff(c, version, body, now, m);
    assert data[..7] == p[..7] && data[7..11] == p[7..11] && data[11..HEADER_BYTES] == p[11..HEADER_BYTES];
    assert data[HEADER_BYTES..HEADER_BYTES + |body|] == p[HEADER_BYTES..];
  }

  lemma {:induction false} U32OfReadU32(b: Bytes)
    requires |b| == 4
    ensures ReadU32(b) < 0x1_0000_0000 && U32(ReadU32(b)) == b
  {
    var n := ReadU32(b);
    assert n / 0x100 == 0x1_0000 * Nat(b[0]) + 0x100 * Nat(b[1]) + b[2];
    assert n / 0x1_0000 == 0x100 * Nat(b[0]) + b[1];
    assert n / 0x100_0000 == b[0];
  }

  lemma UnpackedOpens(c: Codecs, data: Bytes, now: real, m: Metadata) returns (version: int, body: Bytes, rest: Bytes)
    requires Unpack(c, data, now) == Some(m)
    ensures Opens(c, data, now, m, version, body, rest)
  {
    var size := ReadU32(data[7..11]);
    version := VersionOf(data[..7]);
    body, rest := data[HEADER_BYTES..HEADER_BYTES + size], data[HEADER_BYTES + size..];
    U32OfReadU32(data[7..11]);
    MeaningIff(c, version, body, now, m);
    FiveParts(data, size);
  }

  lemma FiveParts(data: Bytes, size: nat)
    requires |data| >= HEADER_BYTES + size
    ensures data == data[..7] + data[7..11] + data[11..HEADER_BYTES] + data[HEADER_BYTES..HEADER_BYTES + size]
                    + data[HEADER_BYTES + size..]
  {
  }

  /** Bytes unpack to metadata exactly when they begin with a frame, of either version, whose body denotes it; what
      follows the frame plays no part. */
  lemma UnpackIff(c: Codecs, data: Bytes, now: real, m: Metadata)
    ensures Unpack(c, data, now) == Some(m) <==>
            exists version, body, rest :: Opens(c, data, now, m, version, body, rest)
  {
    if Unpack(c, data, now) == Some(m) {
      var version, body, rest := UnpackedOpens(c, data, now, m);
    }
    if version, body, rest :| Opens(c, data, now, m, version, body, rest) {
      OpensUnpacks(c, data, now, m, version, body, rest);
    }
  }

  /** Validating validated metadata later changes nothing: the clock only moves the timestamp bound forward. */
  lemma ValidationStable(c: Codecs, m: Metadata, version: int, now: real, later: real)
    requires now <= later && Canonical(c, m, version, now).Ok?
    ensures Canonical(c, Canonical(c, m, version, now).value, version, later) == Canonical(c, m, version, now)
  {
    NothingMissing(m, REQUIRED);
    var m' := Canonical(c, m, version, now).value;
    NothingMissing(m', REQUIRED);
    assert forall n :: n in REQUIRED ==> n in m && n in m';
    assert "version" in REQUIRED by { assert REQUIRED[5] == "version"; }
    assert m'["version"] == if version == 1 then Int(1) else if m["version"].i < 2 then Int(2) else m["version"];
    assert forall n :: n in m && n != "version" ==> m'[n] == m[n];
    assert m' == m'["version" := m'["version"]];
  }

  /** Validation keeps the set of fields and every value but the version number; version one leaves it at one,
      version two raises it to at least two and never lowers it. */
  lemma CanonicalKeepsFields(c: Codecs, m: Metadata, version: int, now: real)
    requires (version == 1 || version == 2) && Canonical(c, m, version, now).Ok?
    ensures var m' := Canonical(c, m, version, now).value;
            && m'.Keys == m.Keys
            && (forall n :: n in m && n != "version" ==> m'[n] == m[n])
            && "version" in m && m["version"].Int?
            && m'["version"] == Int(if version == 1 then 1 else if m["version"].i < 2 then 2 else m["version"].i)
  {
    NothingMissing(m, REQUIRED);
    assert "version" in REQUIRED by { assert REQUIRED[5] == "version"; }
  }

  lemma FrameParts(c: Codecs, magic: Bytes, body: Bytes)
    requires |c.sha256(body)| == 32 && |magic| == 7 && |body| <= MAX_PAYLOAD_BYTES
    ensures var p := Frame(c, magic, body);
            && |p| == HEADER_BYTES + |body|
            && p[..7] == magic && p[7..11] == U32(|body|) && ReadU32(p[7..11]) == |body|
            && p[11..HEADER_BYTES] == c.sha256(body) && p[HEADER_BYTES..] == body
  {
    ReadU32OfU32(|body|);
  }

  lemma UnpackOfFrame(c: Codecs, magic: Bytes, body: Bytes, now: real)
    requires |c.sha256(body)| == 32 && |body| <= MAX_PAYLOAD_BYTES
    requires magic == MAGIC_V1 || magic == MAGIC_V2
    ensures Unpack(c, Frame(c, magic, body), now) == Meaning(c, magic, body, now)
  {
    FrameParts(c, magic, body);
    var p := Frame(c, magic, body);
    assert p[HEADER_BYTES..HEADER_BYTES + |body|] == p[HEADER_BYTES..];
  }

  /** Unpacking what was packed, now or at any later time, gives the validated and upgraded metadata. */
  lemma UnpackOfPack(c: Codecs, m: Metadata, version: int, now: real, later: real, m': Metadata)
    requires Pack(c, m, version, now).Ok? && Canonical(c, m, version, now) == Ok(m') && Inverts(c, m') && now <= later
    ensures Unpack(c, Pack(c, m, version, now).value, later) == Some(m')
  {
    var body := c.deflate(c.json(m'));
    UnpackOfFrame(c, MagicOf(version), body, later);
    VersionOfMagic(version);
    BodyBack(c, m');
    ValidationStable(c, m, version, now, later);
  }

  lemma BodyBack(c: Codecs, m: Metadata)
    requires Inverts(c, m) && |c.json(m)| <= MAX_DECOMPRESSED_BYTES
    ensures Decompress(c, c.deflate(c.json(m))) == Some(c.json(m)) && c.parse(c.json(m)) == Some(Obj(m))
  {
  }

  /** The 43 header bytes pin the metadata: two accepted envelopes with the same header and no digest
      collision between their bodies mean the same, whatever follows the body. */
  lemma HeaderPinsMetadata(c: Codecs, header: Bytes, body: Bytes, rest: Bytes, body': Bytes, rest': Bytes, now: real)
    requires |header| == HEADER_BYTES && |body| == |body'| == ReadU32(header[7..11])
    requires c.sha256(body) == c.sha256(body') ==> body == body'
    requires Unpack(c, header + body + rest, now).Some? && Unpack(c, header + body' + rest', now).Some?
    ensures Unpack(c, header + body + rest, now) == Unpack(c, header + body' + rest', now)
  {
    AcceptedParts(c, header, body, rest, now);
    AcceptedParts(c, header, body', rest', now);
  }

  lemma AcceptedParts(c: Codecs, header: Bytes, body: Bytes, rest: Bytes, now: real)
    requires |header| == HEADER_BYTES && |body| == ReadU32(header[7..11])
    requires Unpack(c, header + body + rest, now).Some?
    ensures c.sha256(body) == header[11..]
    ensures Unpack(c, header + body + rest, now) == Meaning(c, header[..7], body, now)
  {
    var d := header + body + rest;
    assert d[..7] == header[..7] && d[7..11] == header[7..11] && d[11..HEADER_BYTES] == header[11..];
    assert d[HEADER_BYTES..HEADER_BYTES + |body|] == body;
  }
}
