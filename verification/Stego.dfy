/** The steganographic channel over a whole clip: payload bits threaded through the borders of
    successive frames, and repeated in the low bits of every frame. */
module Stego {
  import opened Bits
  import opened Outcomes
  import opened Border
  import opened Frames
  import opened Limits
  import opened Envelope

  // ----- bytes and bits

  function BytesToBits(data: Bytes): (bits: seq<Bit>)
    ensures |bits| == 8 * |data|
  {
    FlattenLength(data, 8);
    Flatten(data, 8)
  }

  /** Bit 8i+j of the stream is bit 7-j of byte i. */
  lemma {:induction false} BytesToBitsAt(data: Bytes, i: nat, j: nat)
    requires i < |data| && j < 8
    ensures BytesToBits(data)[8 * i + j] == (data[i] / Pow2(7 - j)) % 2
    decreases i
  {
    FlattenLength(data[1..], 8);
    if i == 0 {
      ToBitsAt(data[0], 8, j);
    } else {
      BytesToBitsAt(data[1..], i - 1, j);
    }
  }

  function BitsToBytes(bits: seq<Bit>): (data: Bytes)
    ensures |data| == |bits| / 8
  {
    ChunksBound(bits, 8);
    ChunksLength(bits, 8);
    Pow2Values();
    Chunks(bits, 8)
  }

  lemma BytesSurvive(data: Bytes, rest: seq<Bit>)
    ensures BitsToBytes(BytesToBits(data) + rest) == data + BitsToBytes(rest)
  {
    Pow2Values();
    ChunksOfFlatten(data, rest, 8);
  }

  lemma BitsSurvive(bits: seq<Bit>)
    requires |bits| % 8 == 0
    ensures BytesToBits(BitsToBytes(bits)) == bits
  {
    FlattenOfChunks(bits, 8);
  }

  /** The inner loop: shift in one bit at a time. */
  method ChunkValue(chunk: seq<Bit>) returns (value: nat)
    ensures value == Val(chunk)
  {
    value := 0;
    for k := 0 to |chunk|
      invariant value == Val(chunk[..k])
    {
      assert chunk[..k + 1][..k] == chunk[..k];
      value := 2 * value + chunk[k];
    }
    assert chunk[..|chunk|] == chunk;
  }

  method BitsToBytesLoop(bits: seq<Bit>) returns (out: Bytes)
    ensures out == BitsToBytes(bits)
  {
    out := [];
    var index := 0;
    while index < |bits| - 7
      invariant 0 <= index <= |bits|
      invariant out + BitsToBytes(bits[index..]) == BitsToBytes(bits)
    {
      TakeChunk(bits, index);
      var value := ChunkValue(bits[index..index + 8]);
      out := out + [value];
      index := index + 8;
    }
    assert out + [] == out;
  }

  lemma TakeChunk(bits: seq<Bit>, index: nat)
    requires index + 8 <= |bits|
    ensures Val(bits[index..index + 8]) < 256
    ensures BitsToBytes(bits[index..]) == [Val(bits[index..index + 8])] + BitsToBytes(bits[index + 8..])
  {
    assert bits[index..][..8] == bits[index..index + 8];
    assert bits[index..][8..] == bits[index + 8..];
    ValBound(bits[index..index + 8]);
    Pow2Values();
  }

  // ----- a clip

  ghost predicate IsClip(fs: seq<seq<int>>, w: nat, h: nat)
  {
    forall i :: 0 <= i < |fs| ==> IsFrame(fs[i], w, h)
  }

  /** Embed into every frame, carrying the border cursor from one frame to the next. */
  function EmbedClip(fs: seq<seq<Byte>>, w: nat, h: nat, bits: seq<Bit>, cursor: nat): (es: seq<seq<Byte>>)
    requires IsClip(fs, w, h)
    ensures |es| == |fs| && IsClip(es, w, h)
    decreases |fs|
  {
    if fs == [] then []
    else [EmbedFrame(fs[0], w, h, bits, cursor)]
         + EmbedClip(fs[1..], w, h, bits, NextCursor(cursor, Capacity(w, h), bits))
  }

  /** The bits read from the borders of all frames in turn. */
  function ReadClip(gs: seq<seq<int>>, w: nat, h: nat): (bits: seq<Bit>)
    requires IsClip(gs, w, h)
    ensures |bits| == |gs| * Capacity(w, h)
    decreases |gs|
  {
    if gs == [] then []
    else
      assert |gs| * Capacity(w, h) == Capacity(w, h) + (|gs| - 1) * Capacity(w, h);
      ReadBits(gs[0], w, h, Positions(w, h)) + ReadClip(gs[1..], w, h)
  }

  /** gs is es after every channel value of every frame moved by at most d, a tolerable amount. */
  ghost predicate NearClip(es: seq<seq<int>>, gs: seq<seq<int>>, d: nat)
  {
    |gs| == |es| && forall i :: 0 <= i < |es| ==> Near(es[i], gs[i], d) && Tolerable(gs[i], d)
  }

  /** The border stream starts with as many payload bits as fit. */
  lemma {:induction false} ClipCarries(fs: seq<seq<Byte>>, w: nat, h: nat, bits: seq<Bit>, cursor: nat,
                                       gs: seq<seq<int>>, d: nat)
    requires IsClip(fs, w, h) && w >= 8 && h >= 8 && cursor <= |bits|
    requires NearClip(EmbedClip(fs, w, h, bits, cursor), gs, d)
    ensures IsClip(gs, w, h)
    ensures forall k :: 0 <= k < |ReadClip(gs, w, h)| && cursor + k < |bits| ==>
              ReadClip(gs, w, h)[k] == bits[cursor + k]
    decreases |fs|
  {
    if fs == [] {
    } else {
      var cap := Capacity(w, h);
      var next := NextCursor(cursor, cap, bits);
      var es := EmbedClip(fs, w, h, bits, cursor);
      assert es[0] == EmbedFrame(fs[0], w, h, bits, cursor);
      assert es[1..] == EmbedClip(fs[1..], w, h, bits, next);
      assert NearClip(es[1..], gs[1..], d);
      ClipCarries(fs[1..], w, h, bits, next, gs[1..], d);
      assert IsFrame(gs[0], w, h) by { assert Near(es[0], gs[0], d); }
      forall i | 0 <= i < |gs| ensures IsFrame(gs[i], w, h) {
        assert i > 0 ==> gs[i] == gs[1..][i - 1];
      }
      forall k | 0 <= k < |ReadClip(gs, w, h)| && cursor + k < |bits|
        ensures ReadClip(gs, w, h)[k] == bits[cursor + k]
      {
        if k < cap {
          BitSurvives(fs[0], w, h, bits, cursor, gs[0], d, k);
        } else {
          assert next == cursor + cap;
          assert ReadClip(gs, w, h)[k] == ReadClip(gs[1..], w, h)[k - cap];
          assert bits[next + (k - cap)] == bits[cursor + k];
        }
      }
    }
  }

  // ----- unpacking a growing stream

  /** Turns the bytes of a whole envelope into metadata, or nothing. */
  type Unpacker = Bytes -> Option<Metadata>

  function UnpackProgressive(unpack: Unpacker, bits: seq<Bit>): Option<Metadata>
  {
    var headerBits := HEADER_BYTES * 8;
    if |bits| < headerBits then None
    else
      var header := BitsToBytes(bits[..headerBits]);
      if header[..7] != MAGIC_V1 && header[..7] != MAGIC_V2 then None
      else
        var size := ReadU32(header[7..11]);
        if size > MAX_PAYLOAD_BYTES then None
        else
          var totalBits := (HEADER_BYTES + size) * 8;
          if |bits| < totalBits then None
          else unpack(BitsToBytes(bits[..totalBits]))
  }

  /** A well-formed payload: a known magic and a length field that announces what follows. */
  predicate Announced(p: Bytes)
  {
    && |p| >= HEADER_BYTES
    && (p[..7] == MAGIC_V1 || p[..7] == MAGIC_V2)
    && |p| == HEADER_BYTES + ReadU32(p[7..11]) <= HEADER_BYTES + MAX_PAYLOAD_BYTES
  }

  lemma BytesPrefix(bits: seq<Bit>, n: nat)
    requires 8 * n <= |bits|
    ensures BitsToBytes(bits)[..n] == BitsToBytes(bits[..8 * n])
  {
    ChunksSplit(bits[..8 * n], bits[8 * n..], 8);
    assert bits == bits[..8 * n] + bits[8 * n..];
  }

  lemma BytesBack(p: Bytes)
    ensures BitsToBytes(BytesToBits(p)) == p
  {
    BytesSurvive(p, []);
    assert BytesToBits(p) + [] == BytesToBits(p);
    assert p + BitsToBytes([]) == p;
  }

  /** Magic and length are read from the first 88 bits alone. */
  lemma MagicAndSize(p: Bytes, stream: seq<Bit>, n: nat)
    requires |p| >= HEADER_BYTES && 88 <= 8 * n <= |stream|
    requires stream[..88] == BytesToBits(p)[..88]
    ensures BitsToBytes(stream[..8 * n])[..11] == p[..11]
  {
    BytesPrefix(stream[..8 * n], 11);
    assert stream[..8 * n][..88] == stream[..88];
    BytesPrefix(BytesToBits(p), 11);
    BytesBack(p);
  }

  /** A stream that starts with the magic and length of p is unpacked as soon as it has the length of p. */
  lemma ProgressiveReads(unpack: Unpacker, p: Bytes, stream: seq<Bit>)
    requires Announced(p) && |stream| >= 88 && stream[..88] == BytesToBits(p)[..88]
    ensures UnpackProgressive(unpack, stream) ==
            if |stream| >= 8 * |p| then unpack(BitsToBytes(stream[..8 * |p|])) else None
  {
    if |stream| >= HEADER_BYTES * 8 {
      MagicAndSize(p, stream, HEADER_BYTES);
      var header := BitsToBytes(stream[..HEADER_BYTES * 8]);
      assert header[..7] == header[..11][..7] && p[..7] == p[..11][..7];
      assert header[7..11] == header[..11][7..] && p[7..11] == p[..11][7..];
    }
  }

  /** The stream starts like the payload for as long as both last. */
  ghost predicate Starts(stream: seq<Bit>, p: Bytes)
  {
    forall k :: 0 <= k < |stream| && k < 8 * |p| ==> stream[k] == BytesToBits(p)[k]
  }

  /** A stream that starts like a payload yields what the payload unpacks to exactly when it is long enough. */
  lemma StreamExact(unpack: Unpacker, p: Bytes, stream: seq<Bit>)
    requires Announced(p) && Starts(stream, p)
    ensures UnpackProgressive(unpack, stream) == if |stream| >= 8 * |p| then unpack(p) else None
  {
    if |stream| >= 88 {
      assert stream[..88] == BytesToBits(p)[..88];
      ProgressiveReads(unpack, p, stream);
      if |stream| >= 8 * |p| {
        assert stream[..8 * |p|] == BytesToBits(p);
        BytesBack(p);
      }
    }
  }

  // ----- through the borders

  function ExtractFromBorder(unpack: Unpacker, gs: seq<seq<int>>, w: nat, h: nat): Option<Metadata>
    requires IsClip(gs, w, h)
  {
    UnpackProgressive(unpack, ReadClip(gs, w, h))
  }

  /** The conditions under which a payload is sent: both sides at least eight, tolerable noise. */
  ghost predicate Sent(p: Bytes, fs: seq<seq<Byte>>, w: nat, h: nat, gs: seq<seq<int>>, d: nat)
  {
    && IsClip(fs, w, h) && w >= 8 && h >= 8
    && NearClip(EmbedClip(fs, w, h, BytesToBits(p), 0), gs, d)
  }

  lemma ClipStarts(p: Bytes, fs: seq<seq<Byte>>, w: nat, h: nat, gs: seq<seq<int>>, d: nat)
    requires Sent(p, fs, w, h, gs, d)
    ensures IsClip(gs, w, h) && Starts(ReadClip(gs, w, h), p) && |gs| == |fs|
  {
    var bits := BytesToBits(p);
    ClipCarries(fs, w, h, bits, 0, gs, d);
    var read := ReadClip(gs, w, h);
    forall k | 0 <= k < |read| && k < 8 * |p| ensures read[k] == bits[k] {
      assert read[k] == bits[0 + k];
    }
  }

  /** Border extraction from a whole clip succeeds exactly when the clip has a slot for every bit. */
  lemma BorderExact(unpack: Unpacker, p: Bytes, fs: seq<seq<Byte>>, w: nat, h: nat, gs: seq<seq<int>>, d: nat)
    requires Announced(p) && Sent(p, fs, w, h, gs, d)
    ensures IsClip(gs, w, h)
    ensures ExtractFromBorder(unpack, gs, w, h) == if |fs| * Capacity(w, h) >= 8 * |p| then unpack(p) else None
  {
    ClipStarts(p, fs, w, h, gs, d);
    StreamExact(unpack, p, ReadClip(gs, w, h));
  }

  // ----- low bits

  function LowBits(g: seq<int>): (bits: seq<Bit>)
    ensures |bits| == |g|
  {
    seq(|g|, k requires 0 <= k < |g| => g[k] % 2)
  }

  function LowStream(gs: seq<seq<int>>): seq<Bit>
  {
    if gs == [] then [] else LowBits(gs[0]) + LowStream(gs[1..])
  }

  /** Append one frame's low bits at a time and stop at the first stream that unpacks. */
  function LsbFrom(unpack: Unpacker, acc: seq<Bit>, gs: seq<seq<int>>): Option<Metadata>
    decreases |gs|
  {
    if gs == [] then None
    else
      var acc' := acc + LowBits(gs[0]);
      var v := UnpackProgressive(unpack, acc');
      if v.Some? then v else LsbFrom(unpack, acc', gs[1..])
  }

  function ExtractFromLsb(unpack: Unpacker, gs: seq<seq<int>>): Option<Metadata>
  {
    LsbFrom(unpack, [], gs)
  }

  lemma LowBitsOfFrame(f: seq<Byte>, w: nat, h: nat, bits: seq<Bit>, cursor: nat, k: nat)
    requires IsFrame(f, w, h) && k < |f| && k < |bits|
    ensures LowBits(EmbedFrame(f, w, h, bits, cursor))[k] == bits[k]
  {
  }

  /** The low bits of one frame alone carry the payload exactly when it fits into that frame. */
  lemma LsbExact(unpack: Unpacker, p: Bytes, f: seq<Byte>, w: nat, h: nat, cursor: nat)
    requires Announced(p) && IsFrame(f, w, h)
    ensures UnpackProgressive(unpack, LowBits(EmbedFrame(f, w, h, BytesToBits(p), cursor))) ==
            if h * w * 3 >= 8 * |p| then unpack(p) else None
  {
    var bits := BytesToBits(p);
    var low := LowBits(EmbedFrame(f, w, h, bits, cursor));
    forall k | 0 <= k < |low| && k < 8 * |p| ensures low[k] == bits[k] {
      LowBitsOfFrame(f, w, h, bits, cursor, k);
    }
    StreamExact(unpack, p, low);
  }

  // ----- the extraction process

  /** Try the borders of the first n frames, then of n+1, and so on; fall back to the low bits of all of them. */
  function ExtractFrom(unpack: Unpacker, gs: seq<seq<int>>, w: nat, h: nat, n: nat): Option<Metadata>
    requires IsClip(gs, w, h)
    decreases |gs| + 1 - n
  {
    if n > |gs| then ExtractFromLsb(unpack, gs)
    else
      var v := ExtractFromBorder(unpack, gs[..n], w, h);
      if v.Some? then v else ExtractFrom(unpack, gs, w, h, n + 1)
  }

  /** How many frames are read at most: as many as the probe reports, or 240 when it reports none. */
  function Limit(frameCount: Option<nat>): (n: nat)
    ensures n > 0
  {
    if frameCount.None? || frameCount.value == 0 then 240 else frameCount.value
  }

  function Shown<T>(frames: seq<T>, frameCount: Option<nat>): (shown: seq<T>)
    ensures shown <= frames && (frames != [] ==> shown != [])
  {
    if |frames| <= Limit(frameCount) then frames else frames[..Limit(frameCount)]
  }

  function Extract(unpack: Unpacker, gs: seq<seq<int>>, w: nat, h: nat, frameCount: Option<nat>): Option<Metadata>
    requires IsClip(gs, w, h)
  {
    ExtractFrom(unpack, Shown(gs, frameCount), w, h, 1)
  }

  lemma {:induction false} EmbedClipPrefix(fs: seq<seq<Byte>>, w: nat, h: nat, bits: seq<Bit>, cursor: nat, n: nat)
    requires IsClip(fs, w, h) && n <= |fs|
    ensures EmbedClip(fs, w, h, bits, cursor)[..n] == EmbedClip(fs[..n], w, h, bits, cursor)
    decreases n
  {
    if n > 0 {
      EmbedClipPrefix(fs[1..], w, h, bits, NextCursor(cursor, Capacity(w, h), bits), n - 1);
      assert fs[..n][1..] == fs[1..][..n - 1];
    }
  }

  lemma SentPrefix(p: Bytes, fs: seq<seq<Byte>>, w: nat, h: nat, gs: seq<seq<int>>, d: nat, n: nat)
    requires Sent(p, fs, w, h, gs, d) && n <= |fs|
    ensures |gs| == |fs| && Sent(p, fs[..n], w, h, gs[..n], d)
  {
    EmbedClipPrefix(fs, w, h, BytesToBits(p), 0, n);
  }

  /** The border attempts succeed at the first prefix with enough slots, and never before. */
  lemma {:induction false} BorderAttempts(unpack: Unpacker, p: Bytes, fs: seq<seq<Byte>>, w: nat, h: nat,
                                          gs: seq<seq<int>>, d: nat, n: nat)
    requires Announced(p) && unpack(p).Some? && Sent(p, fs, w, h, gs, d) && n <= |fs| + 1
    ensures IsClip(gs, w, h)
    ensures ExtractFrom(unpack, gs, w, h, n) ==
            if n <= |fs| && |fs| * Capacity(w, h) >= 8 * |p| then unpack(p) else ExtractFromLsb(unpack, gs)
    decreases |fs| + 1 - n
  {
    ClipStarts(p, fs, w, h, gs, d);
    if n <= |fs| {
      SentPrefix(p, fs, w, h, gs, d, n);
      BorderExact(unpack, p, fs[..n], w, h, gs[..n], d);
      BorderAttempts(unpack, p, fs, w, h, gs, d, n + 1);
      MulMono(n, |fs|, Capacity(w, h));
    }
  }

  // ----- the low bits do not span frames

  lemma {:induction false} LsbFails(unpack: Unpacker, p: Bytes, acc: seq<Bit>, gs: seq<seq<int>>)
    requires Announced(p)
    requires forall i :: 0 <= i < |gs| ==> |gs[i]| >= 88
    requires var s := acc + LowStream(gs);
             && (|s| >= 88 ==> s[..88] == BytesToBits(p)[..88])
             && (|s| >= 8 * |p| ==> unpack(BitsToBytes(s[..8 * |p|])) == None)
    ensures LsbFrom(unpack, acc, gs) == None
    decreases |gs|
  {
    if gs != [] {
      var s, acc' := acc + LowStream(gs), acc + LowBits(gs[0]);
      assert s == acc' + LowStream(gs[1..]);
      assert acc'[..88] == s[..88];
      if |acc'| >= 8 * |p| { assert acc'[..8 * |p|] == s[..8 * |p|]; }
      ProgressiveReads(unpack, p, acc');
      LsbFails(unpack, p, acc', gs[1..]);
    }
  }

  lemma FrameSize(w: nat, h: nat)
    requires w >= 8 && h >= 8
    ensures h * w * 3 >= 192
  {
    MulMono(8, h, w);
  }

  /** The first 88 low bits of a clip are the payload's. */
  lemma LowStreamStarts(fs: seq<seq<Byte>>, w: nat, h: nat, p: Bytes)
    requires IsClip(fs, w, h) && w >= 8 && h >= 8 && fs != [] && |p| >= HEADER_BYTES
    ensures var es := EmbedClip(fs, w, h, BytesToBits(p), 0);
            && |LowStream(es)| >= 88 && LowStream(es)[..88] == BytesToBits(p)[..88]
            && forall i :: 0 <= i < |es| ==> |es[i]| >= 88
  {
    var bits := BytesToBits(p);
    var es := EmbedClip(fs, w, h, bits, 0);
    FrameSize(w, h);
    assert es[0] == EmbedFrame(fs[0], w, h, bits, 0);
    forall k | 0 <= k < 88 ensures LowStream(es)[k] == bits[k] {
      LowBitsOfFrame(fs[0], w, h, bits, 0, k);
    }
    forall i | 0 <= i < |es| ensures |es[i]| >= 88 {
      assert IsFrame(es[i], w, h);
    }
  }

  lemma LsbAtOnce(unpack: Unpacker, gs: seq<seq<int>>)
    requires gs != [] && UnpackProgressive(unpack, LowBits(gs[0])).Some?
    ensures ExtractFromLsb(unpack, gs) == UnpackProgressive(unpack, LowBits(gs[0]))
  {
    assert [] + LowBits(gs[0]) == LowBits(gs[0]);
  }

  lemma LsbFits(unpack: Unpacker, p: Bytes, fs: seq<seq<Byte>>, w: nat, h: nat)
    requires Announced(p) && unpack(p).Some? && IsClip(fs, w, h) && fs != [] && h * w * 3 >= 8 * |p|
    ensures ExtractFromLsb(unpack, EmbedClip(fs, w, h, BytesToBits(p), 0)) == unpack(p)
  {
    var es := EmbedClip(fs, w, h, BytesToBits(p), 0);
    LsbExact(unpack, p, fs[0], w, h, 0);
    assert es[0] == EmbedFrame(fs[0], w, h, BytesToBits(p), 0);
    LsbAtOnce(unpack, es);
  }

  lemma LsbTooBig(unpack: Unpacker, p: Bytes, fs: seq<seq<Byte>>, w: nat, h: nat)
    requires Announced(p) && IsClip(fs, w, h) && w >= 8 && h >= 8 && fs != []
    requires var s := LowStream(EmbedClip(fs, w, h, BytesToBits(p), 0));
             8 * |p| <= |s| ==> unpack(BitsToBytes(s[..8 * |p|])) == None
    ensures ExtractFromLsb(unpack, EmbedClip(fs, w, h, BytesToBits(p), 0)) == None
  {
    LowStreamStarts(fs, w, h, p);
    LsbNever(unpack, p, EmbedClip(fs, w, h, BytesToBits(p), 0));
  }

  lemma LsbNever(unpack: Unpacker, p: Bytes, gs: seq<seq<int>>)
    requires Announced(p) && forall i :: 0 <= i < |gs| ==> |gs[i]| >= 88
    requires |LowStream(gs)| >= 88 && LowStream(gs)[..88] == BytesToBits(p)[..88]
    requires |LowStream(gs)| >= 8 * |p| ==> unpack(BitsToBytes(LowStream(gs)[..8 * |p|])) == None
    ensures ExtractFromLsb(unpack, gs) == None
  {
    assert [] + LowStream(gs) == LowStream(gs);
    LsbFails(unpack, p, [], gs);
  }

  /** Without loss, low-bit extraction succeeds exactly when the payload fits into one frame, provided the
      stream of repeated beginnings is not itself an envelope. */
  lemma LsbClipExact(unpack: Unpacker, p: Bytes, fs: seq<seq<Byte>>, w: nat, h: nat)
    requires Announced(p) && unpack(p).Some? && IsClip(fs, w, h) && w >= 8 && h >= 8 && fs != []
    requires var s := LowStream(EmbedClip(fs, w, h, BytesToBits(p), 0));
             h * w * 3 < 8 * |p| <= |s| ==> unpack(BitsToBytes(s[..8 * |p|])) == None
    ensures ExtractFromLsb(unpack, EmbedClip(fs, w, h, BytesToBits(p), 0)) ==
            if h * w * 3 >= 8 * |p| then unpack(p) else None
  {
    if h * w * 3 >= 8 * |p| {
      LsbFits(unpack, p, fs, w, h);
    } else {
      LsbTooBig(unpack, p, fs, w, h);
    }
  }

  // ----- envelopes through the channel

  function UnpackerAt(c: Codecs, now: real): Unpacker
  {
    b => Unpack(c, b, now)
  }

  lemma FrameIsAnnounced(c: Codecs, magic: Bytes, body: Bytes)
    requires |c.sha256(body)| == 32 && |body| <= MAX_PAYLOAD_BYTES && (magic == MAGIC_V1 || magic == MAGIC_V2)
    ensures Announced(Frame(c, magic, body))
  {
    FrameParts(c, magic, body);
  }

  /** p is what packing m at `now` gives, and m' is the validated and upgraded metadata it stands for, which the
      libraries turn into text and body and back. */
  ghost predicate Packed(c: Codecs, m: Metadata, version: int, now: real, p: Bytes, m': Metadata)
  {
    Pack(c, m, version, now) == Ok(p) && Canonical(c, m, version, now) == Ok(m') && Inverts(c, m')
  }

  lemma PackedIsAnnounced(c: Codecs, m: Metadata, version: int, now: real, p: Bytes, m': Metadata)
    requires Packed(c, m, version, now, p, m')
    ensures Announced(p)
  {
    FrameIsAnnounced(c, MagicOf(version), c.deflate(c.json(m')));
  }

  lemma PackedUnpacks(c: Codecs, m: Metadata, version: int, now: real, p: Bytes, m': Metadata, later: real)
    requires Packed(c, m, version, now, p, m') && now <= later
    ensures Announced(p) && UnpackerAt(c, later)(p) == Some(m')
  {
    PackedIsAnnounced(c, m, version, now, p, m');
    UnpackOfPack(c, m, version, now, later, m');
  }

  /** What was packed at `now`, sent through the borders of any clip and read at any later time: it comes
      back exactly when the clip has a border slot for every bit, and not at all from a shorter clip. */
  lemma BorderRoundTrip(c: Codecs, m: Metadata, version: int, now: real, later: real, p: Bytes, m': Metadata,
                        fs: seq<seq<Byte>>, w: nat, h: nat, gs: seq<seq<int>>, d: nat)
    requires Packed(c, m, version, now, p, m') && now <= later && Sent(p, fs, w, h, gs, d)
    ensures IsClip(gs, w, h)
    ensures ExtractFromBorder(UnpackerAt(c, later), gs, w, h) ==
            if |fs| * Capacity(w, h) >= 8 * |p| then Some(m') else None
  {
    PackedUnpacks(c, m, version, now, p, m', later);
    BorderExact(UnpackerAt(c, later), p, fs, w, h, gs, d);
  }

  /** The low bits of the first frame alone recover the metadata exactly when it fits into that frame. */
  lemma LsbRoundTrip(c: Codecs, m: Metadata, version: int, now: real, later: real, p: Bytes, m': Metadata,
                     f: seq<Byte>, w: nat, h: nat, cursor: nat)
    requires Packed(c, m, version, now, p, m') && now <= later && IsFrame(f, w, h)
    ensures UnpackProgressive(UnpackerAt(c, later), LowBits(EmbedFrame(f, w, h, BytesToBits(p), cursor))) ==
            if h * w * 3 >= 8 * |p| then Some(m') else None
  {
    PackedUnpacks(c, m, version, now, p, m', later);
    LsbExact(UnpackerAt(c, later), p, f, w, h, cursor);
  }

  /** Through tolerable noise the whole process returns the metadata whenever the borders of the frames that are
      read have room. */
  lemma NoisyRoundTrip(c: Codecs, m: Metadata, version: int, now: real, later: real, p: Bytes, m': Metadata,
                       fs: seq<seq<Byte>>, w: nat, h: nat, gs: seq<seq<int>>, d: nat, frameCount: Option<nat>)
    requires Packed(c, m, version, now, p, m') && now <= later && Sent(p, fs, w, h, gs, d)
    requires |Shown(fs, frameCount)| * Capacity(w, h) >= 8 * |p|
    ensures IsClip(gs, w, h) && Extract(UnpackerAt(c, later), gs, w, h, frameCount) == Some(m')
  {
    var n := |Shown(fs, frameCount)|;
    ClipStarts(p, fs, w, h, gs, d);
    SentPrefix(p, fs, w, h, gs, d, n);
    ShownIsPrefix(fs, gs, frameCount);
    NoisyWhole(c, m, version, now, later, p, m', fs[..n], w, h, gs[..n], d);
  }

  lemma ShownIsPrefix<T, U>(a: seq<T>, b: seq<U>, frameCount: Option<nat>)
    requires |a| == |b|
    ensures var n := |Shown(a, frameCount)|; Shown(a, frameCount) == a[..n] && Shown(b, frameCount) == b[..n]
  {
  }

  lemma NoisyWhole(c: Codecs, m: Metadata, version: int, now: real, later: real, p: Bytes, m': Metadata,
                   fs: seq<seq<Byte>>, w: nat, h: nat, gs: seq<seq<int>>, d: nat)
    requires Packed(c, m, version, now, p, m') && now <= later && Sent(p, fs, w, h, gs, d)
    requires |fs| * Capacity(w, h) >= 8 * |p|
    ensures IsClip(gs, w, h) && ExtractFrom(UnpackerAt(c, later), gs, w, h, 1) == Some(m')
  {
    PackedUnpacks(c, m, version, now, p, m', later);
    assert fs != [];
    BorderAttempts(UnpackerAt(c, later), p, fs, w, h, gs, d, 1);
  }

  /** The digest in the header is not that of the bytes behind the header. */
  predicate BadDigest(c: Codecs, q: Bytes)
  {
    |q| >= HEADER_BYTES && c.sha256(q[HEADER_BYTES..]) != q[11..HEADER_BYTES]
  }

  /** An envelope of the announced length whose digest is wrong does not unpack. */
  lemma BadDigestFails(c: Codecs, p: Bytes, q: Bytes, now: real)
    requires Announced(p) && |q| == |p| && q[..11] == p[..11] && BadDigest(c, q)
    ensures Unpack(c, q, now) == None
  {
    assert q[7..11] == q[..11][7..] && p[7..11] == p[..11][7..];
    assert q[HEADER_BYTES..|q|] == q[HEADER_BYTES..];
  }

  /** What is sent without loss, by the frames that are read. */
  ghost predicate Lossless(c: Codecs, m: Metadata, version: int, now: real, p: Bytes, m': Metadata,
                           fs: seq<seq<Byte>>, w: nat, h: nat)
  {
    && Packed(c, m, version, now, p, m') && IsClip(fs, w, h) && w >= 8 && h >= 8 && fs != []
  }

  /** The digest tells the stream of repeated beginnings from the payload, where it is long enough to be taken
      for one. */
  ghost predicate Distinguished(c: Codecs, p: Bytes, fs: seq<seq<Byte>>, w: nat, h: nat)
  {
    && IsClip(fs, w, h)
    && var s := LowStream(EmbedClip(fs, w, h, BytesToBits(p), 0));
    h * w * 3 < 8 * |p| <= |s| ==> BadDigest(c, BitsToBytes(s[..8 * |p|]))
  }

  lemma WholeClipExact(c: Codecs, m: Metadata, version: int, now: real, later: real, p: Bytes, m': Metadata,
                       fs: seq<seq<Byte>>, w: nat, h: nat)
    requires Lossless(c, m, version, now, p, m', fs, w, h) && now <= later && Distinguished(c, p, fs, w, h)
    ensures ExtractFrom(UnpackerAt(c, later), EmbedClip(fs, w, h, BytesToBits(p), 0), w, h, 1) ==
            if |fs| * Capacity(w, h) >= 8 * |p| || h * w * 3 >= 8 * |p| then Some(m') else None
  {
    var es := EmbedClip(fs, w, h, BytesToBits(p), 0);
    PackedUnpacks(c, m, version, now, p, m', later);
    Unchanged(es);
    BorderAttempts(UnpackerAt(c, later), p, fs, w, h, es, 0, 1);
    RepeatedStreamFails(c, p, fs, w, h, later);
    LsbClipExact(UnpackerAt(c, later), p, fs, w, h);
  }

  /** A clip read without loss gives the metadata back exactly when the border slots of the frames that are read
      hold it or the low bits of one frame do. Low bits never continue from one frame to the next. */
  lemma LosslessExact(c: Codecs, m: Metadata, version: int, now: real, later: real, p: Bytes, m': Metadata,
                      fs: seq<seq<Byte>>, w: nat, h: nat, frameCount: Option<nat>)
    requires Lossless(c, m, version, now, p, m', fs, w, h) && now <= later
    requires Distinguished(c, p, Shown(fs, frameCount), w, h)
    ensures Extract(UnpackerAt(c, later), EmbedClip(fs, w, h, BytesToBits(p), 0), w, h, frameCount) ==
            if |Shown(fs, frameCount)| * Capacity(w, h) >= 8 * |p| || h * w * 3 >= 8 * |p| then Some(m') else None
  {
    var n := |Shown(fs, frameCount)|;
    var es := EmbedClip(fs, w, h, BytesToBits(p), 0);
    ShownIsPrefix(fs, es, frameCount);
    EmbedClipPrefix(fs, w, h, BytesToBits(p), 0, n);
    WholeClipExact(c, m, version, now, later, p, m', fs[..n], w, h);
  }

  // ----- the capacity check

  /** The frames the check reckons with: as many as the probe reports, or one when it reports none. */
  function Reckoned(probed: Option<nat>): (k: nat)
    ensures k > 0
  {
    if probed.None? || probed.value == 0 then 1 else probed.value
  }

  /** The check before embedding: the bits are within the borders, or within the low bits, of that many frames. */
  predicate CapacityOk(w: nat, h: nat, probed: Option<nat>, bits: nat)
  {
    !(bits > Capacity(w, h) * Reckoned(probed) && bits > w * h * 3 * Reckoned(probed))
  }

  /** The check in terms of one frame's capacities. */
  lemma CapacityCounted(w: nat, h: nat, probed: Option<nat>, bits: nat)
    ensures var k := Reckoned(probed);
            CapacityOk(w, h, probed, bits) <==> bits <= k * Capacity(w, h) || bits <= k * (h * w * 3)
  {
    Commute(w, h);
    Commute(Capacity(w, h), Reckoned(probed));
    Commute(w * h * 3, Reckoned(probed));
  }

  lemma Commute(a: nat, b: nat)
    ensures a * b == b * a
  {
  }

  /** The payload passes the check before it is embedded and is not found afterwards, although nothing was lost on
      the way. The frame count is probed once from the file that is read for embedding and once from the file that
      is read for extraction, so the two may differ. */
  ghost predicate AcceptedAndLost(c: Codecs, later: real, p: Bytes, fs: seq<seq<Byte>>, w: nat, h: nat,
                                  probedIn: Option<nat>, probedOut: Option<nat>)
    requires IsClip(fs, w, h)
  {
    && CapacityOk(w, h, probedIn, 8 * |p|)
    && Extract(UnpackerAt(c, later), EmbedClip(fs, w, h, BytesToBits(p), 0), w, h, probedOut) == None
  }

  /** Exactly which payloads are accepted and lost, whatever the two probes report: those beyond the borders of the
      frames that are read and beyond one frame's low bits that the check finds room for. */
  lemma AcceptedAndLostIff(c: Codecs, m: Metadata, version: int, now: real, later: real, p: Bytes, m': Metadata,
                           fs: seq<seq<Byte>>, w: nat, h: nat, probedIn: Option<nat>, probedOut: Option<nat>)
    requires Lossless(c, m, version, now, p, m', fs, w, h) && now <= later
    requires Distinguished(c, p, Shown(fs, probedOut), w, h)
    ensures var k := if probedIn == None || probedIn == Some(0) then 1 else probedIn.value;
            var n := |Shown(fs, probedOut)|;
            AcceptedAndLost(c, later, p, fs, w, h, probedIn, probedOut) <==>
            && n * Capacity(w, h) < 8 * |p| && h * w * 3 < 8 * |p|
            && (8 * |p| <= k * Capacity(w, h) || 8 * |p| <= k * (h * w * 3))
  {
    LosslessExact(c, m, version, now, later, p, m', fs, w, h, probedOut);
    CapacityCounted(w, h, probedIn, 8 * |p|);
  }

  /** When both probes report the frames there are, these are the payloads between one frame's low bits and all the
      frames' low bits that the borders cannot hold. */
  lemma KnownCountsLostIff(c: Codecs, m: Metadata, version: int, now: real, later: real, p: Bytes, m': Metadata,
                           fs: seq<seq<Byte>>, w: nat, h: nat)
    requires Lossless(c, m, version, now, p, m', fs, w, h) && now <= later && Distinguished(c, p, fs, w, h)
    ensures AcceptedAndLost(c, later, p, fs, w, h, Some(|fs|), Some(|fs|)) <==>
            |fs| * Capacity(w, h) < 8 * |p| && h * w * 3 < 8 * |p| <= |fs| * (h * w * 3)
  {
    assert Shown(fs, Some(|fs|)) == fs;
    AcceptedAndLostIff(c, m, version, now, later, p, m', fs, w, h, Some(|fs|), Some(|fs|));
  }

  /** A payload accepted on the strength of one frame is never lost. */
  lemma OneFrameNeverLost(c: Codecs, m: Metadata, version: int, now: real, later: real, p: Bytes, m': Metadata,
                          fs: seq<seq<Byte>>, w: nat, h: nat, probedIn: Option<nat>, probedOut: Option<nat>)
    requires Lossless(c, m, version, now, p, m', fs, w, h) && now <= later
    requires Distinguished(c, p, Shown(fs, probedOut), w, h) && probedIn in {None, Some(0), Some(1)}
    ensures !AcceptedAndLost(c, later, p, fs, w, h, probedIn, probedOut)
  {
    AcceptedAndLostIff(c, m, version, now, later, p, m', fs, w, h, probedIn, probedOut);
    MulMono(1, |Shown(fs, probedOut)|, Capacity(w, h));
  }

  /** When the count is known for embedding and unknown for extraction, only 240 frames are read: a payload that the
      borders of all frames hold, but not those of 240, nor one frame's low bits, is accepted and lost. */
  lemma LongClipLost(c: Codecs, m: Metadata, version: int, now: real, later: real, p: Bytes, m': Metadata,
                     fs: seq<seq<Byte>>, w: nat, h: nat)
    requires Lossless(c, m, version, now, p, m', fs, w, h) && now <= later
    requires Distinguished(c, p, Shown(fs, None), w, h)
    requires |fs| > 240 && 240 * Capacity(w, h) < 8 * |p| <= |fs| * Capacity(w, h) && h * w * 3 < 8 * |p|
    ensures AcceptedAndLost(c, later, p, fs, w, h, Some(|fs|), None)
  {
    assert |Shown(fs, None)| == 240;
    AcceptedAndLostIff(c, m, version, now, later, p, m', fs, w, h, Some(|fs|), None);
  }

  /** On 8 x 8 clips every payload that needs all the frames' low bits is accepted and lost. */
  lemma EightByEightLost(c: Codecs, m: Metadata, version: int, now: real, later: real, p: Bytes, m': Metadata,
                         fs: seq<seq<Byte>>)
    requires Lossless(c, m, version, now, p, m', fs, 8, 8) && now <= later && Distinguished(c, p, fs, 8, 8)
    requires (|fs| - 1) * 192 < 8 * |p| <= |fs| * 192
    ensures AcceptedAndLost(c, later, p, fs, 8, 8, Some(|fs|), Some(|fs|))
  {
    PackedUnpacks(c, m, version, now, p, m', later);
    assert |p| >= HEADER_BYTES;
    Positions8();
    assert Capacity(8, 8) == 4;
    KnownCountsLostIff(c, m, version, now, later, p, m', fs, 8, 8);
  }

  // ----- frames one pixel too small

  /** On 7 x 7 clips the second frame of every payload loses a bit of the magic. */
  lemma SecondFrameLosesBit(p: Bytes, fs: seq<seq<Byte>>, w: nat, h: nat)
    requires w == 7 && h == 7 && Announced(p) && IsClip(fs, w, h) && |fs| >= 2
    ensures var bits := BytesToBits(p);
            var read := ReadClip(EmbedClip(fs, w, h, bits, 0), w, h);
            |read| >= 8 && read[4] == 0 && bits[4] == 1
  {
    var bits := BytesToBits(p);
    var es := EmbedClip(fs, w, h, bits, 0);
    Positions7();
    assert Capacity(w, h) == 4 && NextCursor(0, 4, bits) == 4;
    assert es[1..] == EmbedClip(fs[1..], w, h, bits, 4);
    assert es[1] == es[1..][0] == EmbedFrame(fs[1], w, h, bits, 4);
    FirstByteBits(p);
    SevenFails(fs[1], w, h, bits, 4);
    FifthBitRead(es, w, h);
  }

  lemma FifthBitRead(es: seq<seq<int>>, w: nat, h: nat)
    requires IsClip(es, w, h) && |es| >= 2 && Capacity(w, h) == 4 && Positions(w, h)[0] == Pos(2, 0)
    ensures |ReadClip(es, w, h)| >= 8 && ReadClip(es, w, h)[4] == ReadBit(es[1], w, h, Pos(2, 0))
  {
    var rest := ReadClip(es[1..], w, h);
    assert ReadClip(es, w, h) == ReadBits(es[0], w, h, Positions(w, h)) + rest;
    assert rest == ReadBits(es[1..][0], w, h, Positions(w, h)) + ReadClip(es[1..][1..], w, h);
  }

  lemma FirstByteBits(p: Bytes)
    requires Announced(p)
    ensures |BytesToBits(p)| >= 8 && BytesToBits(p)[4] == 1 && BytesToBits(p)[7] == 0
  {
    assert p[0] == p[..7][0] == 0x48;
    BytesToBitsAt(p, 0, 4);
    BytesToBitsAt(p, 0, 7);
    Pow2Values();
    assert Pow2(3) == 8 && Pow2(0) == 1;
  }

  /** A stream whose fifth bit is zero has no magic. */
  lemma NoMagic(unpack: Unpacker, stream: seq<Bit>)
    requires |stream| >= 8 && stream[4] == 0
    ensures UnpackProgressive(unpack, stream) == None
  {
    var n := HEADER_BYTES * 8;
    if |stream| >= n {
      var header := BitsToBytes(stream[..n]);
      BitsSurvive(stream[..n]);
      BytesToBitsAt(header, 0, 4);
      Pow2Values();
      assert Pow2(3) == 8;
      assert (header[0] / 8) % 2 == 0;
      assert header[..7][0] == header[0] != 0x48;
    }
  }

  /** So no payload at all is read from the borders of a 7 x 7 clip, however many frames it has. */
  lemma SevenNeverReads(unpack: Unpacker, p: Bytes, fs: seq<seq<Byte>>, w: nat, h: nat)
    requires w == 7 && h == 7 && Announced(p) && IsClip(fs, w, h)
    ensures ExtractFromBorder(unpack, EmbedClip(fs, w, h, BytesToBits(p), 0), w, h) == None
  {
    var es := EmbedClip(fs, w, h, BytesToBits(p), 0);
    Positions7();
    if |fs| >= 2 {
      SecondFrameLosesBit(p, fs, w, h);
      NoMagic(unpack, ReadClip(es, w, h));
    } else {
      MulMono(|es|, 1, 4);
    }
  }

  lemma Unchanged(es: seq<seq<int>>)
    ensures NearClip(es, es, 0)
  {
  }

  lemma RepeatedStreamFails(c: Codecs, p: Bytes, fs: seq<seq<Byte>>, w: nat, h: nat, now: real)
    requires Announced(p) && IsClip(fs, w, h) && w >= 8 && h >= 8 && fs != []
    ensures var s := LowStream(EmbedClip(fs, w, h, BytesToBits(p), 0));
            8 * |p| <= |s| && BadDigest(c, BitsToBytes(s[..8 * |p|])) ==>
              UnpackerAt(c, now)(BitsToBytes(s[..8 * |p|])) == None
  {
    var s := LowStream(EmbedClip(fs, w, h, BytesToBits(p), 0));
    if 8 * |p| <= |s| && BadDigest(c, BitsToBytes(s[..8 * |p|])) {
      LowStreamStarts(fs, w, h, p);
      MagicAndSize(p, s, |p|);
      BadDigestFails(c, p, BitsToBytes(s[..8 * |p|]), now);
    }
  }

  // ----- the loops of the source

  /** The frame loop: each decoded frame is copied, painted, given its low bits and written out. */
  method EmbedFrames(raw: seq<seq<Byte>>, width: nat, height: nat, bits: seq<Bit>) returns (out: seq<seq<Byte>>)
    requires IsClip(raw, width, height)
    ensures out == EmbedClip(raw, width, height, bits, 0)
  {
    out := [];
    var bitCursor := 0;
    for n := 0 to |raw|
      invariant out + EmbedClip(raw[n..], width, height, bits, bitCursor) == EmbedClip(raw, width, height, bits, 0)
    {
      var frame := new Byte[|raw[n]|](i requires 0 <= i < |raw[n]| => raw[n][i]);
      assert frame[..] == raw[n];
      var next := EmbedBorderBits(frame, width, height, bits, bitCursor);
      EmbedLsbBits(frame, bits);
      assert raw[n..][0] == raw[n] && raw[n..][1..] == raw[n + 1..];
      out := out + [frame[..]];
      bitCursor := next;
    }
    assert out + [] == out;
  }

  method ReadFrame(frame: seq<int>, width: nat, height: nat) returns (bits: seq<Bit>)
    requires IsFrame(frame, width, height)
    ensures bits == ReadBits(frame, width, height, Positions(width, height))
  {
    bits := [];
    var positions := BorderPositions(width, height);
    for i := 0 to |positions|
      invariant |bits| == i && forall k :: 0 <= k < i ==> bits[k] == ReadBit(frame, width, height, positions[k])
    {
      bits := bits + [ReadBit(frame, width, height, positions[i])];
    }
  }

  method ReadBorders(frames: seq<seq<int>>, width: nat, height: nat) returns (bits: seq<Bit>)
    requires IsClip(frames, width, height)
    ensures bits == ReadClip(frames, width, height)
  {
    bits := [];
    for n := 0 to |frames|
      invariant bits + ReadClip(frames[n..], width, height) == ReadClip(frames, width, height)
    {
      var more := ReadFrame(frames[n], width, height);
      assert frames[n..][0] == frames[n] && frames[n..][1..] == frames[n + 1..];
      bits := bits + more;
    }
    assert bits + [] == bits;
  }

  method ExtractMetadata(unpack: Unpacker, source: seq<seq<int>>, width: nat, height: nat, frameCount: Option<nat>)
    returns (r: Option<Metadata>)
    requires IsClip(source, width, height)
    ensures r == Extract(unpack, source, width, height, frameCount)
  {
    var frames: seq<seq<int>> := [];
    ghost var shown := Shown(source, frameCount);
    var limit := Limit(frameCount);
    var n := 0;
    while n < limit && n < |source|
      invariant 0 <= n <= |shown| && frames == shown[..n]
      invariant ExtractFrom(unpack, shown, width, height, n + 1) == Extract(unpack, source, width, height, frameCount)
    {
      frames := frames + [source[n]];
      n := n + 1;
      assert frames == shown[..n];
      var bits := ReadBorders(frames, width, height);
      var value := UnpackProgressive(unpack, bits);
      if value.Some? {
        return value;
      }
    }
    assert frames == shown;
    r := ExtractLsbLoop(unpack, frames);
  }

  method ExtractLsbLoop(unpack: Unpacker, frames: seq<seq<int>>) returns (r: Option<Metadata>)
    ensures r == ExtractFromLsb(unpack, frames)
  {
    var bits: seq<Bit> := [];
    for n := 0 to |frames|
      invariant LsbFrom(unpack, bits, frames[n..]) == ExtractFromLsb(unpack, frames)
    {
      assert frames[n..][0] == frames[n] && frames[n..][1..] == frames[n + 1..];
      bits := bits + LowBits(frames[n]);
      var value := UnpackProgressive(unpack, bits);
      if value.Some? {
        return value;
      }
    }
    r := None;
  }
}
