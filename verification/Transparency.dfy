/** Issuer key transparency: an append-only, hash-chained event log, the key table it determines, the
    manifests published beside it, and checkpoints that expose split views. */
module Transparency {
  import opened Outcomes

  const MAX_ACTIVE_KEYS: nat := 8
  const MAX_EVENTS: nat := 10_000
  const MAX_MANIFEST_BYTES: nat := 8_192

  datatype KeyStatus = Active | Rotated | Compromised | Retired

  datatype EventType = Activation | Rotation | Compromise | Retirement | CheckpointMark

  datatype IssuerKey = IssuerKey(
    keyId: string, publicKeyHash: string, algorithm: string,
    validFrom: int, validUntil: Option<int>, status: KeyStatus)

  datatype Event = Event(
    kind: EventType, sequence: int, timestamp: int, org: string, keyId: string, publicKeyHash: string,
    previous: Option<string>, related: Option<string>, manifest: Option<string>, reason: Option<string>)

  datatype Manifest = Manifest(
    org: string, address: string, activeKeys: seq<IssuerKey>, policy: string,
    validFrom: int, validUntil: Option<int>,
    predecessor: Option<string>, successor: Option<string>, signature: Option<string>)

  // ----- digests

  /** SHA-256 in hexadecimal, the canonical JSON of records, and the encoded size of a text. */
  datatype Digests = Digests(
    sha: string -> string,
    eventJson: Event -> string,
    manifestJson: Manifest -> string,
    size: string -> nat)

  /** Digests have 64 characters; canonical JSON tells different records apart. */
  ghost predicate Sound(d: Digests)
  {
    && (forall x :: |d.sha(x)| == 64)
    && (forall a, b :: d.eventJson(a) == d.eventJson(b) ==> a == b)
    && (forall a, b :: d.manifestJson(a) == d.manifestJson(b) ==> a == b)
  }

  /** No two of the given texts share a digest. */
  ghost predicate NoCollision(d: Digests, texts: set<string>)
  {
    forall x, y :: x in texts && y in texts && d.sha(x) == d.sha(y) ==> x == y
  }

  /** An empty optional text is written like an absent one. */
  function Truthy(o: Option<string>): Option<string>
  {
    if o == Some("") then None else o
  }

  /** The record that is serialised. */
  function Canon(e: Event): Event
  {
    e.(previous := Truthy(e.previous), related := Truthy(e.related),
       manifest := Truthy(e.manifest), reason := Truthy(e.reason))
  }

  function CanonAll(es: seq<Event>): (cs: seq<Event>)
    ensures |cs| == |es| && forall i :: 0 <= i < |es| ==> cs[i] == Canon(es[i])
  {
    seq(|es|, i requires 0 <= i < |es| => Canon(es[i]))
  }

  function EventHash(d: Digests, e: Event): string
  {
    d.sha(d.eventJson(Canon(e)))
  }

  const GENESIS_HEAD: string := seq(64, _ => '0')

  /** Chain head over ordered events. */
  function Head(d: Digests, es: seq<Event>): string
  {
    if es == [] then GENESIS_HEAD
    else d.sha(Head(d, es[..|es| - 1]) + EventHash(d, es[|es| - 1]))
  }

  method ComputeTreeHead(d: Digests, es: seq<Event>) returns (head: string)
    ensures head == Head(d, es)
  {
    head := GENESIS_HEAD;
    for i := 0 to |es|
      invariant head == Head(d, es[..i])
    {
      assert es[..i + 1][..i] == es[..i];
      head := d.sha(head + EventHash(d, es[i]));
    }
    assert es[..|es|] == es;
  }

  /** The head of the empty log is 64 zeros, and every event is hashed onto the head before it. */
  lemma HeadSteps(d: Digests, es: seq<Event>, e: Event)
    ensures |Head(d, [])| == 64 && forall i :: 0 <= i < 64 ==> Head(d, [])[i] == '0'
    ensures Head(d, es + [e]) == d.sha(Head(d, es) + d.sha(d.eventJson(Canon(e))))
  {
    assert (es + [e])[..|es|] == es;
  }

  /** Every text hashed while the head of the log is computed. */
  ghost function Hashed(d: Digests, es: seq<Event>): set<string>
  {
    if es == [] then {}
    else
      var es', e := es[..|es| - 1], es[|es| - 1];
      Hashed(d, es') + {d.eventJson(Canon(e)), Head(d, es') + EventHash(d, e)}
  }

  lemma HeadLength(d: Digests, es: seq<Event>)
    requires Sound(d)
    ensures |Head(d, es)| == 64
  {
  }

  lemma SplitAt64(a: string, b: string, a': string, b': string)
    requires |a| == |a'| == 64 && a + b == a' + b'
    ensures a == a' && b == b'
  {
    assert a == (a + b)[..64] && a' == (a' + b')[..64];
    assert b == (a + b)[64..] && b' == (a' + b')[64..];
  }

  /** Equal heads of logs of one length pin every event, up to empty optional fields. */
  lemma {:induction false} HeadPinsLog(d: Digests, a: seq<Event>, b: seq<Event>)
    requires Sound(d) && |a| == |b| && Head(d, a) == Head(d, b)
    requires NoCollision(d, Hashed(d, a) + Hashed(d, b))
    ensures CanonAll(a) == CanonAll(b)
    decreases |a|
  {
    if a != [] {
      var n := |a| - 1;
      HeadPinsLast(d, a, b);
      HeadPinsLog(d, a[..n], b[..n]);
      CanonSnoc(a);
      CanonSnoc(b);
    }
  }

  lemma HeadPinsLast(d: Digests, a: seq<Event>, b: seq<Event>)
    requires Sound(d) && |a| == |b| > 0 && Head(d, a) == Head(d, b)
    requires NoCollision(d, Hashed(d, a) + Hashed(d, b))
    ensures Head(d, a[..|a| - 1]) == Head(d, b[..|b| - 1]) && Canon(a[|a| - 1]) == Canon(b[|b| - 1])
  {
    var n := |a| - 1;
    HeadLength(d, a[..n]);
    HeadLength(d, b[..n]);
    assert Head(d, a[..n]) + EventHash(d, a[n]) in Hashed(d, a);
    assert Head(d, b[..n]) + EventHash(d, b[n]) in Hashed(d, b);
    SplitAt64(Head(d, a[..n]), EventHash(d, a[n]), Head(d, b[..n]), EventHash(d, b[n]));
    assert d.eventJson(Canon(a[n])) in Hashed(d, a) && d.eventJson(Canon(b[n])) in Hashed(d, b);
  }

  lemma CanonSnoc(es: seq<Event>)
    requires es != []
    ensures CanonAll(es) == CanonAll(es[..|es| - 1]) + [Canon(es[|es| - 1])]
  {
  }

  // ----- the log and its key table

  type Keys = map<string, IssuerKey>

  datatype Log = Log(events: seq<Event>, keys: Keys)

  datatype LogError =
    | LogFull
    | OrgMismatch
    | BadSequence
    | GenesisHasPrevious
    | BrokenChain
    | ConflictingActivation
    | RotationNeedsPredecessor
    | UnknownPredecessor
    | CompromisedPredecessor
    | UnknownKey

  function Fresh(e: Event, algorithm: string): IssuerKey
  {
    IssuerKey(e.keyId, e.publicKeyHash, algorithm, e.timestamp, None, Active)
  }

  function Closed(k: IssuerKey, at: int, status: KeyStatus): IssuerKey
  {
    k.(validUntil := Some(at), status := status)
  }

  /** The key table after one lifecycle event. */
  function KeysAfter(keys: Keys, e: Event): Result<Keys, LogError>
  {
    match e.kind
    case Activation =>
      if e.keyId in keys && keys[e.keyId].status == Active then Err(ConflictingActivation)
      else Ok(keys[e.keyId := Fresh(e, "ed25519")])
    case Rotation =>
      if Truthy(e.related).None? then Err(RotationNeedsPredecessor)
      else
        var pred := e.related.value;
        if pred !in keys then Err(UnknownPredecessor)
        else if keys[pred].status == Compromised then Err(CompromisedPredecessor)
        else Ok(keys[pred := Closed(keys[pred], e.timestamp, Rotated)][e.keyId := Fresh(e, keys[pred].algorithm)])
    case Compromise =>
      if e.keyId !in keys then Err(UnknownKey)
      else Ok(keys[e.keyId := Closed(keys[e.keyId], e.timestamp, Compromised)])
    case Retirement =>
      if e.keyId !in keys then Err(UnknownKey)
      else Ok(keys[e.keyId := Closed(keys[e.keyId], e.timestamp, Retired)])
    case CheckpointMark => Ok(keys)
  }

  function AppendLog(d: Digests, org: string, log: Log, e: Event): Result<Log, LogError>
  {
    var n := |log.events|;
    if n >= MAX_EVENTS then Err(LogFull)
    else if e.org != org then Err(OrgMismatch)
    else if e.sequence != n then Err(BadSequence)
    else if n == 0 && e.previous.Some? then Err(GenesisHasPrevious)
    else if n > 0 && e.previous != Some(EventHash(d, log.events[n - 1])) then Err(BrokenChain)
    else
      var keys := KeysAfter(log.keys, e);
      if keys.Err? then Err(keys.error) else Ok(Log(log.events + [e], keys.value))
  }

  /** Append every event in turn; fail at the first that is refused. */
  function Replay(d: Digests, org: string, log: Log, es: seq<Event>): Result<Log, LogError>
    decreases |es|
  {
    if es == [] then Ok(log)
    else
      var next := AppendLog(d, org, log, es[0]);
      if next.Err? then next else Replay(d, org, next.value, es[1..])
  }

  const EMPTY_LOG: Log := Log([], map[])

  lemma {:induction false} ReplaySnoc(d: Digests, org: string, log: Log, es: seq<Event>, e: Event)
    ensures Replay(d, org, log, es + [e]) ==
            var mid := Replay(d, org, log, es);
            if mid.Err? then mid else AppendLog(d, org, mid.value, e)
    decreases |es|
  {
    if es == [] {
      assert es + [e] == [e] && [e][1..] == [];
    } else {
      assert (es + [e])[1..] == es[1..] + [e];
      var next := AppendLog(d, org, log, es[0]);
      if next.Ok? { ReplaySnoc(d, org, next.value, es[1..], e); }
    }
  }

  /** A log that appending has produced from nothing. */
  ghost predicate Accepted(d: Digests, org: string, log: Log)
  {
    Replay(d, org, EMPTY_LOG, log.events) == Ok(log)
  }

  lemma AppendKeepsAccepted(d: Digests, org: string, log: Log, e: Event)
    requires Accepted(d, org, log) && AppendLog(d, org, log, e).Ok?
    ensures Accepted(d, org, AppendLog(d, org, log, e).value)
  {
    ReplaySnoc(d, org, EMPTY_LOG, log.events, e);
  }

  /** What every accepted log looks like. */
  ghost predicate Chained(d: Digests, org: string, log: Log)
  {
    && |log.events| <= MAX_EVENTS
    && (forall i :: 0 <= i < |log.events| ==> log.events[i].sequence == i && log.events[i].org == org)
    && (log.events != [] ==> log.events[0].previous == None)
    && (forall i :: 0 < i < |log.events| ==> log.events[i].previous == Some(EventHash(d, log.events[i - 1])))
    && (forall k :: k in log.keys ==>
          log.keys[k].keyId == k && (log.keys[k].status == Active <==> log.keys[k].validUntil.None?))
  }

  lemma KeysStayMarked(keys: Keys, e: Event)
    requires forall k :: k in keys ==> keys[k].keyId == k && (keys[k].status == Active <==> keys[k].validUntil.None?)
    requires KeysAfter(keys, e).Ok?
    ensures var keys' := KeysAfter(keys, e).value;
            forall k :: k in keys' ==> keys'[k].keyId == k && (keys'[k].status == Active <==> keys'[k].validUntil.None?)
  {
  }

  lemma AppendKeepsChained(d: Digests, org: string, log: Log, e: Event)
    requires Chained(d, org, log) && AppendLog(d, org, log, e).Ok?
    ensures Chained(d, org, AppendLog(d, org, log, e).value)
  {
    KeysStayMarked(log.keys, e);
    var es, es' := log.events, log.events + [e];
    forall i | 0 < i < |es'| ensures es'[i].previous == Some(EventHash(d, es'[i - 1])) {
      assert es'[i - 1] == es[i - 1] && (i < |es| ==> es'[i] == es[i]);
    }
  }

  lemma FirstThenRest(done: seq<Event>, es: seq<Event>)
    requires es != []
    ensures done + es == (done + [es[0]]) + es[1..]
  {
  }

  lemma {:induction false} ReplayChained(d: Digests, org: string, log: Log, es: seq<Event>)
    requires Chained(d, org, log) && Replay(d, org, log, es).Ok?
    ensures Chained(d, org, Replay(d, org, log, es).value)
    ensures Replay(d, org, log, es).value.events == log.events + es
    decreases |es|
  {
    if es == [] {
      assert log.events + es == log.events;
    } else {
      AppendKeepsChained(d, org, log, es[0]);
      ReplayChained(d, org, AppendLog(d, org, log, es[0]).value, es[1..]);
      FirstThenRest(log.events, es);
    }
  }

  /** In every accepted log sequence numbers are positions, each event carries its predecessor's hash, and
      a key is active exactly while it has no end of validity. */
  lemma AcceptedIsChained(d: Digests, org: string, log: Log)
    requires Accepted(d, org, log)
    ensures Chained(d, org, log)
  {
    ReplayChained(d, org, EMPTY_LOG, log.events);
  }

  /** The texts hashed for the events themselves. */
  ghost function EventTexts(d: Digests, es: seq<Event>): set<string>
  {
    set i | 0 <= i < |es| :: d.eventJson(Canon(es[i]))
  }

  lemma {:induction false} SameFrom(d: Digests, org: string, a: Log, b: Log, i: nat)
    requires Sound(d) && Chained(d, org, a) && Chained(d, org, b)
    requires NoCollision(d, EventTexts(d, a.events) + EventTexts(d, b.events))
    requires i < |a.events| && i < |b.events| && Canon(a.events[i]) == Canon(b.events[i])
    ensures forall j :: 0 <= j <= i ==> Canon(a.events[j]) == Canon(b.events[j])
    decreases i
  {
    if i > 0 {
      assert |EventHash(d, a.events[i - 1])| == 64 && |EventHash(d, b.events[i - 1])| == 64;
      assert EventHash(d, a.events[i - 1]) == EventHash(d, b.events[i - 1]);
      assert d.eventJson(Canon(a.events[i - 1])) in EventTexts(d, a.events);
      assert d.eventJson(Canon(b.events[i - 1])) in EventTexts(d, b.events);
      SameFrom(d, org, a, b, i - 1);
    }
  }

  /** Two accepted logs that end in the same event are the same log, and leave the same keys. */
  lemma LastEventPinsLog(d: Digests, org: string, a: Log, b: Log)
    requires Sound(d) && Accepted(d, org, a) && Accepted(d, org, b)
    requires NoCollision(d, EventTexts(d, a.events) + EventTexts(d, b.events))
    requires a.events != [] && b.events != []
    requires Canon(a.events[|a.events| - 1]) == Canon(b.events[|b.events| - 1])
    ensures CanonAll(a.events) == CanonAll(b.events) && a.keys == b.keys
  {
    AcceptedIsChained(d, org, a);
    AcceptedIsChained(d, org, b);
    assert a.events[|a.events| - 1].sequence == b.events[|b.events| - 1].sequence;
    SameFrom(d, org, a, b, |a.events| - 1);
    SameCanonSameKeys(d, org, a.events, b.events, EMPTY_LOG, EMPTY_LOG);
  }

  /** The key table depends on an event only through its serialised form. */
  lemma {:induction false} SameCanonSameKeys(d: Digests, org: string, a: seq<Event>, b: seq<Event>, la: Log, lb: Log)
    requires |a| == |b| && forall i :: 0 <= i < |a| ==> Canon(a[i]) == Canon(b[i])
    requires la.keys == lb.keys && Replay(d, org, la, a).Ok? && Replay(d, org, lb, b).Ok?
    ensures Replay(d, org, la, a).value.keys == Replay(d, org, lb, b).value.keys
    decreases |a|
  {
    if a != [] {
      assert Canon(a[0]) == Canon(b[0]);
      assert KeysAfter(la.keys, a[0]) == KeysAfter(la.keys, b[0]);
      SameCanonSameKeys(d, org, a[1..], b[1..], AppendLog(d, org, la, a[0]).value, AppendLog(d, org, lb, b[0]).value);
    }
  }

  // ----- manifests

  datatype ManifestError = ManifestOrgMismatch | ManifestTooLarge | TooManyKeys | AddressRequired | BrokenManifestLink

  /** The unsigned record that is serialised. */
  function Unsigned(m: Manifest): Manifest
  {
    m.(predecessor := Truthy(m.predecessor), successor := Truthy(m.successor), signature := None)
  }

  function ManifestHash(d: Digests, m: Manifest): Result<string, ManifestError>
  {
    var text := d.manifestJson(Unsigned(m));
    if d.size(text) > MAX_MANIFEST_BYTES then Err(ManifestTooLarge)
    else if |m.activeKeys| > MAX_ACTIVE_KEYS then Err(TooManyKeys)
    else if m.address == "" then Err(AddressRequired)
    else Ok(d.sha(text))
  }

  datatype Shelf = Shelf(current: Option<Manifest>, byHash: map<string, Manifest>)

  const EMPTY_SHELF: Shelf := Shelf(None, map[])

  /** The prior manifest as it is stored once its successor is known. */
  function Linked(m: Manifest, h: string): Manifest
  {
    m.(successor := Some(h))
  }

  function Publish(d: Digests, org: string, shelf: Shelf, m: Manifest): Result<Shelf, ManifestError>
  {
    if m.org != org then Err(ManifestOrgMismatch)
    else
      var h := ManifestHash(d, m);
      if h.Err? then Err(h.error)
      else if shelf.current.None? then Ok(Shelf(Some(m), shelf.byHash[h.value := m]))
      else
        var prev := ManifestHash(d, shelf.current.value);
        if prev.Err? then Err(prev.error)
        else if m.predecessor != Some(prev.value) then Err(BrokenManifestLink)
        else Ok(Shelf(Some(m), shelf.byHash[prev.value := Linked(shelf.current.value, h.value)][h.value := m]))
  }

  function PublishAll(d: Digests, org: string, shelf: Shelf, ms: seq<Manifest>): Result<Shelf, ManifestError>
    decreases |ms|
  {
    if ms == [] then Ok(shelf)
    else
      var next := Publish(d, org, shelf, ms[0]);
      if next.Err? then next else PublishAll(d, org, next.value, ms[1..])
  }

  lemma {:induction false} PublishSnoc(d: Digests, org: string, shelf: Shelf, ms: seq<Manifest>, m: Manifest)
    ensures PublishAll(d, org, shelf, ms + [m]) ==
            var mid := PublishAll(d, org, shelf, ms);
            if mid.Err? then mid else Publish(d, org, mid.value, m)
    decreases |ms|
  {
    if ms == [] {
      assert ms + [m] == [m] && [m][1..] == [];
    } else {
      assert (ms + [m])[1..] == ms[1..] + [m];
      var next := Publish(d, org, shelf, ms[0]);
      if next.Ok? { PublishSnoc(d, org, next.value, ms[1..], m); }
    }
  }

  /** Recording the successor changes what the stored manifest hashes to, unless it already named that successor. */
  lemma LinkedDigest(d: Digests, m: Manifest, h: string)
    requires Sound(d) && |h| == 64
    requires NoCollision(d, {d.manifestJson(Unsigned(m)), d.manifestJson(Unsigned(Linked(m, h)))})
    ensures d.sha(d.manifestJson(Unsigned(Linked(m, h)))) == d.sha(d.manifestJson(Unsigned(m))) <==>
            m.successor == Some(h)
  {
    assert Unsigned(Linked(m, h)).successor == Some(h);
    if m.successor == Some(h) {
      assert Linked(m, h) == m;
    }
  }

  // ----- the directory

  datatype Directory = Directory(org: string, log: Log, shelf: Shelf)

  function EmptyDirectory(org: string): Directory
  {
    Directory(org, EMPTY_LOG, EMPTY_SHELF)
  }

  class IssuerDirectory {
    var org: string
    var events: seq<Event>
    var keys: Keys
    var currentManifest: Option<Manifest>
    var manifestsByHash: map<string, Manifest>

    function State(): Directory
      reads this
    {
      Directory(org, Log(events, keys), Shelf(currentManifest, manifestsByHash))
    }

    constructor (org: string)
      ensures State() == EmptyDirectory(org)
    {
      this.org := org;
      events, keys := [], map[];
      currentManifest, manifestsByHash := None, map[];
    }

    /** An accepted event extends the log and the key table; a refused one changes nothing. */
    method AppendEvent(d: Digests, e: Event) returns (refused: Option<LogError>)
      modifies this
      ensures State().org == old(org) && State().shelf == old(State().shelf)
      ensures match AppendLog(d, old(org), old(State().log), e)
              case Ok(log) => refused == None && State().log == log
              case Err(error) => refused == Some(error) && State().log == old(State().log)
    {
      if |events| >= MAX_EVENTS { return Some(LogFull); }
      if e.org != org { return Some(OrgMismatch); }
      if e.sequence != |events| { return Some(BadSequence); }
      if |events| == 0 {
        if e.previous.Some? { return Some(GenesisHasPrevious); }
      } else if e.previous != Some(EventHash(d, events[|events| - 1])) {
        return Some(BrokenChain);
      }
      match e.kind {
        case Activation =>
          if e.keyId in keys && keys[e.keyId].status == Active { return Some(ConflictingActivation); }
          keys := keys[e.keyId := Fresh(e, "ed25519")];
        case Rotation =>
          if Truthy(e.related).None? { return Some(RotationNeedsPredecessor); }
          if e.related.value !in keys { return Some(UnknownPredecessor); }
          var pred := keys[e.related.value];
          if pred.status == Compromised { return Some(CompromisedPredecessor); }
          keys := keys[e.related.value := Closed(pred, e.timestamp, Rotated)];
          keys := keys[e.keyId := Fresh(e, pred.algorithm)];
        case Compromise =>
          if e.keyId !in keys { return Some(UnknownKey); }
          keys := keys[e.keyId := Closed(keys[e.keyId], e.timestamp, Compromised)];
        case Retirement =>
          if e.keyId !in keys { return Some(UnknownKey); }
          keys := keys[e.keyId := Closed(keys[e.keyId], e.timestamp, Retired)];
        case CheckpointMark =>
      }
      events := events + [e];
      refused := None;
    }

    method PublishManifest(d: Digests, m: Manifest) returns (r: Result<string, ManifestError>)
      modifies this
      ensures State().org == old(org) && State().log == old(State().log)
      ensures match Publish(d, old(org), old(State().shelf), m)
              case Ok(shelf) => r == ManifestHash(d, m) && State().shelf == shelf
              case Err(error) => r == Err(error) && State().shelf == old(State().shelf)
    {
      if m.org != org { return Err(ManifestOrgMismatch); }
      r := ManifestHash(d, m);
      if r.Err? { return; }
      if currentManifest.Some? {
        var prev := ManifestHash(d, currentManifest.value);
        if prev.Err? { return prev; }
        if m.predecessor != Some(prev.value) { return Err(BrokenManifestLink); }
        manifestsByHash := manifestsByHash[prev.value := Linked(currentManifest.value, r.value)];
      }
      manifestsByHash := manifestsByHash[r.value := m];
      currentManifest := Some(m);
    }
  }

  // ----- runs

  datatype Op = AppendOp(e: Event) | PublishOp(m: Manifest)

  /** A directory with the manifests it has accepted, in order. */
  datatype History = History(dir: Directory, published: seq<Manifest>)

  function Step(d: Digests, s: History, op: Op): History
  {
    match op
    case AppendOp(e) =>
      var r := AppendLog(d, s.dir.org, s.dir.log, e);
      if r.Ok? then s.(dir := s.dir.(log := r.value)) else s
    case PublishOp(m) =>
      var r := Publish(d, s.dir.org, s.dir.shelf, m);
      if r.Ok? then History(s.dir.(shelf := r.value), s.published + [m]) else s
  }

  function Run(d: Digests, s: History, ops: seq<Op>): History
    decreases |ops|
  {
    if ops == [] then s else Run(d, Step(d, s, ops[0]), ops[1..])
  }

  /** Rebuild from the authoritative events and then the manifests. */
  function Rebuild(d: Digests, org: string, es: seq<Event>, ms: seq<Manifest>): Option<Directory>
  {
    var log := Replay(d, org, EMPTY_LOG, es);
    var shelf := PublishAll(d, org, EMPTY_SHELF, ms);
    if log.Ok? && shelf.Ok? then Some(Directory(org, log.value, shelf.value)) else None
  }

  method RebuildDirectory(d: Digests, org: string, es: seq<Event>, ms: seq<Manifest>)
    returns (dir: IssuerDirectory, ok: bool)
    ensures ok <==> Rebuild(d, org, es, ms).Some?
    ensures ok ==> dir.State() == Rebuild(d, org, es, ms).value
  {
    dir := new IssuerDirectory(org);
    for i := 0 to |es|
      invariant fresh(dir) && dir.org == org && dir.State().shelf == EMPTY_SHELF
      invariant Replay(d, org, dir.State().log, es[i..]) == Replay(d, org, EMPTY_LOG, es)
    {
      assert es[i..][0] == es[i] && es[i..][1..] == es[i + 1..];
      var refused := dir.AppendEvent(d, es[i]);
      if refused.Some? {
        return dir, false;
      }
    }
    for i := 0 to |ms|
      invariant fresh(dir) && dir.org == org && Replay(d, org, EMPTY_LOG, es) == Ok(dir.State().log)
      invariant PublishAll(d, org, dir.State().shelf, ms[i..]) == PublishAll(d, org, EMPTY_SHELF, ms)
    {
      assert ms[i..][0] == ms[i] && ms[i..][1..] == ms[i + 1..];
      var published := dir.PublishManifest(d, ms[i]);
      if published.Err? {
        return dir, false;
      }
    }
    ok := true;
  }

  /** What holds of every directory a run can reach. */
  ghost predicate Reachable(d: Digests, s: History)
  {
    && Accepted(d, s.dir.org, s.dir.log)
    && PublishAll(d, s.dir.org, EMPTY_SHELF, s.published) == Ok(s.dir.shelf)
    && (s.dir.shelf.current.Some? ==> ManifestHash(d, s.dir.shelf.current.value).Ok?)
    && (s.dir.shelf.current.Some? <==> s.published != [])
  }

  lemma StepKeepsReachable(d: Digests, s: History, op: Op)
    requires Reachable(d, s)
    ensures Reachable(d, Step(d, s, op))
    ensures s.dir.log.events <= Step(d, s, op).dir.log.events && Step(d, s, op).dir.org == s.dir.org
    ensures s.dir.shelf.current.Some? ==> Step(d, s, op).dir.shelf.current.Some?
  {
    match op
    case AppendOp(e) =>
      if AppendLog(d, s.dir.org, s.dir.log, e).Ok? { AppendKeepsAccepted(d, s.dir.org, s.dir.log, e); }
    case PublishOp(m) =>
      PublishSnoc(d, s.dir.org, EMPTY_SHELF, s.published, m);
  }

  /** Over every run the log only grows, and the directory stays what its log and manifests rebuild to. */
  lemma {:induction false} RunKeepsReachable(d: Digests, s: History, ops: seq<Op>)
    requires Reachable(d, s)
    ensures Reachable(d, Run(d, s, ops))
    ensures s.dir.log.events <= Run(d, s, ops).dir.log.events && Run(d, s, ops).dir.org == s.dir.org
    ensures s.dir.shelf.current.Some? ==> Run(d, s, ops).dir.shelf.current.Some?
    decreases |ops|
  {
    if ops != [] {
      StepKeepsReachable(d, s, ops[0]);
      RunKeepsReachable(d, Step(d, s, ops[0]), ops[1..]);
    }
  }

  /** However appends and publications interleave, rebuilding from the resulting log and the accepted
      manifests gives the same directory: same keys, same manifests, same links. */
  lemma RunRebuilds(d: Digests, org: string, ops: seq<Op>)
    ensures var s := Run(d, History(EmptyDirectory(org), []), ops);
            && Rebuild(d, org, s.dir.log.events, s.published) == Some(s.dir)
            && Chained(d, org, s.dir.log)
  {
    var s0 := History(EmptyDirectory(org), []);
    assert Reachable(d, s0);
    RunKeepsReachable(d, s0, ops);
    AcceptedIsChained(d, org, Run(d, s0, ops).dir.log);
  }

  // ----- checkpoints

  datatype Checkpoint = Checkpoint(treeHead: string, eventCount: int, timestamp: int, org: string, manifestHash: string)

  function MakeCheckpoint(d: Digests, dir: Directory, timestamp: int): Option<Checkpoint>
  {
    if dir.shelf.current.None? then None
    else
      var h := ManifestHash(d, dir.shelf.current.value);
      if h.Err? then None
      else Some(Checkpoint(Head(d, dir.log.events), |dir.log.events|, timestamp, dir.org, h.value))
  }

  datatype Finding =
    | OrgDiffers
    | CountExceedsLog
    | PrefixDiverges
    | HeadDiffers
    | ManifestDiffers
    | CountDecreased

  function When(b: bool, f: Finding): seq<Finding>
  {
    if b then [f] else []
  }

  lemma InEither(s: seq<Finding>, t: seq<Finding>, f: Finding)
    ensures f in s + t <==> f in s || f in t
  {
  }

  lemma InWhen(b: bool, g: Finding, f: Finding)
    ensures f in When(b, g) <==> b && f == g
  {
  }

  lemma FoundIn(a: bool, fa: Finding, b: bool, fb: Finding, c: bool, fc: Finding, e: bool, fe: Finding, f: Finding)
    ensures f in When(a, fa) + When(b, fb) + When(c, fc) + When(e, fe) <==>
            (a && f == fa) || (b && f == fb) || (c && f == fc) || (e && f == fe)
  {
    var s, t, u, v := When(a, fa), When(b, fb), When(c, fc), When(e, fe);
    InWhen(a, fa, f);
    InWhen(b, fb, f);
    InWhen(c, fc, f);
    InWhen(e, fe, f);
    AmongFour(s, t, u, v, f);
  }

  lemma AmongFour(s: seq<Finding>, t: seq<Finding>, u: seq<Finding>, v: seq<Finding>, f: Finding)
    ensures f in s + t + u + v <==> f in s || f in t || f in u || f in v
  {
    InEither(s + t + u, v, f);
    InEither(s + t, u, f);
    InEither(s, t, f);
  }

  /** The leading n events; a negative count drops from the end, as slices of the source do. */
  function Leading(es: seq<Event>, n: int): seq<Event>
  {
    if n >= |es| then es else if n >= 0 then es[..n] else if -n <= |es| then es[..|es| + n] else []
  }

  function VerifyCheckpoint(d: Digests, dir: Directory, cp: Checkpoint): seq<Finding>
  {
    var es := dir.log.events;
    When(cp.org != dir.org, OrgDiffers)
    + When(cp.eventCount > |es|, CountExceedsLog)
    + (if cp.eventCount < |es| then When(cp.treeHead != Head(d, Leading(es, cp.eventCount)), PrefixDiverges)
       else When(cp.treeHead != Head(d, es), HeadDiffers))
    + When(dir.shelf.current.Some? && cp.eventCount == |es|
           && ManifestHash(d, dir.shelf.current.value) != Ok(cp.manifestHash), ManifestDiffers)
  }

  /** Logs that serialise alike have the same head. */
  lemma {:induction false} CanonPinsHead(d: Digests, a: seq<Event>, b: seq<Event>)
    requires CanonAll(a) == CanonAll(b)
    ensures Head(d, a) == Head(d, b)
    decreases |a|
  {
    assert |a| == |CanonAll(a)| == |CanonAll(b)| == |b|;
    if a != [] {
      var n := |a| - 1;
      assert CanonAll(a)[n] == CanonAll(b)[n];
      forall i | 0 <= i < n ensures CanonAll(a[..n])[i] == CanonAll(b[..n])[i] {
        assert CanonAll(a)[i] == CanonAll(b)[i];
      }
      CanonPinsHead(d, a[..n], b[..n]);
    }
  }

  lemma SameHeadIff(d: Digests, a: seq<Event>, b: seq<Event>)
    requires Sound(d) && |a| == |b| && NoCollision(d, Hashed(d, a) + Hashed(d, b))
    ensures Head(d, a) == Head(d, b) <==> CanonAll(a) == CanonAll(b)
  {
    if Head(d, a) == Head(d, b) { HeadPinsLog(d, a, b); }
    if CanonAll(a) == CanonAll(b) { CanonPinsHead(d, a, b); }
  }

  /** B's log is, as serialised, a prefix of A's. */
  predicate IsPrefix(b: seq<Event>, a: seq<Event>)
  {
    |b| <= |a| && CanonAll(b) == CanonAll(a[..|b|])
  }

  /** A finds a checkpoint of B consistent exactly when they are directories of one organisation, B's log is a prefix
      of A's, and at equal length A has no manifest or one with the hash of B's. */
  lemma ConsistentIff(d: Digests, a: Directory, b: Directory, timestamp: int)
    requires Sound(d) && MakeCheckpoint(d, b, timestamp).Some?
    requires |b.log.events| <= |a.log.events| ==>
               NoCollision(d, Hashed(d, a.log.events[..|b.log.events|]) + Hashed(d, b.log.events))
    ensures VerifyCheckpoint(d, a, MakeCheckpoint(d, b, timestamp).value) == [] <==>
            && a.org == b.org && IsPrefix(b.log.events, a.log.events)
            && (|b.log.events| == |a.log.events| && a.shelf.current.Some? ==>
                  ManifestHash(d, a.shelf.current.value) == ManifestHash(d, b.shelf.current.value))
  {
    var es, n := a.log.events, |b.log.events|;
    if n <= |es| {
      assert es[..|es|] == es;
      if Head(d, es[..n]) == Head(d, b.log.events) { HeadPinsLog(d, es[..n], b.log.events); }
      if IsPrefix(b.log.events, es) { CanonPinsHead(d, b.log.events, es[..n]); }
    }
  }

  /** What A finds against a checkpoint of B whose log is no longer than its own. */
  lemma ConsistencyFindings(d: Digests, a: Directory, b: Directory, timestamp: int, f: Finding)
    requires Sound(d) && MakeCheckpoint(d, b, timestamp).Some? && |b.log.events| <= |a.log.events|
    requires NoCollision(d, Hashed(d, a.log.events[..|b.log.events|]) + Hashed(d, b.log.events))
    ensures f in VerifyCheckpoint(d, a, MakeCheckpoint(d, b, timestamp).value) <==>
            match f
            case OrgDiffers => a.org != b.org
            case PrefixDiverges => |b.log.events| < |a.log.events| && !IsPrefix(b.log.events, a.log.events)
            case HeadDiffers => |b.log.events| == |a.log.events| && !IsPrefix(b.log.events, a.log.events)
            case ManifestDiffers =>
              && |b.log.events| == |a.log.events| && a.shelf.current.Some?
              && ManifestHash(d, a.shelf.current.value) != ManifestHash(d, b.shelf.current.value)
            case _ => false
  {
    var cp := MakeCheckpoint(d, b, timestamp).value;
    FoundAgainst(d, a, cp, f);
    SameHeadIff(d, a.log.events[..|b.log.events|], b.log.events);
  }

  lemma FoundAgainst(d: Digests, dir: Directory, cp: Checkpoint, f: Finding)
    requires 0 <= cp.eventCount <= |dir.log.events|
    ensures f in VerifyCheckpoint(d, dir, cp) <==>
            || (f == OrgDiffers && cp.org != dir.org)
            || (f == (if cp.eventCount < |dir.log.events| then PrefixDiverges else HeadDiffers)
                && cp.treeHead != Head(d, dir.log.events[..cp.eventCount]))
            || (f == ManifestDiffers && dir.shelf.current.Some? && cp.eventCount == |dir.log.events|
                && ManifestHash(d, dir.shelf.current.value) != Ok(cp.manifestHash))
  {
    var es, n := dir.log.events, cp.eventCount;
    var other := dir.shelf.current.Some? && n == |es|
                 && ManifestHash(d, dir.shelf.current.value) != Ok(cp.manifestHash);
    assert es[..|es|] == es;
    FoundIn(cp.org != dir.org, OrgDiffers, n > |es|, CountExceedsLog, cp.treeHead != Head(d, es[..n]),
            if n < |es| then PrefixDiverges else HeadDiffers, other, ManifestDiffers, f);
  }

  /** A longer log is reported as such. */
  lemma LongerLogFound(d: Digests, a: Directory, b: Directory, timestamp: int)
    requires MakeCheckpoint(d, b, timestamp).Some?
    ensures CountExceedsLog in VerifyCheckpoint(d, a, MakeCheckpoint(d, b, timestamp).value) <==>
            |b.log.events| > |a.log.events|
  {
  }

  /** A checkpoint of B that A finds consistent proves B's log a prefix of A's, with the keys that prefix gives. */
  lemma ConsistentMeansPrefix(d: Digests, a: Directory, b: Directory, timestamp: int)
    requires Sound(d) && Accepted(d, a.org, a.log) && Accepted(d, b.org, b.log)
    requires MakeCheckpoint(d, b, timestamp).Some?
    requires VerifyCheckpoint(d, a, MakeCheckpoint(d, b, timestamp).value) == []
    requires |b.log.events| <= |a.log.events| ==>
               NoCollision(d, Hashed(d, a.log.events[..|b.log.events|]) + Hashed(d, b.log.events))
    ensures a.org == b.org && |b.log.events| <= |a.log.events|
    ensures CanonAll(b.log.events) == CanonAll(a.log.events[..|b.log.events|])
    ensures var prefix := Replay(d, a.org, EMPTY_LOG, a.log.events[..|b.log.events|]);
            prefix.Ok? && prefix.value.keys == b.log.keys
  {
    var n := |b.log.events|;
    ConsistentIff(d, a, b, timestamp);
    ReplayPrefix(d, a.org, EMPTY_LOG, a.log.events, n);
    forall i | 0 <= i < n ensures Canon(a.log.events[..n][i]) == Canon(b.log.events[i]) {
      assert CanonAll(a.log.events[..n])[i] == CanonAll(b.log.events)[i];
    }
    SameCanonSameKeys(d, a.org, a.log.events[..n], b.log.events, EMPTY_LOG, EMPTY_LOG);
  }

  lemma {:induction false} ReplayPrefix(d: Digests, org: string, log: Log, es: seq<Event>, n: nat)
    requires n <= |es| && Replay(d, org, log, es).Ok?
    ensures Replay(d, org, log, es[..n]).Ok?
    decreases n
  {
    if n > 0 {
      ReplayPrefix(d, org, AppendLog(d, org, log, es[0]).value, es[1..], n - 1);
      assert es[..n][1..] == es[1..][..n - 1];
    }
  }

  /** A directory's own checkpoint stays consistent after any run exactly when an event has been accepted
      since or the current manifest still has the same hash. */
  lemma OwnCheckpointStays(d: Digests, s: History, ops: seq<Op>, timestamp: int)
    requires Reachable(d, s) && s.dir.shelf.current.Some?
    ensures MakeCheckpoint(d, s.dir, timestamp).Some?
    ensures var s' := Run(d, s, ops);
            && s'.dir.shelf.current.Some?
            && (VerifyCheckpoint(d, s'.dir, MakeCheckpoint(d, s.dir, timestamp).value) == [] <==>
                |s'.dir.log.events| > |s.dir.log.events| ||
                ManifestHash(d, s'.dir.shelf.current.value) == ManifestHash(d, s.dir.shelf.current.value))
  {
    RunKeepsReachable(d, s, ops);
    var es, es' := s.dir.log.events, Run(d, s, ops).dir.log.events;
    assert es'[..|es|] == es;
    if |es'| == |es| { assert es' == es; }
  }

  /** Compare a newly seen checkpoint with one seen before. */
  function DetectRollback(seen: Checkpoint, candidate: Checkpoint): seq<Finding>
  {
    var same := candidate.eventCount == seen.eventCount;
    When(candidate.org != seen.org, OrgDiffers)
    + When(candidate.eventCount < seen.eventCount, CountDecreased)
    + When(same && candidate.treeHead != seen.treeHead, HeadDiffers)
    + When(same && candidate.manifestHash != seen.manifestHash, ManifestDiffers)
  }

  /** Of two directories with checkpoints, which findings the second raises against the first: another organisation, a
      shorter log, or, at equal length, a log that serialises otherwise or a manifest with another hash. */
  lemma RollbackFindings(d: Digests, a: Directory, b: Directory, t: int, t': int, f: Finding)
    requires Sound(d) && MakeCheckpoint(d, a, t).Some? && MakeCheckpoint(d, b, t').Some?
    requires |a.log.events| == |b.log.events| ==> NoCollision(d, Hashed(d, a.log.events) + Hashed(d, b.log.events))
    ensures f in DetectRollback(MakeCheckpoint(d, a, t).value, MakeCheckpoint(d, b, t').value) <==>
            match f
            case OrgDiffers => a.org != b.org
            case CountDecreased => |b.log.events| < |a.log.events|
            case HeadDiffers => |a.log.events| == |b.log.events| && CanonAll(a.log.events) != CanonAll(b.log.events)
            case ManifestDiffers =>
              && |a.log.events| == |b.log.events|
              && ManifestHash(d, a.shelf.current.value) != ManifestHash(d, b.shelf.current.value)
            case _ => false
  {
    var es, bs := a.log.events, b.log.events;
    var seen, next := MakeCheckpoint(d, a, t).value, MakeCheckpoint(d, b, t').value;
    if |es| == |bs| { SameHeadIff(d, es, bs); }
    FoundIn(next.org != seen.org, OrgDiffers, |bs| < |es|, CountDecreased,
            |bs| == |es| && next.treeHead != seen.treeHead, HeadDiffers,
            |bs| == |es| && next.manifestHash != seen.manifestHash, ManifestDiffers, f);
  }

  /** So there is none exactly when the second may follow the first. */
  lemma NoRollbackIff(d: Digests, a: Directory, b: Directory, t: int, t': int)
    requires Sound(d) && MakeCheckpoint(d, a, t).Some? && MakeCheckpoint(d, b, t').Some?
    requires |a.log.events| == |b.log.events| ==> NoCollision(d, Hashed(d, a.log.events) + Hashed(d, b.log.events))
    ensures DetectRollback(MakeCheckpoint(d, a, t).value, MakeCheckpoint(d, b, t').value) == [] <==>
            && a.org == b.org && |a.log.events| <= |b.log.events|
            && (|a.log.events| == |b.log.events| ==>
                  && CanonAll(a.log.events) == CanonAll(b.log.events)
                  && ManifestHash(d, a.shelf.current.value) == ManifestHash(d, b.shelf.current.value))
  {
    if |a.log.events| == |b.log.events| { SameHeadIff(d, a.log.events, b.log.events); }
  }

  /** An honest directory is accused of a rollback only when it changed its manifest without a new event. */
  lemma HonestRollback(d: Digests, s: History, ops: seq<Op>, t: int, t': int)
    requires Reachable(d, s) && s.dir.shelf.current.Some?
    ensures var s' := Run(d, s, ops);
            && MakeCheckpoint(d, s.dir, t).Some? && MakeCheckpoint(d, s'.dir, t').Some?
            && (DetectRollback(MakeCheckpoint(d, s.dir, t).value, MakeCheckpoint(d, s'.dir, t').value) == [] <==>
                |s'.dir.log.events| > |s.dir.log.events| ||
                ManifestHash(d, s'.dir.shelf.current.value) == ManifestHash(d, s.dir.shelf.current.value))
  {
    RunKeepsReachable(d, s, ops);
    var es, es' := s.dir.log.events, Run(d, s, ops).dir.log.events;
    if |es'| == |es| { assert es' == es; }
  }

  // ----- key validity

  predicate ValidAt(keys: Keys, k: string, t: int)
  {
    k in keys && keys[k].validFrom <= t && (keys[k].validUntil.Some? ==> t < keys[k].validUntil.value)
  }

  predicate CompromisedAt(keys: Keys, k: string, t: int)
  {
    k in keys && keys[k].status == Compromised && keys[k].validUntil.Some? && keys[k].validUntil.value <= t
  }

  /** The event starts a new life for key k. */
  predicate Reintroduces(e: Event, k: string)
  {
    (e.kind == Activation || e.kind == Rotation) && e.keyId == k
  }

  /** The event ends the validity of key k. */
  predicate Ends(e: Event, k: string)
  {
    (e.kind == Rotation && e.related == Some(k)) || ((e.kind == Compromise || e.kind == Retirement) && e.keyId == k)
  }

  /** Exactly which signature times one accepted event leaves valid for a key it does not reintroduce. An
      event that ends the key again replaces the earlier end, so a later end can widen the window. */
  lemma ValidityAfter(keys: Keys, e: Event, k: string, t: int)
    requires KeysAfter(keys, e).Ok? && !Reintroduces(e, k)
    ensures ValidAt(KeysAfter(keys, e).value, k, t) <==>
            if Ends(e, k) then k in keys && keys[k].validFrom <= t < e.timestamp else ValidAt(keys, k, t)
  {
  }

  /** A key that the event starts is valid from then on. */
  lemma StartedValidity(keys: Keys, e: Event, k: string, t: int)
    requires KeysAfter(keys, e).Ok? && Reintroduces(e, k)
    ensures ValidAt(KeysAfter(keys, e).value, k, t) <==> e.timestamp <= t
  {
  }

  /** Exactly which times one accepted event leaves compromised. */
  lemma CompromisedAfter(keys: Keys, e: Event, k: string, t: int)
    requires KeysAfter(keys, e).Ok?
    ensures CompromisedAt(KeysAfter(keys, e).value, k, t) <==>
            if e.kind == Compromise && e.keyId == k then e.timestamp <= t
            else !Reintroduces(e, k) && !Ends(e, k) && CompromisedAt(keys, k, t)
  {
  }

  /** A signature time accepted for k stays accepted through any events later than it that do not reintroduce k. */
  lemma {:induction false} ValidityStays(d: Digests, org: string, log: Log, es: seq<Event>, k: string, t: int)
    requires Replay(d, org, log, es).Ok? && ValidAt(log.keys, k, t)
    requires forall i :: 0 <= i < |es| ==> es[i].timestamp > t && !Reintroduces(es[i], k)
    ensures ValidAt(Replay(d, org, log, es).value.keys, k, t)
    decreases |es|
  {
    if es != [] {
      ValidityAfter(log.keys, es[0], k, t);
      ValidityStays(d, org, AppendLog(d, org, log, es[0]).value, es[1..], k, t);
    }
  }

  /** For a compromised key of any table, every time from its start is either valid or compromised, never both. */
  lemma CompromisedOrValid(keys: Keys, k: string, t: int)
    requires k in keys && keys[k].status == Compromised && keys[k].validFrom <= t
    ensures ValidAt(keys, k, t) <==> !CompromisedAt(keys, k, t)
  {
  }

  /** A time refused after a rotation is accepted again once the rotated key is retired later. */
  lemma RetirementWidensWindow(d: Digests)
    requires Sound(d)
    ensures exists log: Log, e: Event ::
              && Accepted(d, "org", log) && AppendLog(d, "org", log, e).Ok?
              && !ValidAt(log.keys, "k", 15) && ValidAt(AppendLog(d, "org", log, e).value.keys, "k", 15)
  {
    var e0 := Event(Activation, 0, 5, "org", "k", "p", None, None, None, None);
    var e1 := Event(Rotation, 1, 10, "org", "k2", "p2", Some(EventHash(d, e0)), Some("k"), None, None);
    var e2 := Event(Retirement, 2, 20, "org", "k", "p", Some(EventHash(d, e1)), None, None, None);
    var l0 := AppendLog(d, "org", EMPTY_LOG, e0).value;
    var l1 := AppendLog(d, "org", l0, e1).value;
    assert l0.events == [e0] && l1.events == [e0, e1];
    assert "k" != "k2" by { assert |"k"| != |"k2"|; }
    assert [e0, e1][1..] == [e1] && [e1][1..] == [];
    assert Replay(d, "org", l0, [e1]) == Ok(l1);
    assert Accepted(d, "org", l1);
    assert AppendLog(d, "org", l1, e2).Ok?;
  }
}
