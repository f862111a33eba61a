/** What digests of events and manifests pin, and what a directory's shelf of manifests holds after any publications. */
module ManifestHistory {
  import opened Outcomes
  import opened Transparency

  // ----- what a digest pins, field by field

  /** Equal, or both absent or empty. */
  predicate SameText(a: Option<string>, b: Option<string>)
  {
    a == b || ((a == None || a == Some("")) && (b == None || b == Some("")))
  }

  predicate SameEvent(a: Event, b: Event)
  {
    && a.kind == b.kind && a.sequence == b.sequence && a.timestamp == b.timestamp && a.org == b.org
    && a.keyId == b.keyId && a.publicKeyHash == b.publicKeyHash
    && SameText(a.previous, b.previous) && SameText(a.related, b.related)
    && SameText(a.manifest, b.manifest) && SameText(a.reason, b.reason)
  }

  lemma EventHashIff(d: Digests, a: Event, b: Event)
    requires Sound(d) && NoCollision(d, {d.eventJson(Canon(a)), d.eventJson(Canon(b))})
    ensures EventHash(d, a) == EventHash(d, b) <==> SameEvent(a, b)
  {
    if EventHash(d, a) == EventHash(d, b) {
      assert d.eventJson(Canon(a)) == d.eventJson(Canon(b));
    }
  }

  /** Logs that serialise alike agree event by event. */
  lemma CanonAllIff(a: seq<Event>, b: seq<Event>)
    ensures CanonAll(a) == CanonAll(b) <==> |a| == |b| && forall i :: 0 <= i < |a| ==> SameEvent(a[i], b[i])
  {
    if CanonAll(a) == CanonAll(b) {
      assert |a| == |CanonAll(a)| == |CanonAll(b)| == |b|;
      forall i | 0 <= i < |a| ensures SameEvent(a[i], b[i]) {
        assert CanonAll(a)[i] == CanonAll(b)[i];
      }
    }
  }

  /** Everything but the signature. */
  predicate SameManifest(a: Manifest, b: Manifest)
  {
    && a.org == b.org && a.address == b.address && a.activeKeys == b.activeKeys && a.policy == b.policy
    && a.validFrom == b.validFrom && a.validUntil == b.validUntil
    && SameText(a.predecessor, b.predecessor) && SameText(a.successor, b.successor)
  }

  /** A manifest has a digest exactly when it is small enough, has at most eight keys and names an address. */
  lemma HasDigestIff(d: Digests, m: Manifest)
    ensures ManifestHash(d, m).Ok? <==>
            d.size(d.manifestJson(Unsigned(m))) <= 8_192 && |m.activeKeys| <= 8 && m.address != ""
    ensures ManifestHash(d, m).Err? ==>
              match ManifestHash(d, m).error
              case ManifestTooLarge => d.size(d.manifestJson(Unsigned(m))) > 8_192
              case TooManyKeys => d.size(d.manifestJson(Unsigned(m))) <= 8_192 && |m.activeKeys| > 8
              case AddressRequired =>
                d.size(d.manifestJson(Unsigned(m))) <= 8_192 && |m.activeKeys| <= 8 && m.address == ""
              case _ => false
  {
  }

  lemma ManifestHashIff(d: Digests, a: Manifest, b: Manifest)
    requires Sound(d) && NoCollision(d, {d.manifestJson(Unsigned(a)), d.manifestJson(Unsigned(b))})
    requires ManifestHash(d, a).Ok? && ManifestHash(d, b).Ok?
    ensures ManifestHash(d, a) == ManifestHash(d, b) <==> SameManifest(a, b)
  {
    if ManifestHash(d, a) == ManifestHash(d, b) {
      assert d.manifestJson(Unsigned(a)) == d.manifestJson(Unsigned(b));
    }
  }

  // ----- the shelf

  /** The digests of the manifests. */
  ghost predicate Digested(d: Digests, ms: seq<Manifest>, hs: seq<string>)
  {
    |hs| == |ms| && forall i :: 0 <= i < |ms| ==> ManifestHash(d, ms[i]) == Ok(hs[i])
  }

  /** No later manifest has the same digest. */
  ghost predicate LastWith(hs: seq<string>, i: int)
  {
    0 <= i < |hs| && forall j :: i < j < |hs| ==> hs[j] != hs[i]
  }

  /** A manifest as the shelf keeps it: with a link to the next one, if there is one. */
  function Kept(ms: seq<Manifest>, hs: seq<string>, i: nat): Manifest
    requires i < |ms| == |hs|
  {
    if i + 1 < |ms| then ms[i].(successor := Some(hs[i + 1])) else ms[i]
  }

  ghost predicate Stored(ms: seq<Manifest>, hs: seq<string>, byHash: map<string, Manifest>)
    requires |ms| == |hs|
  {
    && (forall h :: h in byHash <==> h in hs)
    && (forall i :: LastWith(hs, i) ==> hs[i] in byHash && byHash[hs[i]] == Kept(ms, hs, i))
  }

  ghost predicate Chain(org: string, ms: seq<Manifest>, hs: seq<string>)
    requires |ms| == |hs|
  {
    && (forall i :: 0 <= i < |ms| ==> ms[i].org == org)
    && (forall i :: 0 < i < |ms| ==> ms[i].predecessor == Some(hs[i - 1]))
  }

  ghost predicate Holds(d: Digests, org: string, ms: seq<Manifest>, hs: seq<string>, shelf: Shelf)
  {
    && Digested(d, ms, hs) && Chain(org, ms, hs) && Stored(ms, hs, shelf.byHash)
    && shelf.current == (if ms == [] then None else Some(ms[|ms| - 1]))
  }

  /** A manifest is accepted exactly when it is the organisation's, has a digest and, unless it is the first, names the
      digest of the current one as its predecessor. */
  lemma PublishIff(d: Digests, org: string, ms: seq<Manifest>, hs: seq<string>, shelf: Shelf, m: Manifest)
    requires Holds(d, org, ms, hs, shelf)
    ensures Publish(d, org, shelf, m).Ok? <==>
            m.org == org && ManifestHash(d, m).Ok? && (ms != [] ==> m.predecessor == Some(hs[|ms| - 1]))
    ensures Publish(d, org, shelf, m).Err? ==>
              match Publish(d, org, shelf, m).error
              case ManifestOrgMismatch => m.org != org
              case BrokenManifestLink => m.org == org && ManifestHash(d, m).Ok? && ms != []
              case error => m.org == org && ManifestHash(d, m) == Err(error)
  {
    if ms != [] { assert ManifestHash(d, ms[|ms| - 1]) == Ok(hs[|ms| - 1]); }
  }

  lemma StillLast(hs: seq<string>, h: string, i: int)
    requires i < |hs| && LastWith(hs + [h], i)
    ensures LastWith(hs, i) && h != hs[i]
  {
    var hs' := hs + [h];
    assert hs'[i] == hs[i] && hs'[|hs|] == h;
    forall j | i < j < |hs| ensures hs[j] != hs[i] {
      assert hs'[j] == hs[j];
    }
  }

  lemma KeptOrLinked(ms: seq<Manifest>, hs: seq<string>, m: Manifest, h: string, i: nat)
    requires i < |ms| == |hs|
    ensures Kept(ms + [m], hs + [h], i) == if i + 1 < |ms| then Kept(ms, hs, i) else Linked(ms[i], h)
  {
  }

  lemma FirstStored(m: Manifest, h: string, byHash: map<string, Manifest>)
    requires byHash.Keys == {}
    ensures Stored([m], [h], byHash[h := m])
  {
  }

  lemma NextStored(ms: seq<Manifest>, hs: seq<string>, byHash: map<string, Manifest>, m: Manifest, h: string, n: nat)
    requires |ms| == |hs| == n + 1 && Stored(ms, hs, byHash)
    ensures Stored(ms + [m], hs + [h], byHash[hs[n] := Linked(ms[n], h)][h := m])
  {
    var ms', hs' := ms + [m], hs + [h];
    var linked := byHash[hs[n] := Linked(ms[n], h)];
    var byHash' := linked[h := m];
    forall i | LastWith(hs', i) ensures hs'[i] in byHash' && byHash'[hs'[i]] == Kept(ms', hs', i) {
      if i <= n {
        StillLast(hs, h, i);
        KeptOrLinked(ms, hs, m, h, i);
        assert hs'[i] == hs[i] && byHash'[hs[i]] == linked[hs[i]];
        if i < n { assert hs[n] != hs[i]; }
      } else {
        assert hs'[i] == h && ms'[i] == m;
      }
    }
    forall k ensures k in byHash' <==> k in hs' {
      assert k in hs' <==> k in hs || k == h;
      assert hs[n] in hs;
    }
  }

  lemma ChainStep(d: Digests, org: string, ms: seq<Manifest>, hs: seq<string>, m: Manifest, h: string)
    requires Digested(d, ms, hs) && Chain(org, ms, hs) && m.org == org && ManifestHash(d, m) == Ok(h)
    requires ms != [] ==> m.predecessor == Some(hs[|ms| - 1])
    ensures Digested(d, ms + [m], hs + [h]) && Chain(org, ms + [m], hs + [h])
  {
  }

  lemma PublishHolds(d: Digests, org: string, ms: seq<Manifest>, hs: seq<string>, shelf: Shelf, m: Manifest)
    requires Holds(d, org, ms, hs, shelf) && Publish(d, org, shelf, m).Ok?
    ensures ManifestHash(d, m).Ok?
    ensures Holds(d, org, ms + [m], hs + [ManifestHash(d, m).value], Publish(d, org, shelf, m).value)
  {
    var h := ManifestHash(d, m).value;
    PublishIff(d, org, ms, hs, shelf, m);
    ChainStep(d, org, ms, hs, m, h);
    if ms == [] {
      assert ms + [m] == [m] && hs + [h] == [h];
      FirstStored(m, h, shelf.byHash);
    } else {
      NextStored(ms, hs, shelf.byHash, m, h, |ms| - 1);
    }
  }

  lemma OneMore(done: seq<Manifest>, ms: seq<Manifest>)
    requires ms != []
    ensures done + ms == (done + [ms[0]]) + ms[1..]
  {
  }

  lemma {:induction false} PublishAllHolds(d: Digests, org: string, done: seq<Manifest>, hs: seq<string>, shelf: Shelf,
                                           ms: seq<Manifest>) returns (hs': seq<string>)
    requires Holds(d, org, done, hs, shelf) && PublishAll(d, org, shelf, ms).Ok?
    ensures Holds(d, org, done + ms, hs', PublishAll(d, org, shelf, ms).value)
    decreases |ms|
  {
    if ms == [] {
      assert done + ms == done;
      hs' := hs;
    } else {
      var next := Publish(d, org, shelf, ms[0]).value;
      PublishHolds(d, org, done, hs, shelf, ms[0]);
      hs' := PublishAllHolds(d, org, done + [ms[0]], hs + [ManifestHash(d, ms[0]).value], next, ms[1..]);
      OneMore(done, ms);
    }
  }

  /** In every run the accepted manifests form one chain of digests; the last is current, and the shelf holds exactly
      their digests, each with the last manifest that has it, linked to its successor. */
  lemma ShelfFromRun(d: Digests, org: string, ops: seq<Op>)
    ensures var s := Run(d, History(EmptyDirectory(org), []), ops);
            exists hs :: Holds(d, org, s.published, hs, s.dir.shelf)
  {
    var s0 := History(EmptyDirectory(org), []);
    assert Reachable(d, s0);
    RunKeepsReachable(d, s0, ops);
    var s := Run(d, s0, ops);
    var hs := PublishAllHolds(d, org, [], [], EMPTY_SHELF, s.published);
    assert [] + s.published == s.published;
  }
}
