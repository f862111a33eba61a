/** What the log of an issuer says about each key, read off the events alone: who is in the key table, since when, until
    when and with which status, and which events an issuer's directory refuses. */
module KeyHistory {
  import opened Outcomes
  import opened Transparency

  // ----- the events about a key

  /** The last event that starts a life of key k. */
  ghost predicate LastStart(es: seq<Event>, k: string, i: int)
  {
    0 <= i < |es| && Reintroduces(es[i], k) && forall j :: i < j < |es| ==> !Reintroduces(es[j], k)
  }

  /** The last event after i that ends key k. */
  ghost predicate LastEnd(es: seq<Event>, k: string, i: int, j: int)
  {
    0 <= i < j < |es| && Ends(es[j], k) && forall m :: j < m < |es| ==> !Ends(es[m], k)
  }

  /** The last event about key k. */
  ghost predicate LastAbout(es: seq<Event>, k: string, j: int)
  {
    && 0 <= j < |es| && (Reintroduces(es[j], k) || Ends(es[j], k))
    && forall m :: j < m < |es| ==> !Reintroduces(es[m], k) && !Ends(es[m], k)
  }

  ghost predicate Known(es: seq<Event>, k: string)
  {
    exists i :: LastStart(es, k, i)
  }

  ghost predicate EndedAfter(es: seq<Event>, k: string, i: int)
  {
    exists j :: LastEnd(es, k, i, j)
  }

  /** The last event about the key started it. */
  ghost predicate InForce(es: seq<Event>, k: string)
  {
    exists j :: LastAbout(es, k, j) && Reintroduces(es[j], k)
  }

  /** The last event about the key reports its compromise, no later than t. */
  ghost predicate ReportedBy(es: seq<Event>, k: string, t: int)
  {
    exists j :: LastAbout(es, k, j) && es[j].kind == Compromise && es[j].timestamp <= t
  }

  ghost predicate Reported(es: seq<Event>, k: string)
  {
    exists j :: LastAbout(es, k, j) && es[j].kind == Compromise
  }

  /** The record of a key started by event i. */
  ghost predicate Describes(es: seq<Event>, k: string, i: int, key: IssuerKey)
    requires 0 <= i < |es|
  {
    && key.keyId == k && key.publicKeyHash == es[i].publicKeyHash && key.algorithm == "ed25519"
    && key.validFrom == es[i].timestamp
    && (!EndedAfter(es, k, i) ==> key.validUntil == None && key.status == Active)
    && (forall j :: LastEnd(es, k, i, j) ==> key.validUntil == Some(es[j].timestamp) && Matches(key.status, es[j].kind))
  }

  predicate Matches(status: KeyStatus, kind: EventType)
  {
    && (status == Rotated <==> kind == Rotation)
    && (status == Compromised <==> kind == Compromise)
    && (status == Retired <==> kind == Retirement)
  }

  ghost predicate Tells(es: seq<Event>, k: string, keys: Keys)
  {
    && (k in keys <==> Known(es, k))
    && (forall j :: 0 <= j < |es| && Ends(es[j], k) ==> k in keys)
    && (forall i :: LastStart(es, k, i) ==> k in keys && Describes(es, k, i, keys[k]))
  }

  // ----- one more event

  lemma StartedAgain(es: seq<Event>, e: Event, k: string, keys: Keys)
    requires KeysAfter(keys, e).Ok? && Reintroduces(e, k)
    requires forall p :: p in keys ==> keys[p].algorithm == "ed25519"
    ensures Tells(es + [e], k, KeysAfter(keys, e).value)
  {
    var es' := es + [e];
    assert es'[|es|] == e;
    assert LastStart(es', k, |es|);
  }

  lemma SameStart(es: seq<Event>, e: Event, k: string, i: int)
    requires !Reintroduces(e, k)
    ensures LastStart(es + [e], k, i) <==> LastStart(es, k, i)
  {
    var es' := es + [e];
    assert es'[|es|] == e;
    if LastStart(es, k, i) {
      assert es'[i] == es[i];
      forall j | i < j < |es'| ensures !Reintroduces(es'[j], k) {
        if j < |es| { assert es'[j] == es[j]; }
      }
    }
    if LastStart(es', k, i) {
      assert es'[i] == es[i];
      forall j | i < j < |es| ensures !Reintroduces(es[j], k) {
        assert es'[j] == es[j];
      }
    }
  }

  lemma SameKnown(es: seq<Event>, e: Event, k: string)
    requires !Reintroduces(e, k)
    ensures Known(es + [e], k) <==> Known(es, k)
  {
    forall i ensures LastStart(es + [e], k, i) <==> LastStart(es, k, i) {
      SameStart(es, e, k, i);
    }
  }

  lemma NewEnd(es: seq<Event>, e: Event, k: string, i: int, j: int)
    requires Ends(e, k) && 0 <= i < |es|
    ensures LastEnd(es + [e], k, i, j) <==> j == |es|
  {
    assert (es + [e])[|es|] == e;
  }

  lemma SameEnd(es: seq<Event>, e: Event, k: string, i: int, j: int)
    requires !Ends(e, k) && 0 <= i < |es|
    ensures LastEnd(es + [e], k, i, j) <==> LastEnd(es, k, i, j)
  {
    var es' := es + [e];
    assert es'[|es|] == e;
    if LastEnd(es, k, i, j) {
      assert es'[j] == es[j];
      forall m | j < m < |es'| ensures !Ends(es'[m], k) {
        if m < |es| { assert es'[m] == es[m]; }
      }
    }
    if LastEnd(es', k, i, j) {
      assert es'[j] == es[j];
      forall m | j < m < |es| ensures !Ends(es[m], k) {
        assert es'[m] == es[m];
      }
    }
  }

  lemma Ended(es: seq<Event>, e: Event, k: string, keys: Keys)
    requires Tells(es, k, keys) && KeysAfter(keys, e).Ok? && Ends(e, k) && !Reintroduces(e, k)
    ensures Tells(es + [e], k, KeysAfter(keys, e).value)
  {
    var es', keys' := es + [e], KeysAfter(keys, e).value;
    SameKnown(es, e, k);
    forall i | LastStart(es', k, i) ensures k in keys' && Describes(es', k, i, keys'[k]) {
      SameStart(es, e, k, i);
      assert Describes(es, k, i, keys[k]) && es'[i] == es[i];
      forall j ensures LastEnd(es', k, i, j) <==> j == |es| {
        NewEnd(es, e, k, i, j);
      }
      assert LastEnd(es', k, i, |es|);
      assert es'[|es|] == e;
    }
  }

  lemma Untouched(es: seq<Event>, e: Event, k: string, keys: Keys)
    requires Tells(es, k, keys) && KeysAfter(keys, e).Ok? && !Ends(e, k) && !Reintroduces(e, k)
    ensures Tells(es + [e], k, KeysAfter(keys, e).value)
  {
    var es', keys' := es + [e], KeysAfter(keys, e).value;
    SameKnown(es, e, k);
    assert k in keys' <==> k in keys;
    forall i | LastStart(es', k, i) ensures k in keys' && Describes(es', k, i, keys'[k]) {
      SameStart(es, e, k, i);
      assert Describes(es, k, i, keys[k]) && es'[i] == es[i] && keys'[k] == keys[k];
      SameEnds(es, e, k, i);
    }
  }

  lemma SameEnds(es: seq<Event>, e: Event, k: string, i: int)
    requires !Ends(e, k) && 0 <= i < |es|
    ensures EndedAfter(es + [e], k, i) <==> EndedAfter(es, k, i)
    ensures forall j :: LastEnd(es + [e], k, i, j) ==> LastEnd(es, k, i, j) && (es + [e])[j] == es[j]
  {
    forall j ensures LastEnd(es + [e], k, i, j) <==> LastEnd(es, k, i, j) {
      SameEnd(es, e, k, i, j);
    }
  }

  ghost predicate AllTell(es: seq<Event>, keys: Keys)
  {
    forall k :: Tells(es, k, keys)
  }

  lemma OneAlgorithm(es: seq<Event>, keys: Keys, k: string)
    requires Tells(es, k, keys) && k in keys
    ensures keys[k].algorithm == "ed25519"
  {
    var i :| LastStart(es, k, i);
    assert Describes(es, k, i, keys[k]);
  }

  lemma TellsStep(es: seq<Event>, e: Event, keys: Keys)
    requires AllTell(es, keys) && KeysAfter(keys, e).Ok?
    ensures AllTell(es + [e], KeysAfter(keys, e).value)
  {
    forall p | p in keys ensures keys[p].algorithm == "ed25519" {
      assert Tells(es, p, keys);
      OneAlgorithm(es, keys, p);
    }
    forall k ensures Tells(es + [e], k, KeysAfter(keys, e).value) {
      assert Tells(es, k, keys);
      if Reintroduces(e, k) {
        StartedAgain(es, e, k, keys);
      } else if Ends(e, k) {
        Ended(es, e, k, keys);
      } else {
        Untouched(es, e, k, keys);
      }
    }
  }

  // ----- the key table of an accepted log

  lemma {:induction false} ReplayTells(d: Digests, org: string, log: Log, es: seq<Event>)
    requires AllTell(log.events, log.keys) && Replay(d, org, log, es).Ok?
    ensures AllTell(Replay(d, org, log, es).value.events, Replay(d, org, log, es).value.keys)
    decreases |es|
  {
    if es != [] {
      TellsStep(log.events, es[0], log.keys);
      ReplayTells(d, org, AppendLog(d, org, log, es[0]).value, es[1..]);
    }
  }

  /** In every accepted log a key is in the table exactly when some event started it; the last such event gives its
      public key and the beginning of its validity, and the last event that ended it since gives the end and the
      status. */
  lemma TableFromLog(d: Digests, org: string, log: Log, k: string)
    requires Accepted(d, org, log)
    ensures k in log.keys <==> Known(log.events, k)
    ensures forall j :: 0 <= j < |log.events| && Ends(log.events[j], k) ==> k in log.keys
    ensures forall i :: LastStart(log.events, k, i) ==> Describes(log.events, k, i, log.keys[k])
  {
    assert AllTell(EMPTY_LOG.events, EMPTY_LOG.keys);
    ReplayTells(d, org, EMPTY_LOG, log.events);
    assert Tells(log.events, k, log.keys);
  }

  lemma EndIsAbout(es: seq<Event>, k: string, i: int, j: int)
    requires LastStart(es, k, i) && LastEnd(es, k, i, j)
    ensures LastAbout(es, k, j)
  {
  }

  lemma StartIsAbout(es: seq<Event>, k: string, i: int)
    requires LastStart(es, k, i) && !EndedAfter(es, k, i)
    ensures LastAbout(es, k, i)
  {
    NoneThenNoEnd(es, k, i, |es|);
  }

  /** Without a last end after i there is no end after i. */
  lemma {:induction false} NoneThenNoEnd(es: seq<Event>, k: string, i: int, n: int)
    requires 0 <= i < |es| && !EndedAfter(es, k, i) && i < n <= |es|
    requires forall m :: n <= m < |es| ==> !Ends(es[m], k)
    ensures forall m :: i < m < |es| ==> !Ends(es[m], k)
    decreases n
  {
    if n > i + 1 {
      if Ends(es[n - 1], k) {
        assert LastEnd(es, k, i, n - 1);
      }
      NoneThenNoEnd(es, k, i, n - 1);
    }
  }

  lemma SomeStart(es: seq<Event>, k: string, n: int)
    requires 0 <= n < |es| && Reintroduces(es[n], k)
    ensures Known(es, k)
    decreases |es| - n
  {
    if m :| n < m < |es| && Reintroduces(es[m], k) {
      SomeStart(es, k, m);
    } else {
      assert LastStart(es, k, n);
    }
  }

  lemma NeverStarted(es: seq<Event>, k: string)
    requires !Known(es, k)
    ensures forall n :: 0 <= n < |es| ==> !Reintroduces(es[n], k)
  {
    forall n | 0 <= n < |es| ensures Reintroduces(es[n], k) ==> Known(es, k) {
      if Reintroduces(es[n], k) { SomeStart(es, k, n); }
    }
  }

  /** The status of a key is that of the last event about it. */
  lemma StatusFromLog(d: Digests, org: string, log: Log, k: string, i: int)
    requires Accepted(d, org, log) && LastStart(log.events, k, i)
    ensures k in log.keys
    ensures var key := log.keys[k];
            exists j :: LastAbout(log.events, k, j)
                        && (if j == i then key.status == Active && key.validUntil == None
                            else LastEnd(log.events, k, i, j) && Matches(key.status, log.events[j].kind)
                                 && key.validUntil == Some(log.events[j].timestamp))
  {
    var es := log.events;
    TableFromLog(d, org, log, k);
    if EndedAfter(es, k, i) {
      var j :| LastEnd(es, k, i, j);
      EndIsAbout(es, k, i, j);
    } else {
      StartIsAbout(es, k, i);
    }
  }

  /** A key of an accepted log counts as compromised at t exactly when the last event about it reports its compromise,
      no later than t. */
  lemma CompromisedFromLog(d: Digests, org: string, log: Log, k: string, t: int)
    requires Accepted(d, org, log)
    ensures CompromisedAt(log.keys, k, t) <==> ReportedBy(log.events, k, t)
  {
    TableFromLog(d, org, log, k);
    if k in log.keys {
      var i :| LastStart(log.events, k, i);
      StatusFromLog(d, org, log, k, i);
    }
  }

  /** A signature time is valid for a key of an accepted log exactly when it is not before the last start of the key and
      before its last end since, if there is one. */
  lemma ValidFromLog(d: Digests, org: string, log: Log, k: string, t: int)
    requires Accepted(d, org, log)
    ensures ValidAt(log.keys, k, t) <==>
            exists i :: LastStart(log.events, k, i) && log.events[i].timestamp <= t
                        && forall j :: LastEnd(log.events, k, i, j) ==> t < log.events[j].timestamp
  {
    TableFromLog(d, org, log, k);
    if k in log.keys {
      var i :| LastStart(log.events, k, i);
      StatusFromLog(d, org, log, k, i);
    }
  }

  // ----- which events are refused

  /** The event links to the end of the log. */
  predicate Follows(d: Digests, es: seq<Event>, e: Event)
  {
    if es == [] then e.previous == None else e.previous == Some(EventHash(d, es[|es| - 1]))
  }

  /** What the log says about the keys allows the event. */
  ghost predicate Permitted(es: seq<Event>, e: Event)
  {
    match e.kind
    case Activation => !InForce(es, e.keyId)
    case Rotation => e.related.Some? && e.related.value != "" && Known(es, e.related.value)
                     && !Reported(es, e.related.value)
    case Compromise => Known(es, e.keyId)
    case Retirement => Known(es, e.keyId)
    case CheckpointMark => true
  }

  lemma InForceIsActive(d: Digests, org: string, log: Log, k: string)
    requires Accepted(d, org, log)
    ensures InForce(log.events, k) <==> k in log.keys && log.keys[k].status == Active
    ensures Reported(log.events, k) <==> k in log.keys && log.keys[k].status == Compromised
  {
    var es := log.events;
    TableFromLog(d, org, log, k);
    if k in log.keys {
      var i :| LastStart(es, k, i);
      StatusFromLog(d, org, log, k, i);
    } else {
      NeverStarted(es, k);
    }
  }

  /** An event is accepted exactly when the log has room, the organisation is the log's, it is numbered and linked to
      follow the last event, and the log so far permits it; no earlier event needs to be looked at but those about its
      keys. */
  lemma AcceptedIff(d: Digests, org: string, log: Log, e: Event)
    requires Accepted(d, org, log)
    ensures AppendLog(d, org, log, e).Ok? <==>
            && |log.events| < 10_000 && e.org == org && e.sequence == |log.events| && Follows(d, log.events, e)
            && Permitted(log.events, e)
  {
    InForceIsActive(d, org, log, e.keyId);
    TableFromLog(d, org, log, e.keyId);
    if e.related.Some? {
      InForceIsActive(d, org, log, e.related.value);
      TableFromLog(d, org, log, e.related.value);
    }
  }

  lemma KeysRefusedWith(d: Digests, org: string, log: Log, e: Event)
    requires Accepted(d, org, log) && KeysAfter(log.keys, e).Err?
    ensures var es := log.events;
            match KeysAfter(log.keys, e).error
            case ConflictingActivation => e.kind == Activation && InForce(es, e.keyId)
            case RotationNeedsPredecessor => e.kind == Rotation && (e.related == None || e.related == Some(""))
            case UnknownPredecessor => e.kind == Rotation && e.related.Some? && !Known(es, e.related.value)
            case CompromisedPredecessor => e.kind == Rotation && e.related.Some? && Reported(es, e.related.value)
            case UnknownKey => (e.kind == Compromise || e.kind == Retirement) && !Known(es, e.keyId)
            case _ => false
  {
    if e.kind == Rotation && e.related.Some? {
      InForceIsActive(d, org, log, e.related.value);
      TableFromLog(d, org, log, e.related.value);
    } else {
      InForceIsActive(d, org, log, e.keyId);
      TableFromLog(d, org, log, e.keyId);
    }
  }

  /** The reason given is the first check that fails; those about keys are as above. */
  lemma RefusedWith(d: Digests, org: string, log: Log, e: Event)
    requires AppendLog(d, org, log, e).Err?
    ensures var es := log.events;
            match AppendLog(d, org, log, e).error
            case LogFull => |es| >= 10_000
            case OrgMismatch => |es| < 10_000 && e.org != org
            case BadSequence => |es| < 10_000 && e.org == org && e.sequence != |es|
            case GenesisHasPrevious => e.org == org && e.sequence == 0 == |es| && !Follows(d, es, e)
            case BrokenChain => e.org == org && e.sequence == |es| > 0 && !Follows(d, es, e)
            case error =>
              e.org == org && e.sequence == |es| && Follows(d, es, e) && KeysAfter(log.keys, e) == Err(error)
  {
  }
}
