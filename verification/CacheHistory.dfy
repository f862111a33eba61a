/** Whole runs of the verifier cache against a simple reference: the latest verdict stored for a field
    tuple and not invalidated since. */
module CacheHistory {
  import opened Outcomes
  import opened CacheKey
  import opened VerifierCache

  datatype Op =
    | GetOp(q: Query, proof: string, now: real)
    | SetOp(q: Query, verdict: bool, proof: string, now: real)
    | InvalidateOp(q: Query, proof: string)
    | InvalidateProofOp(proof: string)
    | ClearOp

  predicate HasQuery(op: Op)
  {
    op.GetOp? || op.SetOp? || op.InvalidateOp?
  }

  /** How a query is keyed, and the normalised fields it stands for. */
  datatype View = View(key: Query -> Key, fields: Query -> seq<string>)

  /** Among the given queries, equal keys and equal fields are the same thing. */
  ghost predicate Faithful(v: View, qs: set<Query>)
  {
    forall p, q :: p in qs && q in qs ==> (v.key(p) == v.key(q) <==> v.fields(p) == v.fields(q))
  }

  ghost predicate Within(ops: seq<Op>, qs: set<Query>)
  {
    forall i :: 0 <= i < |ops| && HasQuery(ops[i]) ==> ops[i].q in qs
  }

  // ----- the reference

  datatype Stored = Stored(verdict: bool, expires: real, owner: string)

  /** What was last stored for the fields and not invalidated since; lookups, evictions and time play no part. */
  function Latest(cfg: Config, v: View, ops: seq<Op>, fields: seq<string>): Option<Stored>
  {
    if ops == [] then None
    else
      var before := Latest(cfg, v, ops[..|ops| - 1], fields);
      match ops[|ops| - 1]
      case GetOp(_, _, _) => before
      case SetOp(q, verdict, proof, now) =>
        if v.fields(q) == fields then Some(Stored(verdict, now + Ttl(cfg, verdict), proof)) else before
      case InvalidateOp(q, _) => if v.fields(q) == fields then None else before
      case InvalidateProofOp(proof) =>
        if before.Some? && proof != "" && before.value.owner == proof then None else before
      case ClearOp => None
  }

  /** The same without regard to the invalidation of proofs. */
  function LastStored(cfg: Config, v: View, ops: seq<Op>, fields: seq<string>): Option<Stored>
  {
    if ops == [] then None
    else
      var before := LastStored(cfg, v, ops[..|ops| - 1], fields);
      match ops[|ops| - 1]
      case GetOp(_, _, _) => before
      case SetOp(q, verdict, proof, now) =>
        if v.fields(q) == fields then Some(Stored(verdict, now + Ttl(cfg, verdict), proof)) else before
      case InvalidateOp(q, _) => if v.fields(q) == fields then None else before
      case InvalidateProofOp(_) => before
      case ClearOp => None
  }

  lemma {:induction false} LatestIsLastStoredOrNone(cfg: Config, v: View, ops: seq<Op>, fields: seq<string>)
    ensures Latest(cfg, v, ops, fields) == LastStored(cfg, v, ops, fields) || Latest(cfg, v, ops, fields) == None
  {
    if ops != [] { LatestIsLastStoredOrNone(cfg, v, ops[..|ops| - 1], fields); }
  }

  // ----- the cache with a record of its past

  /** The cache, the proof identifier each key was last stored under, the keys a lookup has dropped from
      that identifier's index since, and the operation that last touched each key. */
  datatype Track = Track(cache: Cache, owner: map<Key, string>, dropped: set<Key>, touched: map<Key, nat>)

  const START: Track := Track(EMPTY, map[], {}, map[])

  /** A lookup that hits an entry and names the very proof identifier it is stored under. */
  predicate Drops(t: Track, k: Key, proof: string, now: real)
  {
    var e := Find(t.cache.entries, k);
    e.Some? && now < e.value.expires && proof != "" && k in t.owner && t.owner[k] == proof
  }

  function Step(cfg: Config, t: Track, op: Op, k: Key, n: nat): Track
  {
    match op
    case GetOp(_, proof, now) =>
      var (r, c) := Get(t.cache, k, proof, now);
      Track(c, t.owner, if Drops(t, k, proof, now) then t.dropped + {k} else t.dropped,
            if r.Some? then t.touched[k := n] else t.touched)
    case SetOp(_, verdict, proof, now) =>
      var c := Set(cfg, t.cache, k, verdict, proof, now);
      if c.None? then t else Track(c.value, t.owner[k := proof], t.dropped - {k}, t.touched[k := n])
    case InvalidateOp(_, proof) => t.(cache := Invalidate(t.cache, k, proof))
    case InvalidateProofOp(proof) => t.(cache := InvalidateProof(t.cache, proof))
    case ClearOp => t.(cache := EMPTY)
  }

  function KeyFor(v: View, op: Op): Key
  {
    if HasQuery(op) then v.key(op.q) else ""
  }

  function Tracked(cfg: Config, v: View, ops: seq<Op>): Track
  {
    if ops == [] then START
    else
      var n := |ops| - 1;
      Step(cfg, Tracked(cfg, v, ops[..n]), ops[n], KeyFor(v, ops[n]), n)
  }

  // ----- facts about entry lists

  lemma {:induction false} WithoutElements(es: seq<Entry>, ks: set<Key>)
    ensures forall e :: e in Without(es, ks) <==> e in es && e.key !in ks
  {
    if es != [] { WithoutElements(es[1..], ks); }
  }

  lemma {:induction false} WithoutShrinks(es: seq<Entry>, k: Key)
    requires Find(es, k).Some?
    ensures |Without(es, {k})| < |es|
  {
    if es[0].key != k { WithoutShrinks(es[1..], k); }
  }

  lemma {:induction false} FindAbsent(es: seq<Entry>, k: Key)
    requires Find(es, k).None?
    ensures forall e :: e in es ==> e.key != k
  {
    if es != [] { FindAbsent(es[1..], k); }
  }

  /** Entries stand in the order of their last touch, each later than the one before. */
  ghost predicate ByTouch(es: seq<Entry>, touched: map<Key, nat>, lo: nat, hi: nat)
  {
    es == [] ||
    (es[0].key in touched && lo <= touched[es[0].key] < hi && ByTouch(es[1..], touched, touched[es[0].key] + 1, hi))
  }

  lemma {:induction false} ByTouchWiden(es: seq<Entry>, touched: map<Key, nat>, lo: nat, hi: nat, lo': nat, hi': nat)
    requires ByTouch(es, touched, lo, hi) && lo' <= lo && hi <= hi'
    ensures ByTouch(es, touched, lo', hi')
    decreases |es|
  {
    if es != [] { ByTouchWiden(es[1..], touched, touched[es[0].key] + 1, hi, touched[es[0].key] + 1, hi'); }
  }

  lemma {:induction false} ByTouchWithout(es: seq<Entry>, ks: set<Key>, touched: map<Key, nat>, lo: nat, hi: nat)
    requires ByTouch(es, touched, lo, hi)
    ensures ByTouch(Without(es, ks), touched, lo, hi)
    decreases |es|
  {
    if es != [] {
      var t := touched[es[0].key] + 1;
      ByTouchWithout(es[1..], ks, touched, t, hi);
      if es[0].key in ks { ByTouchWiden(Without(es[1..], ks), touched, t, hi, lo, hi); }
    }
  }

  /** An entry touched now goes to the end. */
  lemma {:induction false} ByTouchAppend(es: seq<Entry>, e: Entry, touched: map<Key, nat>, lo: nat, n: nat)
    requires ByTouch(es, touched, lo, n) && lo <= n
    requires forall x :: x in es ==> x.key != e.key
    ensures ByTouch(es + [e], touched[e.key := n], lo, n + 1)
    decreases |es|
  {
    if es == [] {
      assert (es + [e])[1..] == [];
    } else {
      assert (es + [e])[1..] == es[1..] + [e];
      ByTouchAppend(es[1..], e, touched, touched[es[0].key] + 1, n);
    }
  }

  lemma {:induction false} ByTouchAt(es: seq<Entry>, touched: map<Key, nat>, lo: nat, hi: nat, i: nat, j: nat)
    requires ByTouch(es, touched, lo, hi) && i < j < |es|
    ensures es[i].key in touched && es[j].key in touched
    ensures lo <= touched[es[i].key] < touched[es[j].key]
    decreases |es|
  {
    var t := touched[es[0].key] + 1;
    if i > 0 {
      ByTouchAt(es[1..], touched, t, hi, i - 1, j - 1);
    } else {
      ByTouchLow(es[1..], touched, t, hi, j - 1);
    }
  }

  lemma {:induction false} ByTouchLow(es: seq<Entry>, touched: map<Key, nat>, lo: nat, hi: nat, j: nat)
    requires ByTouch(es, touched, lo, hi) && j < |es|
    ensures es[j].key in touched && lo <= touched[es[j].key] < hi
    decreases |es|
  {
    if j > 0 { ByTouchLow(es[1..], touched, touched[es[0].key] + 1, hi, j - 1); }
  }

  // ----- what every run keeps

  function AtLeastZero(n: int): nat { if n < 0 then 0 else n }

  /** The index lists a cached key under its owner exactly when no lookup has dropped it. */
  ghost predicate Indexed(t: Track)
  {
    forall e :: e in t.cache.entries ==>
      e.key in t.owner &&
      (t.owner[e.key] != "" ==> (e.key in KeysUnder(t.cache.index, t.owner[e.key]) <==> e.key !in t.dropped))
  }

  ghost predicate Inv(cfg: Config, t: Track, n: nat)
  {
    && |t.cache.entries| <= AtLeastZero(cfg.maxSize)
    && ByTouch(t.cache.entries, t.touched, 0, n)
    && Indexed(t)
  }

  lemma GetKeepsInv(cfg: Config, t: Track, op: Op, k: Key, n: nat)
    requires Inv(cfg, t, n) && op.GetOp?
    ensures Inv(cfg, Step(cfg, t, op, k, n), n + 1)
  {
    var es := t.cache.entries;
    var e := Find(es, k);
    ByTouchWithout(es, {k}, t.touched, 0, n);
    GetKeepsIndexed(cfg, t, op, k, n);
    if e.None? {
      ByTouchWiden(es, t.touched, 0, n, 0, n + 1);
    } else {
      WithoutShrinks(es, k);
      if op.now < e.value.expires {
        WithoutElements(es, {k});
        ByTouchAppend(Without(es, {k}), e.value, t.touched, 0, n);
      } else {
        ByTouchWiden(Without(es, {k}), t.touched, 0, n, 0, n + 1);
      }
    }
  }

  lemma GetKeepsIndexed(cfg: Config, t: Track, op: Op, k: Key, n: nat)
    requires Indexed(t) && op.GetOp?
    ensures Indexed(Step(cfg, t, op, k, n))
  {
    var t' := Step(cfg, t, op, k, n);
    WithoutElements(t.cache.entries, {k});
    forall x | x in t'.cache.entries
      ensures x.key in t'.owner
      ensures t'.owner[x.key] != "" ==> (x.key in KeysUnder(t'.cache.index, t'.owner[x.key]) <==> x.key !in t'.dropped)
    {
      assert x in t.cache.entries;
    }
  }

  lemma SetKeepsInv(cfg: Config, t: Track, op: Op, k: Key, n: nat)
    requires Inv(cfg, t, n) && op.SetOp?
    ensures Inv(cfg, Step(cfg, t, op, k, n), n + 1)
  {
    if Set(cfg, t.cache, k, op.verdict, op.proof, op.now).Some? {
      var e := Entry(k, op.verdict, op.now + Ttl(cfg, op.verdict));
      var kept := Kept(cfg, t, k, n);
      ByTouchAppend(kept, e, t.touched, 0, n);
      SetKeepsIndexed(cfg, t, op, k, n, kept, e);
    } else {
      ByTouchWiden(t.cache.entries, t.touched, 0, n, 0, n + 1);
    }
  }

  lemma SetKeepsIndexed(cfg: Config, t: Track, op: Op, k: Key, n: nat, kept: seq<Entry>, e: Entry)
    requires Indexed(t) && op.SetOp? && Set(cfg, t.cache, k, op.verdict, op.proof, op.now).Some?
    requires Step(cfg, t, op, k, n).cache.entries == kept + [e] && e.key == k
    requires forall x :: x in kept ==> x in t.cache.entries && x.key != k
    ensures Indexed(Step(cfg, t, op, k, n))
  {
    var t' := Step(cfg, t, op, k, n);
    forall x | x in kept + [e]
      ensures x.key in t'.owner
      ensures t'.owner[x.key] != "" ==> (x.key in KeysUnder(t'.cache.index, t'.owner[x.key]) <==> x.key !in t'.dropped)
    {
      assert x in kept || x == e;
    }
  }

  /** The entries that stay when k is stored: all but k, or all but the oldest when the cache is full. */
  lemma Kept(cfg: Config, t: Track, k: Key, n: nat) returns (kept: seq<Entry>)
    requires Inv(cfg, t, n)
    requires Find(t.cache.entries, k).Some? || |t.cache.entries| < cfg.maxSize || t.cache.entries != []
    ensures kept == if Find(t.cache.entries, k).Some? then Without(t.cache.entries, {k})
                    else if |t.cache.entries| >= cfg.maxSize then t.cache.entries[1..] else t.cache.entries
    ensures ByTouch(kept, t.touched, 0, n) && |kept| < AtLeastZero(cfg.maxSize)
    ensures forall e :: e in kept ==> e in t.cache.entries && e.key != k
  {
    var es := t.cache.entries;
    if Find(es, k).Some? {
      kept := Without(es, {k});
      WithoutElements(es, {k});
      WithoutShrinks(es, k);
      ByTouchWithout(es, {k}, t.touched, 0, n);
    } else {
      FindAbsent(es, k);
      if |es| >= cfg.maxSize {
        kept := es[1..];
        ByTouchWiden(kept, t.touched, t.touched[es[0].key] + 1, n, 0, n);
      } else {
        kept := es;
      }
    }
  }

  lemma RemovalKeepsInv(cfg: Config, t: Track, op: Op, k: Key, n: nat)
    requires Inv(cfg, t, n) && (op.InvalidateOp? || op.InvalidateProofOp? || op.ClearOp?)
    ensures Inv(cfg, Step(cfg, t, op, k, n), n + 1)
  {
    var es := t.cache.entries;
    var ks := if op.InvalidateOp? then {k}
              else if op.InvalidateProofOp? then KeysUnder(t.cache.index, op.proof) else {};
    WithoutElements(es, ks);
    ByTouchWithout(es, ks, t.touched, 0, n);
    ByTouchWiden(Without(es, ks), t.touched, 0, n, 0, n + 1);
  }

  lemma StepKeepsInv(cfg: Config, t: Track, op: Op, k: Key, n: nat)
    requires Inv(cfg, t, n)
    ensures Inv(cfg, Step(cfg, t, op, k, n), n + 1)
  {
    match op
    case GetOp(_, _, _) => GetKeepsInv(cfg, t, op, k, n);
    case SetOp(_, _, _, _) => SetKeepsInv(cfg, t, op, k, n);
    case _ => RemovalKeepsInv(cfg, t, op, k, n);
  }

  /** Over every run the cache stays within its bound, in order of last touch, and consistently indexed. */
  lemma {:induction false} RunKeepsInv(cfg: Config, v: View, ops: seq<Op>)
    ensures Inv(cfg, Tracked(cfg, v, ops), |ops|)
  {
    if ops != [] {
      var n := |ops| - 1;
      RunKeepsInv(cfg, v, ops[..n]);
      StepKeepsInv(cfg, Tracked(cfg, v, ops[..n]), ops[n], KeyFor(v, ops[n]), n);
    }
  }

  // ----- refinement of the reference

  /** An entry that no lookup has dropped is what the reference has for every query with its key. */
  ghost predicate Agrees(cfg: Config, v: View, ops: seq<Op>, t: Track, qs: set<Query>)
  {
    forall e, q :: e in t.cache.entries && q in qs && v.key(q) == e.key && e.key !in t.dropped ==>
      e.key in t.owner &&
      Latest(cfg, v, ops, v.fields(q)) == Some(Stored(e.verdict, e.expires, t.owner[e.key]))
  }

  /** Every entry after a step was there before, or is the one just stored. */
  lemma EntriesAfter(cfg: Config, t: Track, op: Op, k: Key, n: nat)
    requires Inv(cfg, t, n)
    ensures var t' := Step(cfg, t, op, k, n);
            forall e :: e in t'.cache.entries ==>
              if op.SetOp? && Set(cfg, t.cache, k, op.verdict, op.proof, op.now).Some? && e.key == k
              then e == Entry(k, op.verdict, op.now + Ttl(cfg, op.verdict))
              else e in t.cache.entries &&
                   (op.InvalidateOp? ==> e.key != k) &&
                   (op.InvalidateProofOp? ==> e.key !in KeysUnder(t.cache.index, op.proof)) && !op.ClearOp?
  {
    var es := t.cache.entries;
    WithoutElements(es, {k});
    if op.InvalidateProofOp? { WithoutElements(es, KeysUnder(t.cache.index, op.proof)); }
    if op.SetOp? && Set(cfg, t.cache, k, op.verdict, op.proof, op.now).Some? {
      var kept := Kept(cfg, t, k, n);
    }
  }

  lemma AgreesStep(cfg: Config, v: View, ops: seq<Op>, qs: set<Query>, t: Track, op: Op, k: Key, e: Entry, q: Query)
    requires Faithful(v, qs) && (HasQuery(op) ==> op.q in qs && v.key(op.q) == k)
    requires Inv(cfg, t, |ops|) && Agrees(cfg, v, ops, t, qs)
    requires var t' := Step(cfg, t, op, k, |ops|);
             e in t'.cache.entries && q in qs && v.key(q) == e.key && e.key !in t'.dropped
    ensures var t' := Step(cfg, t, op, k, |ops|);
            && e.key in t'.owner
            && Latest(cfg, v, ops + [op], v.fields(q)) == Some(Stored(e.verdict, e.expires, t'.owner[e.key]))
  {
    EntriesAfter(cfg, t, op, k, |ops|);
    assert (ops + [op])[..|ops|] == ops;
    if HasQuery(op) {
      assert v.key(op.q) == v.key(q) <==> v.fields(op.q) == v.fields(q);
    }
  }

  lemma {:induction false} RunAgrees(cfg: Config, v: View, ops: seq<Op>, qs: set<Query>)
    requires Faithful(v, qs) && Within(ops, qs)
    ensures Agrees(cfg, v, ops, Tracked(cfg, v, ops), qs)
  {
    if ops != [] {
      var n := |ops| - 1;
      var before, op := ops[..n], ops[n];
      RunAgrees(cfg, v, before, qs);
      RunKeepsInv(cfg, v, before);
      var t := Tracked(cfg, v, before);
      var t' := Step(cfg, t, op, KeyFor(v, op), n);
      assert ops == before + [op];
      forall e, q | e in t'.cache.entries && q in qs && v.key(q) == e.key && e.key !in t'.dropped
        ensures e.key in t'.owner
        ensures Latest(cfg, v, ops, v.fields(q)) == Some(Stored(e.verdict, e.expires, t'.owner[e.key]))
      {
        AgreesStep(cfg, v, before, qs, t, op, KeyFor(v, op), e, q);
      }
    }
  }

  /** Every entry is what was last stored for every query with its key. */
  ghost predicate AgreesStored(cfg: Config, v: View, ops: seq<Op>, t: Track, qs: set<Query>)
  {
    forall e, q :: e in t.cache.entries && q in qs && v.key(q) == e.key ==>
      e.key in t.owner &&
      LastStored(cfg, v, ops, v.fields(q)) == Some(Stored(e.verdict, e.expires, t.owner[e.key]))
  }

  lemma AgreesStoredStep(cfg: Config, v: View, ops: seq<Op>, qs: set<Query>, t: Track,
                         op: Op, k: Key, e: Entry, q: Query)
    requires Faithful(v, qs) && (HasQuery(op) ==> op.q in qs && v.key(op.q) == k)
    requires Inv(cfg, t, |ops|) && AgreesStored(cfg, v, ops, t, qs)
    requires e in Step(cfg, t, op, k, |ops|).cache.entries && q in qs && v.key(q) == e.key
    ensures var t' := Step(cfg, t, op, k, |ops|);
            && e.key in t'.owner
            && LastStored(cfg, v, ops + [op], v.fields(q)) == Some(Stored(e.verdict, e.expires, t'.owner[e.key]))
  {
    EntriesAfter(cfg, t, op, k, |ops|);
    assert (ops + [op])[..|ops|] == ops;
    if HasQuery(op) {
      assert v.key(op.q) == v.key(q) <==> v.fields(op.q) == v.fields(q);
    }
  }

  lemma {:induction false} RunAgreesStored(cfg: Config, v: View, ops: seq<Op>, qs: set<Query>)
    requires Faithful(v, qs) && Within(ops, qs)
    ensures AgreesStored(cfg, v, ops, Tracked(cfg, v, ops), qs)
  {
    if ops != [] {
      var n := |ops| - 1;
      var before, op := ops[..n], ops[n];
      RunAgreesStored(cfg, v, before, qs);
      RunKeepsInv(cfg, v, before);
      var t := Tracked(cfg, v, before);
      var t' := Step(cfg, t, op, KeyFor(v, op), n);
      assert ops == before + [op];
      forall e, q | e in t'.cache.entries && q in qs && v.key(q) == e.key
        ensures e.key in t'.owner
        ensures LastStored(cfg, v, ops, v.fields(q)) == Some(Stored(e.verdict, e.expires, t'.owner[e.key]))
      {
        AgreesStoredStep(cfg, v, before, qs, t, op, KeyFor(v, op), e, q);
      }
    }
  }

  /** In every run a hit returns the verdict last stored for exactly these fields, and only before that verdict's
      own expiry; earlier hits have not extended it. It is also what the reference has, unless a lookup had
      dropped the entry from its proof's index and the proof was invalidated since. */
  lemma HitIsLatest(cfg: Config, v: View, ops: seq<Op>, qs: set<Query>, q: Query, proof: string, now: real)
    requires Faithful(v, qs) && Within(ops, qs) && q in qs
    requires Get(Tracked(cfg, v, ops).cache, v.key(q), proof, now).0.Some?
    ensures var hit := Get(Tracked(cfg, v, ops).cache, v.key(q), proof, now).0;
            var stored, latest := LastStored(cfg, v, ops, v.fields(q)), Latest(cfg, v, ops, v.fields(q));
            && stored.Some? && hit == Some(stored.value.verdict) && now < stored.value.expires
            && (latest == stored || (latest == None && v.key(q) in Tracked(cfg, v, ops).dropped))
  {
    RunAgrees(cfg, v, ops, qs);
    RunAgreesStored(cfg, v, ops, qs);
    LatestIsLastStoredOrNone(cfg, v, ops, v.fields(q));
    var e := Find(Tracked(cfg, v, ops).cache.entries, v.key(q)).value;
    assert e in Tracked(cfg, v, ops).cache.entries && v.key(q) == e.key;
  }

  /** Lookups that name no proof identifier drop nothing. */
  lemma {:induction false} NothingDropped(cfg: Config, v: View, ops: seq<Op>)
    requires forall i :: 0 <= i < |ops| && ops[i].GetOp? ==> ops[i].proof == ""
    ensures Tracked(cfg, v, ops).dropped == {}
  {
    if ops != [] { NothingDropped(cfg, v, ops[..|ops| - 1]); }
  }

  /** After a proof is invalidated, the entries last stored under it that remain are exactly those that a
      lookup naming the proof had dropped from the index. */
  lemma InvalidateProofExact(cfg: Config, v: View, ops: seq<Op>, proof: string, e: Entry)
    requires proof != ""
    ensures var t := Tracked(cfg, v, ops);
            e in InvalidateProof(t.cache, proof).entries && e.key in t.owner && t.owner[e.key] == proof <==>
            e in t.cache.entries && e.key in t.owner && t.owner[e.key] == proof && e.key in t.dropped
  {
    RunKeepsInv(cfg, v, ops);
    var t := Tracked(cfg, v, ops);
    WithoutElements(t.cache.entries, KeysUnder(t.cache.index, proof));
  }

  /** In a run whose lookups name no proof, nothing last stored under an invalidated proof stays cached. */
  lemma InvalidateProofComplete(cfg: Config, v: View, ops: seq<Op>, proof: string, e: Entry)
    requires forall i :: 0 <= i < |ops| && ops[i].GetOp? ==> ops[i].proof == ""
    requires proof != "" && e in InvalidateProof(Tracked(cfg, v, ops).cache, proof).entries
    ensures e.key in Tracked(cfg, v, ops).owner && Tracked(cfg, v, ops).owner[e.key] != proof
  {
    RunKeepsInv(cfg, v, ops);
    NothingDropped(cfg, v, ops);
    InvalidateProofExact(cfg, v, ops, proof, e);
    WithoutElements(Tracked(cfg, v, ops).cache.entries, KeysUnder(Tracked(cfg, v, ops).cache.index, proof));
  }

  /** Store under a proof, look up under it, invalidate the proof: the verdict is still served. */
  lemma NamedLookupLeaks(cfg: Config, v: View, q: Query)
    requires cfg.maxSize >= 1 && cfg.positiveTtl > 2.0
    ensures var ops := [SetOp(q, true, "p", 0.0), GetOp(q, "p", 1.0), InvalidateProofOp("p")];
            && Get(Tracked(cfg, v, ops).cache, v.key(q), "", 2.0).0 == Some(true)
            && Latest(cfg, v, ops, v.fields(q)) == None
  {
    var a, b, c := SetOp(q, true, "p", 0.0), GetOp(q, "p", 1.0), InvalidateProofOp("p");
    var k := v.key(q);
    var e := Entry(k, true, 0.0 + cfg.positiveTtl);
    assert [a][..0] == [] && [a, b][..1] == [a] && [a, b, c][..2] == [a, b];
    assert [] + [e] == [e] && |"p"| == 1 && {} + {k} == {k};
    assert KeysUnder(EMPTY.index, "p") == {} && Find(EMPTY.entries, k) == None;
    assert Set(cfg, EMPTY, k, true, "p", 0.0).value.index == map["p" := {k}];
    assert Tracked(cfg, v, []) == START;
    assert Tracked(cfg, v, [a]) == Step(cfg, START, a, k, 0);
    assert Tracked(cfg, v, [a]).cache == Cache([e], map["p" := {k}]);
    assert [e][1..] == [] && Without([e], {k}) == [];
    assert Tracked(cfg, v, [a, b]).cache.entries == [e];
    assert KeysUnder(Tracked(cfg, v, [a, b]).cache.index, "p") == {};
    assert Without([e], {}) == [e];
    assert Latest(cfg, v, [a], v.fields(q)) == Some(Stored(true, 0.0 + cfg.positiveTtl, "p"));
  }

  /** Storing a new key in a full cache evicts the entry whose last touch is the oldest, and only then. */
  lemma EvictsColdest(cfg: Config, v: View, ops: seq<Op>, k: Key, verdict: bool, proof: string, now: real)
    requires var t := Tracked(cfg, v, ops); Find(t.cache.entries, k).None? && cfg.maxSize >= 1
    ensures var t := Tracked(cfg, v, ops);
            var es := t.cache.entries;
            var stored := Set(cfg, t.cache, k, verdict, proof, now);
            && stored.Some?
            && stored.value.entries ==
                 (if |es| == cfg.maxSize then es[1..] else es) + [Entry(k, verdict, now + Ttl(cfg, verdict))]
            && forall i :: 1 <= i < |es| ==>
                 es[0].key in t.touched && es[i].key in t.touched && t.touched[es[0].key] < t.touched[es[i].key]
  {
    RunKeepsInv(cfg, v, ops);
    var t := Tracked(cfg, v, ops);
    var es := t.cache.entries;
    forall i | 1 <= i < |es|
      ensures es[0].key in t.touched && es[i].key in t.touched && t.touched[es[0].key] < t.touched[es[i].key]
    {
      ByTouchAt(es, t.touched, 0, |ops|, 0, i);
    }
  }

  // ----- the source's keys

  function ViewOf(env: KeyEnv): View
  {
    View(q => KeyOf(env, q), q => Fields(env, q))
  }

  /** Hashing the framed fields is a faithful view wherever the digest has no collision. */
  lemma ViewIsFaithful(env: KeyEnv, qs: set<Query>)
    requires NoCollision(env, qs)
    ensures Faithful(ViewOf(env), qs)
  {
    var v := ViewOf(env);
    forall p, q | p in qs && q in qs ensures v.key(p) == v.key(q) <==> v.fields(p) == v.fields(q) {
      KeyIff(env, qs, p, q);
      FieldsIff(env, p, q);
      assert v.key(p) == KeyOf(env, p) && v.key(q) == KeyOf(env, q);
      assert v.fields(p) == Fields(env, p) && v.fields(q) == Fields(env, q);
    }
  }

  /** Operation i is the last store for the query that nothing has replaced, invalidated or cleared since; proofs that
      are invalidated play no part. */
  ghost predicate LastStore(env: KeyEnv, ops: seq<Op>, q: Query, i: int)
  {
    && 0 <= i < |ops| && ops[i].SetOp? && SameQuery(env, ops[i].q, q)
    && forall j :: i < j < |ops| ==> !ReplacesOrRemoves(env, ops[j], q)
  }

  predicate ReplacesOrRemoves(env: KeyEnv, op: Op, q: Query)
  {
    op.ClearOp? || ((op.SetOp? || op.InvalidateOp?) && SameQuery(env, op.q, q))
  }

  /** Nor was its proof invalidated since. */
  ghost predicate Standing(ops: seq<Op>, i: int)
    requires 0 <= i < |ops| && ops[i].SetOp?
  {
    ops[i].proof != "" ==> forall j :: i < j < |ops| ==> ops[j] != InvalidateProofOp(ops[i].proof)
  }

  lemma LastStoreSnoc(env: KeyEnv, ops: seq<Op>, op: Op, q: Query, i: int)
    requires LastStore(env, ops, q, i) && !ReplacesOrRemoves(env, op, q)
    ensures LastStore(env, ops + [op], q, i)
  {
    var ops' := ops + [op];
    assert ops'[i] == ops[i];
    forall j | i < j < |ops'| ensures !ReplacesOrRemoves(env, ops'[j], q) {
      if j < |ops| { assert ops'[j] == ops[j]; }
    }
  }

  /** What the simple references mean: a store by its place in the run. */
  lemma {:induction false} LastStoredMeans(cfg: Config, env: KeyEnv, ops: seq<Op>, q: Query) returns (i: int)
    requires LastStored(cfg, ViewOf(env), ops, Fields(env, q)).Some?
    ensures LastStore(env, ops, q, i)
    ensures var st := LastStored(cfg, ViewOf(env), ops, Fields(env, q)).value;
            && st.verdict == ops[i].verdict && st.owner == ops[i].proof
            && st.expires == ops[i].now + if ops[i].verdict then cfg.positiveTtl else cfg.negativeTtl
    ensures Latest(cfg, ViewOf(env), ops, Fields(env, q)).Some? ==> Standing(ops, i)
  {
    var n := |ops| - 1;
    var before, op := ops[..n], ops[n];
    assert ops == before + [op];
    if HasQuery(op) { FieldsIff(env, op.q, q); }
    if op.SetOp? && SameQuery(env, op.q, q) {
      i := n;
    } else {
      i := LastStoredMeans(cfg, env, before, q);
      LastStoreSnoc(env, before, op, q, i);
      StandingSnoc(cfg, env, before, op, q, i);
    }
  }

  lemma StandingSnoc(cfg: Config, env: KeyEnv, ops: seq<Op>, op: Op, q: Query, i: int)
    requires LastStore(env, ops, q, i) && !(op.SetOp? && SameQuery(env, op.q, q))
    requires Latest(cfg, ViewOf(env), ops, Fields(env, q)).Some? ==> Standing(ops, i)
    requires LastStored(cfg, ViewOf(env), ops, Fields(env, q)).Some?
    requires LastStored(cfg, ViewOf(env), ops, Fields(env, q)).value.owner == ops[i].proof
    ensures Latest(cfg, ViewOf(env), ops + [op], Fields(env, q)).Some? ==> Standing(ops + [op], i)
  {
    var ops' := ops + [op];
    assert ops'[..|ops|] == ops && ops'[i] == ops[i];
    LatestIsLastStoredOrNone(cfg, ViewOf(env), ops, Fields(env, q));
    if HasQuery(op) { FieldsIff(env, op.q, q); }
    if Latest(cfg, ViewOf(env), ops', Fields(env, q)).Some? {
      forall j | i < j < |ops'| && ops[i].proof != "" ensures ops'[j] != InvalidateProofOp(ops[i].proof) {
        if j < |ops| { assert ops'[j] == ops[j]; }
      }
    }
  }

  /** The cache as deployed: in every run a hit answers the last store of a query that agrees in all six fields, within
      the lifetime of its verdict, which nothing has removed since. If no lookup names a proof, the proof of that store
      has not been invalidated since either, and the hit is what the reference has. */
  lemma CacheRefinesReference(cfg: Config, env: KeyEnv, ops: seq<Op>, qs: set<Query>,
                              q: Query, proof: string, now: real)
    requires NoCollision(env, qs) && Within(ops, qs) && q in qs
    ensures |Tracked(cfg, ViewOf(env), ops).cache.entries| <= AtLeastZero(cfg.maxSize)
    ensures var hit := Get(Tracked(cfg, ViewOf(env), ops).cache, KeyOf(env, q), proof, now).0;
            var quiet := forall i :: 0 <= i < |ops| && ops[i].GetOp? ==> ops[i].proof == "";
            hit.Some? ==>
              && (exists i :: LastStore(env, ops, q, i) && hit == Some(ops[i].verdict)
                              && now < ops[i].now + (if hit.value then cfg.positiveTtl else cfg.negativeTtl)
                              && (quiet ==> Standing(ops, i)))
              && (quiet ==> var latest := Latest(cfg, ViewOf(env), ops, Fields(env, q));
                            latest.Some? && hit == Some(latest.value.verdict) && now < latest.value.expires)
  {
    var v := ViewOf(env);
    ViewIsFaithful(env, qs);
    RunKeepsInv(cfg, v, ops);
    assert v.key(q) == KeyOf(env, q) && v.fields(q) == Fields(env, q);
    if Get(Tracked(cfg, v, ops).cache, v.key(q), proof, now).0.Some? {
      LatestIsLastStoredOrNone(cfg, v, ops, v.fields(q));
      HitIsLatest(cfg, v, ops, qs, q, proof, now);
      var i := LastStoredMeans(cfg, env, ops, q);
      if forall i :: 0 <= i < |ops| && ops[i].GetOp? ==> ops[i].proof == "" { NothingDropped(cfg, v, ops); }
    }
  }
}
