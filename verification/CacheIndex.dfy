/** Exactly what the index from proof identifiers to keys holds, and so exactly what invalidating a proof
    removes; and when a stored verdict is certain to be still there. */
module CacheIndex {
  import opened Outcomes
  import opened CacheKey
  import opened VerifierCache
  import opened CacheHistory

  // ----- the index

  /** The operation stores key x under the proof. */
  predicate ListsNow(cfg: Config, t: Track, op: Op, k: Key, proof: string, x: Key)
  {
    op.SetOp? && k == x && op.proof == proof && Set(cfg, t.cache, k, op.verdict, op.proof, op.now).Some?
  }

  /** The operation takes key x from the proof's list: a hit that names the proof, an invalidation of the query
      that names it, the invalidation of the proof itself, or a clearing. */
  predicate UnlistsNow(t: Track, op: Op, k: Key, proof: string, x: Key)
  {
    match op
    case GetOp(_, p, now) => k == x && p == proof && Get(t.cache, k, p, now).0.Some?
    case SetOp(_, _, _, _) => false
    case InvalidateOp(_, p) => k == x && p == proof
    case InvalidateProofOp(p) => p == proof
    case ClearOp => true
  }

  lemma IndexStep(cfg: Config, t: Track, op: Op, k: Key, n: nat, proof: string, x: Key)
    requires proof != ""
    ensures x in KeysUnder(Step(cfg, t, op, k, n).cache.index, proof) <==>
            ListsNow(cfg, t, op, k, proof, x)
            || (x in KeysUnder(t.cache.index, proof) && !UnlistsNow(t, op, k, proof, x))
  {
  }

  ghost predicate Lists(cfg: Config, v: View, ops: seq<Op>, i: int, proof: string, x: Key)
    requires 0 <= i < |ops|
  {
    ListsNow(cfg, Tracked(cfg, v, ops[..i]), ops[i], KeyFor(v, ops[i]), proof, x)
  }

  ghost predicate Unlists(cfg: Config, v: View, ops: seq<Op>, i: int, proof: string, x: Key)
    requires 0 <= i < |ops|
  {
    UnlistsNow(Tracked(cfg, v, ops[..i]), ops[i], KeyFor(v, ops[i]), proof, x)
  }

  /** Operation i stored the key under the proof, and none since has taken it off the list. */
  ghost predicate ListedAt(cfg: Config, v: View, ops: seq<Op>, i: int, proof: string, x: Key)
  {
    0 <= i < |ops| && Lists(cfg, v, ops, i, proof, x)
    && forall j :: i < j < |ops| ==> !Unlists(cfg, v, ops, j, proof, x)
  }

  ghost predicate ListedSince(cfg: Config, v: View, ops: seq<Op>, proof: string, x: Key)
  {
    exists i :: ListedAt(cfg, v, ops, i, proof, x)
  }

  lemma SamePast(cfg: Config, v: View, ops: seq<Op>, op: Op, i: int, proof: string, x: Key)
    requires 0 <= i < |ops|
    ensures Lists(cfg, v, ops + [op], i, proof, x) <==> Lists(cfg, v, ops, i, proof, x)
    ensures Unlists(cfg, v, ops + [op], i, proof, x) <==> Unlists(cfg, v, ops, i, proof, x)
  {
    assert (ops + [op])[..i] == ops[..i];
  }

  lemma ListedSnoc(cfg: Config, v: View, ops: seq<Op>, op: Op, proof: string, x: Key)
    ensures var t, k := Tracked(cfg, v, ops), KeyFor(v, op);
            ListedSince(cfg, v, ops + [op], proof, x) <==>
            ListsNow(cfg, t, op, k, proof, x) || (ListedSince(cfg, v, ops, proof, x) && !UnlistsNow(t, op, k, proof, x))
  {
    var n, all := |ops|, ops + [op];
    assert all[..n] == ops;
    if i :| ListedAt(cfg, v, all, i, proof, x) {
      if i < n { ListedEarlier(cfg, v, ops, op, i, proof, x); }
    }
    if ListsNow(cfg, Tracked(cfg, v, ops), op, KeyFor(v, op), proof, x) {
      assert ListedAt(cfg, v, all, n, proof, x);
    }
    if !UnlistsNow(Tracked(cfg, v, ops), op, KeyFor(v, op), proof, x) {
      if i :| ListedAt(cfg, v, ops, i, proof, x) { ListedEarlier(cfg, v, ops, op, i, proof, x); }
    }
  }

  lemma ListedEarlier(cfg: Config, v: View, ops: seq<Op>, op: Op, i: int, proof: string, x: Key)
    requires 0 <= i < |ops|
    ensures ListedAt(cfg, v, ops + [op], i, proof, x) <==>
            ListedAt(cfg, v, ops, i, proof, x) && !UnlistsNow(Tracked(cfg, v, ops), op, KeyFor(v, op), proof, x)
  {
    var all := ops + [op];
    assert all[..|ops|] == ops;
    assert Unlists(cfg, v, all, |ops|, proof, x) <==> UnlistsNow(Tracked(cfg, v, ops), op, KeyFor(v, op), proof, x);
    forall j | 0 <= j < |ops|
      ensures Lists(cfg, v, all, j, proof, x) <==> Lists(cfg, v, ops, j, proof, x)
      ensures Unlists(cfg, v, all, j, proof, x) <==> Unlists(cfg, v, ops, j, proof, x)
    {
      SamePast(cfg, v, ops, op, j, proof, x);
    }
  }

  /** The index after any run: a key is under a proof exactly when some operation stored it there and none since
      has taken it off, whoever has stored the key since. */
  lemma {:induction false} IndexExact(cfg: Config, v: View, ops: seq<Op>, proof: string, x: Key)
    requires proof != ""
    ensures x in KeysUnder(Tracked(cfg, v, ops).cache.index, proof) <==> ListedSince(cfg, v, ops, proof, x)
  {
    if ops != [] {
      var n := |ops| - 1;
      assert ops == ops[..n] + [ops[n]];
      IndexExact(cfg, v, ops[..n], proof, x);
      IndexStep(cfg, Tracked(cfg, v, ops[..n]), ops[n], KeyFor(v, ops[n]), n, proof, x);
      ListedSnoc(cfg, v, ops[..n], ops[n], proof, x);
    }
  }

  /** Invalidating a proof removes exactly the entries whose keys are listed under it, its own and those that
      have since been stored under another proof. */
  lemma InvalidateProofRemoves(cfg: Config, v: View, ops: seq<Op>, proof: string, e: Entry)
    requires proof != "" && e in Tracked(cfg, v, ops).cache.entries
    ensures e in InvalidateProof(Tracked(cfg, v, ops).cache, proof).entries <==> !ListedSince(cfg, v, ops, proof, e.key)
  {
    IndexExact(cfg, v, ops, proof, e.key);
    WithoutElements(Tracked(cfg, v, ops).cache.entries, KeysUnder(Tracked(cfg, v, ops).cache.index, proof));
  }

  lemma AbsentIsMissed(es: seq<Entry>, k: Key)
    requires forall e :: e in es ==> e.key != k
    ensures Find(es, k) == None
  {
  }

  /** An entry of another proof that is still listed under this one is lost with it: every lookup misses,
      although the reference keeps the verdict. */
  lemma StaleListLosesEntry(cfg: Config, v: View, ops: seq<Op>, qs: set<Query>, q: Query, proof: string, now: real)
    requires Faithful(v, qs) && Within(ops, qs) && q in qs && proof != ""
    requires var t, k := Tracked(cfg, v, ops), v.key(q);
             && Find(t.cache.entries, k).Some? && k in t.owner && t.owner[k] != proof && k !in t.dropped
             && ListedSince(cfg, v, ops, proof, k)
    ensures var later := ops + [InvalidateProofOp(proof)];
            && Get(Tracked(cfg, v, later).cache, v.key(q), "", now).0 == None
            && Latest(cfg, v, later, v.fields(q)) == Latest(cfg, v, ops, v.fields(q))
            && Latest(cfg, v, later, v.fields(q)).Some?
  {
    var later, t, k := ops + [InvalidateProofOp(proof)], Tracked(cfg, v, ops), v.key(q);
    assert later[..|ops|] == ops;
    RunAgrees(cfg, v, ops, qs);
    var e := Find(t.cache.entries, k).value;
    assert e in t.cache.entries && v.key(q) == e.key;
    IndexExact(cfg, v, ops, proof, k);
    WithoutElements(t.cache.entries, KeysUnder(t.cache.index, proof));
    AbsentIsMissed(InvalidateProof(t.cache, proof).entries, k);
  }

  // ----- entries that are certain to be there

  /** The entry is in the list, and everything behind it has one of these keys. */
  predicate Tail(es: seq<Entry>, e: Entry, others: set<Key>)
  {
    es != [] && ((es[0] == e && forall i :: 1 <= i < |es| ==> es[i].key in others) || Tail(es[1..], e, others))
  }

  lemma {:induction false} TailWithout(es: seq<Entry>, e: Entry, others: set<Key>, ks: set<Key>)
    requires Tail(es, e, others) && e.key !in ks
    ensures Tail(Without(es, ks), e, others)
  {
    if es[0] == e && forall i :: 1 <= i < |es| ==> es[i].key in others {
      WithoutElements(es[1..], ks);
      var rest := Without(es[1..], ks);
      forall i | 0 <= i < |rest| ensures rest[i].key in others {
        assert rest[i] in es[1..];
      }
      assert Without(es, ks) == [e] + rest;
    } else {
      TailWithout(es[1..], e, others, ks);
      if es[0].key !in ks {
        assert ([es[0]] + Without(es[1..], ks))[1..] == Without(es[1..], ks);
      }
    }
  }

  lemma {:induction false} TailAppend(es: seq<Entry>, e: Entry, others: set<Key>, x: Entry)
    requires Tail(es, e, others)
    ensures Tail(es + [x], e, others + {x.key})
  {
    assert (es + [x])[1..] == es[1..] + [x];
    if !(es[0] == e && forall i :: 1 <= i < |es| ==> es[i].key in others) {
      TailAppend(es[1..], e, others, x);
    }
  }

  lemma {:induction false} TailLast(es: seq<Entry>, e: Entry, others: set<Key>)
    ensures Tail(es + [e], e, others)
  {
    if es != [] {
      assert (es + [e])[1..] == es[1..] + [e];
      TailLast(es[1..], e, others);
    }
  }

  lemma {:induction false} TailMore(es: seq<Entry>, e: Entry, others: set<Key>, more: set<Key>)
    requires Tail(es, e, others) && others <= more
    ensures Tail(es, e, more)
  {
    if !(es[0] == e && forall i :: 1 <= i < |es| ==> es[i].key in others) {
      TailMore(es[1..], e, others, more);
    }
  }

  lemma {:induction false} TailFound(es: seq<Entry>, e: Entry, others: set<Key>, touched: map<Key, nat>,
                                     lo: nat, hi: nat)
    requires Tail(es, e, others) && ByTouch(es, touched, lo, hi)
    ensures Find(es, e.key) == Some(e) && e in es
    decreases |es|
  {
    if es[0] != e {
      TailFound(es[1..], e, others, touched, touched[es[0].key] + 1, hi);
      var j :| 0 <= j < |es[1..]| && es[1..][j] == e;
      ByTouchAt(es, touched, lo, hi, 0, j + 1);
    }
  }

  ghost function KeySet(es: seq<Entry>): set<Key>
  {
    set x | x in es :: x.key
  }

  /** Entries in order of touch have different keys. */
  lemma {:induction false} KeysCounted(es: seq<Entry>, touched: map<Key, nat>, lo: nat, hi: nat)
    requires ByTouch(es, touched, lo, hi)
    ensures |KeySet(es)| == |es|
    decreases |es|
  {
    if es == [] {
      assert KeySet(es) == {};
    } else {
      KeysCounted(es[1..], touched, touched[es[0].key] + 1, hi);
      forall x | x in es[1..] ensures x.key != es[0].key {
        var j :| 0 <= j < |es[1..]| && es[1..][j] == x;
        ByTouchAt(es, touched, lo, hi, 0, j + 1);
      }
      assert KeySet(es) == KeySet(es[1..]) + {es[0].key} by {
        assert forall x :: x in es <==> x == es[0] || x in es[1..];
      }
    }
  }

  lemma SubsetSize<T>(a: set<T>, b: set<T>)
    requires a <= b
    ensures |a| <= |b|
  {
    assert b == a + (b - a);
  }

  /** A full cache whose oldest entry is e has been touched under as many other keys as it holds. */
  lemma FullOfOthers(es: seq<Entry>, e: Entry, others: set<Key>, x: Key, touched: map<Key, nat>, n: nat)
    requires ByTouch(es, touched, 0, n) && es != [] && es[0] == e && (forall i :: 1 <= i < |es| ==> es[i].key in others)
    requires x in others && Find(es, x).None?
    ensures |es| <= |others|
  {
    FindAbsent(es, x);
    KeysCounted(es[1..], touched, touched[es[0].key] + 1, n);
    var keys := KeySet(es[1..]) + {x};
    assert x !in KeySet(es[1..]);
    assert keys <= others by {
      forall y | y in es[1..] ensures y.key in others {
        var j :| 0 <= j < |es[1..]| && es[1..][j] == y;
        assert es[j + 1] == y;
      }
    }
    SubsetSize(keys, others);
  }

  /** The operation leaves the entry alone: it does not store or invalidate its key, directly or through a list,
      does not clear the cache, and does not look the key up once it has expired. */
  predicate Spares(t: Track, op: Op, k: Key, e: Entry)
  {
    match op
    case GetOp(_, _, now) => k == e.key ==> now < e.expires
    case SetOp(_, _, _, _) => k != e.key
    case InvalidateOp(_, _) => k != e.key
    case InvalidateProofOp(p) => e.key !in KeysUnder(t.cache.index, p)
    case ClearOp => false
  }

  /** The key the operation touches, if it is another than the entry's. */
  function OtherKey(op: Op, k: Key, e: Entry): set<Key>
  {
    if (op.GetOp? || op.SetOp?) && k != e.key then {k} else {}
  }

  lemma GetKeepsTail(cfg: Config, t: Track, op: Op, k: Key, n: nat, e: Entry, others: set<Key>)
    requires Inv(cfg, t, n) && Tail(t.cache.entries, e, others) && Spares(t, op, k, e) && op.GetOp?
    ensures Tail(Step(cfg, t, op, k, n).cache.entries, e, others + OtherKey(op, k, e))
  {
    var es := t.cache.entries;
    TailFound(es, e, others, t.touched, 0, n);
    if k == e.key {
      assert others + OtherKey(op, k, e) == others;
      TailLast(Without(es, {k}), e, others);
    } else {
      TailWithout(es, e, others, {k});
      if Find(es, k).Some? { TailAppend(Without(es, {k}), e, others, Find(es, k).value); }
      TailMore(es, e, others, others + {k});
      TailMore(Without(es, {k}), e, others, others + {k});
    }
  }

  lemma SetKeepsTail(cfg: Config, t: Track, op: Op, k: Key, n: nat, e: Entry, others: set<Key>)
    requires Inv(cfg, t, n) && Tail(t.cache.entries, e, others) && Spares(t, op, k, e) && op.SetOp?
    requires |others + OtherKey(op, k, e)| < cfg.maxSize
    ensures Tail(Step(cfg, t, op, k, n).cache.entries, e, others + OtherKey(op, k, e))
  {
    var es, x := t.cache.entries, Entry(k, op.verdict, op.now + Ttl(cfg, op.verdict));
    if Find(es, k).Some? {
      TailWithout(es, e, others, {k});
      TailAppend(Without(es, {k}), e, others, x);
    } else if |es| >= cfg.maxSize {
      EvictionKeepsTail(es, e, others, x, t.touched, n);
    } else {
      TailAppend(es, e, others, x);
    }
  }

  lemma EvictionKeepsTail(es: seq<Entry>, e: Entry, others: set<Key>, x: Entry, touched: map<Key, nat>, n: nat)
    requires ByTouch(es, touched, 0, n) && Tail(es, e, others) && Find(es, x.key).None? && |others + {x.key}| < |es|
    ensures Tail(es[1..] + [x], e, others + {x.key})
  {
    var more := others + {x.key};
    TailMore(es, e, others, more);
    if es[0] == e && forall i :: 1 <= i < |es| ==> es[i].key in more {
      FullOfOthers(es, e, more, x.key, touched, n);
    }
    TailAppend(es[1..], e, more, x);
    assert more + {x.key} == more;
  }

  lemma StepKeepsTail(cfg: Config, t: Track, op: Op, k: Key, n: nat, e: Entry, others: set<Key>)
    requires Inv(cfg, t, n) && Tail(t.cache.entries, e, others) && Spares(t, op, k, e)
    requires |others + OtherKey(op, k, e)| < cfg.maxSize
    ensures Tail(Step(cfg, t, op, k, n).cache.entries, e, others + OtherKey(op, k, e))
  {
    match op
    case GetOp(_, _, _) => GetKeepsTail(cfg, t, op, k, n, e, others);
    case SetOp(_, _, _, _) => SetKeepsTail(cfg, t, op, k, n, e, others);
    case InvalidateOp(_, _) => TailWithout(t.cache.entries, e, others, {k});
    case InvalidateProofOp(p) => TailWithout(t.cache.entries, e, others, KeysUnder(t.cache.index, p));
    case ClearOp =>
  }

  ghost predicate AllSpare(cfg: Config, v: View, pre: seq<Op>, suf: seq<Op>, e: Entry)
  {
    forall j :: 0 <= j < |suf| ==> Spares(Tracked(cfg, v, pre + suf[..j]), suf[j], KeyFor(v, suf[j]), e)
  }

  /** The other keys touched along a run. */
  function Others(v: View, suf: seq<Op>, e: Entry): set<Key>
  {
    if suf == [] then {}
    else
      var n := |suf| - 1;
      Others(v, suf[..n], e) + OtherKey(suf[n], KeyFor(v, suf[n]), e)
  }

  lemma TrackedSnoc(cfg: Config, v: View, ops: seq<Op>, op: Op)
    ensures Tracked(cfg, v, ops + [op]) == Step(cfg, Tracked(cfg, v, ops), op, KeyFor(v, op), |ops|)
  {
    assert (ops + [op])[..|ops|] == ops;
  }

  lemma SplitLast(pre: seq<Op>, suf: seq<Op>)
    requires suf != []
    ensures pre + suf == (pre + suf[..|suf| - 1]) + [suf[|suf| - 1]]
  {
  }

  lemma SpareBefore(cfg: Config, v: View, pre: seq<Op>, suf: seq<Op>, e: Entry)
    requires suf != [] && AllSpare(cfg, v, pre, suf, e)
    ensures AllSpare(cfg, v, pre, suf[..|suf| - 1], e)
  {
    var before := suf[..|suf| - 1];
    forall j | 0 <= j < |before|
      ensures Spares(Tracked(cfg, v, pre + before[..j]), before[j], KeyFor(v, before[j]), e) {
      assert before[..j] == suf[..j];
    }
  }

  lemma {:induction false} TailSurvives(cfg: Config, v: View, pre: seq<Op>, suf: seq<Op>, e: Entry)
    requires Tail(Tracked(cfg, v, pre).cache.entries, e, {})
    requires AllSpare(cfg, v, pre, suf, e) && |Others(v, suf, e)| < cfg.maxSize
    ensures Tail(Tracked(cfg, v, pre + suf).cache.entries, e, Others(v, suf, e))
    decreases |suf|
  {
    if suf == [] {
      assert pre + suf == pre;
    } else {
      var n := |suf| - 1;
      var before, op := suf[..n], suf[n];
      SpareBefore(cfg, v, pre, suf, e);
      SubsetSize(Others(v, before, e), Others(v, suf, e));
      TailSurvives(cfg, v, pre, before, e);
      SplitLast(pre, suf);
      RunKeepsInv(cfg, v, pre + before);
      TrackedSnoc(cfg, v, pre + before, op);
      StepKeepsTail(cfg, Tracked(cfg, v, pre + before), op, KeyFor(v, op), |pre + before|, e, Others(v, before, e));
    }
  }

  /** A stored verdict is certain to be hit, for as long as it lives, while nothing invalidates it and fewer other
      keys than the cache has places are looked up or stored: recency alone decides what is evicted. */
  lemma StoredIsHit(cfg: Config, v: View, pre: seq<Op>, store: Op, suf: seq<Op>, e: Entry, proof: string, now: real)
    requires cfg.maxSize >= 1 && store.SetOp? && e.key == v.key(store.q) && e.verdict == store.verdict
    requires e.expires == store.now + if store.verdict then cfg.positiveTtl else cfg.negativeTtl
    requires AllSpare(cfg, v, pre + [store], suf, e) && |Others(v, suf, e)| < cfg.maxSize && now < e.expires
    ensures Get(Tracked(cfg, v, pre + [store] + suf).cache, v.key(store.q), proof, now).0 == Some(store.verdict)
  {
    var stored := pre + [store];
    JustStored(cfg, v, pre, store, e);
    TailSurvives(cfg, v, stored, suf, e);
    RunKeepsInv(cfg, v, stored + suf);
    var t := Tracked(cfg, v, stored + suf);
    TailFound(t.cache.entries, e, Others(v, suf, e), t.touched, 0, |stored + suf|);
  }

  lemma JustStored(cfg: Config, v: View, pre: seq<Op>, store: Op, e: Entry)
    requires cfg.maxSize >= 1 && store.SetOp?
    requires e == Entry(v.key(store.q), store.verdict, store.now + Ttl(cfg, store.verdict))
    ensures Tail(Tracked(cfg, v, pre + [store]).cache.entries, e, {})
  {
    TrackedSnoc(cfg, v, pre, store);
    RunKeepsInv(cfg, v, pre);
    StoreGoesLast(cfg, Tracked(cfg, v, pre), store, v.key(store.q), |pre|, e);
  }

  /** A store always succeeds in a cache with room for something, and its entry goes last. */
  lemma StoreGoesLast(cfg: Config, t: Track, op: Op, k: Key, n: nat, e: Entry)
    requires Inv(cfg, t, n) && cfg.maxSize >= 1 && op.SetOp?
    requires e == Entry(k, op.verdict, op.now + Ttl(cfg, op.verdict))
    ensures var t' := Step(cfg, t, op, k, n);
            && Set(cfg, t.cache, k, op.verdict, op.proof, op.now).Some?
            && Tail(t'.cache.entries, e, {}) && t'.owner == t.owner[k := op.proof] && k !in t'.dropped
  {
    var kept := Kept(cfg, t, k, n);
    TailLast(kept, e, {});
  }

  /** An entry that another proof's list still names: a verdict stored under one proof, and again under another
      before anything takes it off the first one's list. */
  lemma StoredTwiceIsStale(cfg: Config, v: View, pre: seq<Op>, first: Op, second: Op, k: Key)
    requires cfg.maxSize >= 1 && first.SetOp? && second.SetOp? && v.key(first.q) == v.key(second.q) == k
    ensures var ops := pre + [first] + [second];
            var t := Tracked(cfg, v, ops);
            && Find(t.cache.entries, k).Some? && k in t.owner && t.owner[k] == second.proof && k !in t.dropped
            && ListedSince(cfg, v, ops, first.proof, k)
  {
    var once := pre + [first];
    var e := Entry(k, second.verdict, second.now + Ttl(cfg, second.verdict));
    RunKeepsInv(cfg, v, pre);
    StoreGoesLast(cfg, Tracked(cfg, v, pre), first, k, |pre|,
                  Entry(k, first.verdict, first.now + Ttl(cfg, first.verdict)));
    ListedSnoc(cfg, v, pre, first, first.proof, k);
    RunKeepsInv(cfg, v, once);
    TrackedSnoc(cfg, v, once, second);
    StoreGoesLast(cfg, Tracked(cfg, v, once), second, k, |once|, e);
    ListedSnoc(cfg, v, once, second, first.proof, k);
    RunKeepsInv(cfg, v, once + [second]);
    var t := Tracked(cfg, v, once + [second]);
    TailFound(t.cache.entries, e, {}, t.touched, 0, |once + [second]|);
  }
}
