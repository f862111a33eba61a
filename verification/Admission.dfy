/** Admission control: a lock guards the queue and identity counters, a semaphore holds the execution
    slots, and a caller passes through several atomic sections between which others may run. */
module Admission {
  import opened Outcomes

  datatype Config = Config(maxConcurrent: nat, maxQueue: int, maxPerIdentity: int)

  datatype Reason = IdentityLimit | QueueFull | TimedOut

  /** Outcome of the first locked section of `acquire`. */
  datatype Entry = Refused(reason: Reason) | GotSlot | Joined

  type Counts = map<string, int>

  function CountOf(counts: Counts, id: string): int
  {
    if id in counts then counts[id] else 0
  }

  function Increment(counts: Counts, id: string): Counts
  {
    counts[id := CountOf(counts, id) + 1]
  }

  /** Take one off an entry and drop the entry at zero. */
  function Decrement(counts: Counts, id: string): Counts
    requires id in counts
  {
    if counts[id] - 1 == 0 then counts - {id} else counts[id := counts[id] - 1]
  }

  // ----- the shared object and its atomic sections

  class AdmissionController {
    const cfg: Config
    var currentQueue: int
    var identityCounts: Counts
    var permits: nat

    constructor (cfg: Config)
      ensures this.cfg == cfg && currentQueue == 0 && identityCounts == map[] && permits == cfg.maxConcurrent
    {
      this.cfg := cfg;
      currentQueue, identityCounts, permits := 0, map[], cfg.maxConcurrent;
    }

    function Shared(): SharedState
      reads this
    {
      SharedState(currentQueue, identityCounts, permits)
    }

    method Enter(id: string) returns (entry: Entry)
      modifies this
      ensures (entry, Shared()) == EnterSection(cfg, old(Shared()), id)
    {
      if CountOf(identityCounts, id) >= cfg.maxPerIdentity {
        return Refused(IdentityLimit);
      }
      if permits > 0 {
        permits := permits - 1;
        identityCounts := identityCounts[id := CountOf(identityCounts, id) + 1];
        return GotSlot;
      }
      if currentQueue >= cfg.maxQueue {
        return Refused(QueueFull);
      }
      currentQueue := currentQueue + 1;
      identityCounts := identityCounts[id := CountOf(identityCounts, id) + 1];
      entry := Joined;
    }

    /** The second locked section; the entry looked up must exist when the wait timed out. */
    method Leave(id: string, acquired: bool) returns (r: Result<(), Reason>)
      requires !acquired ==> id in identityCounts
      modifies this
      ensures Shared() == LeaveSection(old(Shared()), id, acquired)
      ensures r == if acquired then Ok(()) else Err(TimedOut)
    {
      currentQueue := currentQueue - 1;
      if !acquired {
        identityCounts := identityCounts[id := identityCounts[id] - 1];
        if identityCounts[id] == 0 {
          identityCounts := identityCounts - {id};
        }
        assert identityCounts == Decrement(old(identityCounts), id);
        return Err(TimedOut);
      }
      r := Ok(());
    }

    /** The locked section of `release`; the entry looked up must exist. */
    method ReleaseCount(id: string)
      requires id in identityCounts
      modifies this
      ensures Shared() == old(Shared()).(counts := Decrement(old(identityCounts), id))
    {
      identityCounts := identityCounts[id := identityCounts[id] - 1];
      if identityCounts[id] == 0 {
        identityCounts := identityCounts - {id};
      }
      assert identityCounts == Decrement(old(identityCounts), id);
    }

    method ReleasePermit()
      modifies this
      ensures Shared() == old(Shared()).(permits := old(permits) + 1)
    {
      permits := permits + 1;
    }
  }

  datatype SharedState = SharedState(queue: int, counts: Counts, permits: nat)

  function EnterSection(cfg: Config, s: SharedState, id: string): (Entry, SharedState)
  {
    if CountOf(s.counts, id) >= cfg.maxPerIdentity then (Refused(IdentityLimit), s)
    else if s.permits > 0 then (GotSlot, s.(permits := s.permits - 1, counts := Increment(s.counts, id)))
    else if s.queue >= cfg.maxQueue then (Refused(QueueFull), s)
    else (Joined, s.(queue := s.queue + 1, counts := Increment(s.counts, id)))
  }

  function LeaveSection(s: SharedState, id: string, acquired: bool): SharedState
    requires !acquired ==> id in s.counts
  {
    s.(queue := s.queue - 1, counts := if acquired then s.counts else Decrement(s.counts, id))
  }

  // ----- interleavings

  /** Where a caller stands between two atomic sections. */
  datatype Phase =
    | Waiting(id: string)
    | Woken(id: string, acquired: bool)
    | Admitted(id: string)
    | Releasing(id: string)
    | Finished

  type Callers = map<nat, Phase>

  datatype State = State(shared: SharedState, callers: Callers)

  datatype Action =
    | DoEnter(c: nat, id: string)
    | DoWake(c: nat)
    | DoTimeOut(c: nat)
    | DoLeave(c: nat)
    | DoReleaseCount(c: nat)
    | DoReleasePermit(c: nat)

  predicate HoldsPermit(p: Phase)
  {
    p.Admitted? || p.Releasing? || (p.Woken? && p.acquired)
  }

  predicate Queued(p: Phase)
  {
    p.Waiting? || p.Woken?
  }

  /** The caller is counted for the identity: queued or admitted under it. */
  predicate CountedFor(p: Phase, id: string)
  {
    (p.Waiting? || p.Woken? || p.Admitted?) && p.id == id
  }

  function Holders(cs: Callers): set<nat> { set c | c in cs && HoldsPermit(cs[c]) }
  function InQueue(cs: Callers): set<nat> { set c | c in cs && Queued(cs[c]) }
  function CallersFor(cs: Callers, id: string): set<nat> { set c | c in cs && CountedFor(cs[c], id) }

  function AtLeastZero(n: int): nat { if n < 0 then 0 else n }

  ghost predicate Inv(cfg: Config, s: State)
  {
    && s.shared.permits + |Holders(s.callers)| == cfg.maxConcurrent
    && s.shared.queue == |InQueue(s.callers)| <= AtLeastZero(cfg.maxQueue)
    && (forall id :: CountOf(s.shared.counts, id) == |CallersFor(s.callers, id)| <= AtLeastZero(cfg.maxPerIdentity))
    && (forall id :: id in s.shared.counts ==> s.shared.counts[id] > 0)
  }

  /** A caller whose section looks an identity up is counted under it. */
  lemma EntryFound(cfg: Config, s: State, c: nat)
    requires Inv(cfg, s) && c in s.callers
    ensures forall id :: CountedFor(s.callers[c], id) ==> id in s.shared.counts && s.shared.counts[id] >= 1
  {
    forall id | CountedFor(s.callers[c], id) ensures id in s.shared.counts && s.shared.counts[id] >= 1 {
      assert c in CallersFor(s.callers, id);
      assert CountOf(s.shared.counts, id) == |CallersFor(s.callers, id)|;
    }
  }

  /** One atomic section of one caller; an action that is not enabled leaves the state alone. A wait may
      time out whether or not a permit is free. */
  function Step(cfg: Config, s: State, a: Action): State
  {
    match a
    case DoEnter(c, id) =>
      if c in s.callers then s
      else
        var (entry, shared) := EnterSection(cfg, s.shared, id);
        State(shared, s.callers[c := match entry
                                     case Refused(_) => Finished
                                     case GotSlot => Admitted(id)
                                     case Joined => Waiting(id)])
    case DoWake(c) =>
      if c in s.callers && s.callers[c].Waiting? && s.shared.permits > 0
      then State(s.shared.(permits := s.shared.permits - 1), s.callers[c := Woken(s.callers[c].id, true)])
      else s
    case DoTimeOut(c) =>
      if c in s.callers && s.callers[c].Waiting?
      then State(s.shared, s.callers[c := Woken(s.callers[c].id, false)]) else s
    case DoLeave(c) =>
      if c in s.callers && s.callers[c].Woken? && (s.callers[c].acquired || s.callers[c].id in s.shared.counts)
      then
        var p := s.callers[c];
        State(LeaveSection(s.shared, p.id, p.acquired), s.callers[c := if p.acquired then Admitted(p.id) else Finished])
      else s
    case DoReleaseCount(c) =>
      if c in s.callers && s.callers[c].Admitted? && s.callers[c].id in s.shared.counts
      then State(s.shared.(counts := Decrement(s.shared.counts, s.callers[c].id)),
                 s.callers[c := Releasing(s.callers[c].id)])
      else s
    case DoReleasePermit(c) =>
      if c in s.callers && s.callers[c].Releasing?
      then State(s.shared.(permits := s.shared.permits + 1), s.callers[c := Finished])
      else s
  }

  function Flag(b: bool): int { if b then 1 else 0 }

  /** Moving one caller changes each population by that caller alone. */
  lemma MovedHolder(cs: Callers, c: nat, p: Phase)
    ensures |Holders(cs[c := p])| == |Holders(cs)| + Flag(HoldsPermit(p)) - Flag(c in cs && HoldsPermit(cs[c]))
  {
    assert Holders(cs[c := p]) == (if HoldsPermit(p) then Holders(cs) + {c} else Holders(cs) - {c});
  }

  lemma MovedInQueue(cs: Callers, c: nat, p: Phase)
    ensures |InQueue(cs[c := p])| == |InQueue(cs)| + Flag(Queued(p)) - Flag(c in cs && Queued(cs[c]))
  {
    assert InQueue(cs[c := p]) == (if Queued(p) then InQueue(cs) + {c} else InQueue(cs) - {c});
  }

  lemma MovedFor(cs: Callers, c: nat, p: Phase, id: string)
    ensures |CallersFor(cs[c := p], id)| ==
            |CallersFor(cs, id)| + Flag(CountedFor(p, id)) - Flag(c in cs && CountedFor(cs[c], id))
  {
    assert CallersFor(cs[c := p], id) ==
           (if CountedFor(p, id) then CallersFor(cs, id) + {c} else CallersFor(cs, id) - {c});
  }

  lemma StepKeepsInv(cfg: Config, s: State, a: Action)
    requires Inv(cfg, s)
    ensures Inv(cfg, Step(cfg, s, a))
  {
    var s' := Step(cfg, s, a);
    if s' != s {
      var c := a.c;
      var p := s'.callers[c];
      if c in s.callers { EntryFound(cfg, s, c); }
      MovedHolder(s.callers, c, p);
      MovedInQueue(s.callers, c, p);
      assert s'.callers == s.callers[c := p];
      forall id
        ensures CountOf(s'.shared.counts, id) == |CallersFor(s'.callers, id)| <= AtLeastZero(cfg.maxPerIdentity)
      {
        MovedFor(s.callers, c, p, id);
        assert CountOf(s.shared.counts, id) == |CallersFor(s.callers, id)| <= AtLeastZero(cfg.maxPerIdentity);
      }
    }
  }

  function Start(cfg: Config): State
  {
    State(SharedState(0, map[], cfg.maxConcurrent), map[])
  }

  function Run(cfg: Config, s: State, actions: seq<Action>): State
    decreases |actions|
  {
    if actions == [] then s else Run(cfg, Step(cfg, s, actions[0]), actions[1..])
  }

  lemma {:induction false} RunKeepsInv(cfg: Config, s: State, actions: seq<Action>)
    requires Inv(cfg, s)
    ensures Inv(cfg, Run(cfg, s, actions))
    decreases |actions|
  {
    if actions != [] {
      StepKeepsInv(cfg, s, actions[0]);
      RunKeepsInv(cfg, Step(cfg, s, actions[0]), actions[1..]);
    }
  }

  /** In every interleaving permits are conserved, the queue counter is the number of callers between joining
      and leaving, identity counters are the callers queued or admitted, and all three keep their limits. */
  lemma EveryInterleaving(cfg: Config, actions: seq<Action>)
    ensures Inv(cfg, Run(cfg, Start(cfg), actions))
    ensures |Holders(Run(cfg, Start(cfg), actions).callers)| <= cfg.maxConcurrent
  {
    assert Inv(cfg, Start(cfg)) by {
      assert Holders(map[]) == {} && InQueue(map[]) == {};
      forall id ensures CallersFor(map[], id) == {} { }
    }
    RunKeepsInv(cfg, Start(cfg), actions);
  }

  /** When every caller has finished, every counter and permit is back where it started. */
  lemma AllReturned(cfg: Config, actions: seq<Action>)
    requires forall c :: c in Run(cfg, Start(cfg), actions).callers ==>
               Run(cfg, Start(cfg), actions).callers[c] == Finished
    ensures Run(cfg, Start(cfg), actions).shared == Start(cfg).shared
  {
    EveryInterleaving(cfg, actions);
    var s := Run(cfg, Start(cfg), actions);
    assert Holders(s.callers) == {} && InQueue(s.callers) == {};
    forall id ensures id !in s.shared.counts {
      assert CallersFor(s.callers, id) == {};
      assert CountOf(s.shared.counts, id) == 0;
    }
    assert s.shared.counts == map[];
  }

  /** The next section of a caller that has begun and not finished. */
  function NextAction(p: Phase, c: nat): Action
    requires !p.Finished?
  {
    match p
    case Waiting(_) => DoTimeOut(c)
    case Woken(_, _) => DoLeave(c)
    case Admitted(_) => DoReleaseCount(c)
    case Releasing(_) => DoReleasePermit(c)
  }

  /** No caller is ever stuck: in every reachable state the next section of an unfinished caller is enabled,
      so `release` and a timed-out `acquire` always find the entry they decrement. */
  lemma NeverStuck(cfg: Config, actions: seq<Action>, c: nat)
    requires c in Run(cfg, Start(cfg), actions).callers && !Run(cfg, Start(cfg), actions).callers[c].Finished?
    ensures var s := Run(cfg, Start(cfg), actions);
            Step(cfg, s, NextAction(s.callers[c], c)).callers[c] != s.callers[c]
  {
    EveryInterleaving(cfg, actions);
    var s := Run(cfg, Start(cfg), actions);
    EntryFound(cfg, s, c);
    assert s.callers[c].Woken? || s.callers[c].Admitted? ==> CountedFor(s.callers[c], s.callers[c].id);
  }

  // ----- the counters decide as the callers themselves would

  /** The same protocol without counters: every decision is taken by counting callers. */
  function Moved(cfg: Config, cs: Callers, a: Action): Callers
  {
    match a
    case DoEnter(c, id) =>
      if c in cs then cs
      else if |CallersFor(cs, id)| >= cfg.maxPerIdentity then cs[c := Finished]
      else if |Holders(cs)| < cfg.maxConcurrent then cs[c := Admitted(id)]
      else if |InQueue(cs)| < cfg.maxQueue then cs[c := Waiting(id)]
      else cs[c := Finished]
    case DoWake(c) =>
      if c in cs && cs[c].Waiting? && |Holders(cs)| < cfg.maxConcurrent then cs[c := Woken(cs[c].id, true)] else cs
    case DoTimeOut(c) => if c in cs && cs[c].Waiting? then cs[c := Woken(cs[c].id, false)] else cs
    case DoLeave(c) =>
      if c in cs && cs[c].Woken? then cs[c := if cs[c].acquired then Admitted(cs[c].id) else Finished] else cs
    case DoReleaseCount(c) => if c in cs && cs[c].Admitted? then cs[c := Releasing(cs[c].id)] else cs
    case DoReleasePermit(c) => if c in cs && cs[c].Releasing? then cs[c := Finished] else cs
  }

  function MovedAll(cfg: Config, cs: Callers, actions: seq<Action>): Callers
    decreases |actions|
  {
    if actions == [] then cs else MovedAll(cfg, Moved(cfg, cs, actions[0]), actions[1..])
  }

  lemma StepMoves(cfg: Config, s: State, a: Action)
    requires Inv(cfg, s)
    ensures Step(cfg, s, a).callers == Moved(cfg, s.callers, a)
  {
    if a.c in s.callers { EntryFound(cfg, s, a.c); }
    if a.DoEnter? { assert CountOf(s.shared.counts, a.id) == |CallersFor(s.callers, a.id)|; }
    if a.c in s.callers && (s.callers[a.c].Woken? || s.callers[a.c].Admitted?) {
      assert CountedFor(s.callers[a.c], s.callers[a.c].id);
    }
  }

  lemma {:induction false} RunMoves(cfg: Config, s: State, actions: seq<Action>)
    requires Inv(cfg, s)
    ensures Run(cfg, s, actions).callers == MovedAll(cfg, s.callers, actions)
    decreases |actions|
  {
    if actions != [] {
      StepMoves(cfg, s, actions[0]);
      StepKeepsInv(cfg, s, actions[0]);
      RunMoves(cfg, Step(cfg, s, actions[0]), actions[1..]);
    }
  }

  /** In every interleaving every caller stands where counting callers would have put it. */
  lemma CountersDecide(cfg: Config, actions: seq<Action>)
    ensures Run(cfg, Start(cfg), actions).callers == MovedAll(cfg, map[], actions)
  {
    EveryInterleaving(cfg, []);
    RunMoves(cfg, Start(cfg), actions);
  }

  /** What a new caller is told: below the limit of its identity a free permit is always granted, whatever the queue;
      it is refused for its identity exactly at that limit, and for the queue exactly when nothing is free and the
      queue is full. */
  lemma EntryDecision(cfg: Config, actions: seq<Action>, id: string)
    ensures var s := Run(cfg, Start(cfg), actions);
            var mine, running, waiting := |CallersFor(s.callers, id)|, |Holders(s.callers)|, |InQueue(s.callers)|;
            EnterSection(cfg, s.shared, id).0 ==
              if mine >= cfg.maxPerIdentity then Refused(IdentityLimit)
              else if running < cfg.maxConcurrent then GotSlot
              else if waiting < cfg.maxQueue then Joined
              else Refused(QueueFull)
  {
    EveryInterleaving(cfg, actions);
    var s := Run(cfg, Start(cfg), actions);
    assert CountOf(s.shared.counts, id) == |CallersFor(s.callers, id)|;
  }
}
