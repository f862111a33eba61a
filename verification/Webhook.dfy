/** Webhook deliveries: rows are leased to workers, attempted, and retried with growing delays. */
module Webhook {
  import opened Outcomes

  const MAX_RETRIES: int := 5
  const BACKOFF: seq<real> := [10.0, 60.0, 300.0, 3600.0, 86400.0]

  datatype Status = Pending | Failed | Success | DeadLetter

  datatype Delivery = Delivery(status: Status, retryCount: nat, nextRetryAt: real, leaseExpiresAt: Option<real>)

  type Table = map<nat, Delivery>

  // ----- the two updates

  /** Ready to be attempted and not leased to anyone. */
  predicate Eligible(d: Delivery, now: real)
  {
    && (d.status == Pending || d.status == Failed)
    && d.nextRetryAt <= now
    && (d.leaseExpiresAt.None? || d.leaseExpiresAt.value <= now)
  }

  function EligibleIds(rows: Table, now: real): set<nat>
  {
    set id | id in rows && Eligible(rows[id], now)
  }

  /** What the query may pick: eligible rows not locked by another worker, earliest first, up to the limit. */
  ghost predicate Selectable(rows: Table, chosen: set<nat>, locked: set<nat>, limit: nat, now: real)
  {
    var free := EligibleIds(rows, now) - locked;
    && chosen <= free
    && |chosen| <= limit
    && (|chosen| < limit ==> chosen == free)
    && (forall c, f :: c in chosen && f in free - chosen ==> rows[c].nextRetryAt <= rows[f].nextRetryAt)
  }

  function Leased(rows: Table, chosen: set<nat>, expires: real): Table
  {
    map id | id in rows :: if id in chosen then rows[id].(leaseExpiresAt := Some(expires)) else rows[id]
  }

  /** Delay before the retry after failure number `retryCount`. */
  function Delay(retryCount: nat): real
  {
    if retryCount < |BACKOFF| then BACKOFF[retryCount] else BACKOFF[|BACKOFF| - 1]
  }

  /** The row as an attempt's report leaves it; `retryCount` is the count handed out with the lease. */
  function Settled(success: bool, retryCount: nat, now: real): Delivery
  {
    if success then Delivery(Success, retryCount, now, None)
    else if retryCount >= MAX_RETRIES then Delivery(DeadLetter, retryCount, now, None)
    else Delivery(Failed, retryCount + 1, now + Delay(retryCount), None)
  }

  function Reported(rows: Table, id: nat, success: bool, retryCount: nat, now: real): Table
  {
    if id in rows then rows[id := Settled(success, retryCount, now)] else rows
  }

  class DeliveryTable {
    var rows: Table

    method LeaseDeliveries(chosen: set<nat>, ghost locked: set<nat>, ghost limit: nat, duration: real, now: real)
      returns (tickets: map<nat, nat>)
      requires Selectable(rows, chosen, locked, limit, now)
      modifies this
      ensures rows == Leased(old(rows), chosen, now + duration)
      ensures tickets.Keys == chosen && forall id :: id in chosen ==>
                id in old(rows) && tickets[id] == old(rows)[id].retryCount
    {
      var leaseExpires := now + duration;
      rows := map id | id in rows :: if id in chosen then rows[id].(leaseExpiresAt := Some(leaseExpires)) else rows[id];
      tickets := map id | id in chosen :: rows[id].retryCount;
    }

    method UpdateDeliveryStatus(id: nat, success: bool, retryCount: nat, now: real)
      modifies this
      ensures rows == Reported(old(rows), id, success, retryCount, now)
    {
      var status, count, nextRetryAt := Success, retryCount, now;
      if !success {
        if retryCount >= MAX_RETRIES {
          status := DeadLetter;
        } else {
          status := Failed;
          nextRetryAt := now + Delay(retryCount);
          count := count + 1;
        }
      }
      if id in rows {
        rows := rows[id := Delivery(status, count, nextRetryAt, None)];
      }
    }
  }

  // ----- one delivery

  /** A lease that has been handed out and not reported: what the worker was told, and when it expires. */
  datatype Ticket = Ticket(retryCount: nat, expires: real)

  /** A delivery's row, the leases that are out for it by number, possibly several at once, the attempts made so
      far and the time of the last failure. */
  datatype Life = Life(row: Delivery, holds: map<nat, Ticket>, attempts: nat, failedAt: Option<real>)

  function NewLife(at: real): Life
  {
    Life(Delivery(Pending, 0, at, None), map[], 0, None)
  }

  function LeaseLife(l: Life, serial: nat, expires: real): Life
  {
    Life(l.row.(leaseExpiresAt := Some(expires)), l.holds[serial := Ticket(l.row.retryCount, expires)],
         l.attempts + 1, l.failedAt)
  }

  function ReportLife(l: Life, serial: nat, success: bool, at: real): Life
    requires serial in l.holds
  {
    Life(Settled(success, l.holds[serial].retryCount, at), l.holds - {serial}, l.attempts,
         if success then l.failedAt else Some(at))
  }

  predicate Final(d: Delivery)
  {
    d.status == Success || d.status == DeadLetter
  }

  predicate RowOk(d: Delivery, failedAt: Option<real>)
  {
    && d.retryCount <= MAX_RETRIES
    && (d.status == Pending ==> d.retryCount == 0)
    && (d.status == Failed ==>
          d.retryCount >= 1 && failedAt.Some? && d.nextRetryAt == failedAt.value + BACKOFF[d.retryCount - 1])
    && (d.status == DeadLetter ==> d.retryCount == MAX_RETRIES)
  }

  /** What holds of a delivery in every run. */
  ghost predicate LifeOk(l: Life, serial: nat)
  {
    RowOk(l.row, l.failedAt) && forall n :: n in l.holds ==> n < serial && l.holds[n].retryCount <= MAX_RETRIES
  }

  lemma LeaseKeepsLife(l: Life, serial: nat, expires: real)
    requires LifeOk(l, serial)
    ensures LifeOk(LeaseLife(l, serial, expires), serial + 1)
  {
  }

  lemma ReportKeepsLife(l: Life, serial: nat, n: nat, success: bool, at: real)
    requires LifeOk(l, serial) && n in l.holds
    ensures LifeOk(ReportLife(l, n, success, at), serial)
  {
  }

  /** A delivery nobody holds: its attempts are the failures so far, and one more once it is settled. */
  predicate FreeOk(d: Delivery, attempts: nat)
  {
    && d.leaseExpiresAt.None? && attempts <= d.retryCount + 1
    && (!Final(d) ==> attempts == d.retryCount)
    && (d.status == DeadLetter ==> attempts == MAX_RETRIES + 1)
  }

  /** A delivery somebody holds: its row shows this very lease. */
  predicate HeldOk(d: Delivery, t: Ticket, attempts: nat)
  {
    !Final(d) && d.leaseExpiresAt == Some(t.expires) && t.retryCount == d.retryCount && attempts == d.retryCount + 1
  }

  /** What holds of a delivery as long as reports are timely: at most one worker has it. */
  ghost predicate TimelyOk(l: Life)
  {
    && (forall n, m :: n in l.holds && m in l.holds ==> n == m)
    && (forall n :: n in l.holds ==> HeldOk(l.row, l.holds[n], l.attempts))
    && (l.holds == map[] ==> FreeOk(l.row, l.attempts))
  }

  lemma LeaseKeepsTimely(l: Life, serial: nat, expires: real)
    requires TimelyOk(l) && l.holds == map[] && !Final(l.row)
    ensures TimelyOk(LeaseLife(l, serial, expires))
  {
    assert serial in LeaseLife(l, serial, expires).holds;
  }

  lemma ReportKeepsTimely(l: Life, serial: nat, n: nat, success: bool, at: real)
    requires LifeOk(l, serial) && TimelyOk(l) && n in l.holds
    ensures TimelyOk(ReportLife(l, n, success, at)) && ReportLife(l, n, success, at).holds == map[]
  {
    assert HeldOk(l.row, l.holds[n], l.attempts);
    assert forall m :: m in l.holds ==> m == n;
    assert l.holds - {n} == map[];
  }

  lemma EligibleIsFree(l: Life, now: real)
    requires TimelyOk(l) && Eligible(l.row, now) && forall n :: n in l.holds ==> now < l.holds[n].expires
    ensures l.holds == map[]
  {
  }

  /** As long as reports are timely, a delivery that is out can be leased again exactly when its lease has run out. */
  lemma LeasedAgainIff(l: Life, n: nat, now: real)
    requires TimelyOk(l) && n in l.holds
    ensures Eligible(l.row, now) <==> l.holds[n].expires <= now && l.row.nextRetryAt <= now
  {
    assert HeldOk(l.row, l.holds[n], l.attempts);
  }

  /** A retry comes no earlier than the last failure plus its delay. */
  lemma EligibleSpacing(d: Delivery, failedAt: Option<real>, now: real)
    requires RowOk(d, failedAt) && Eligible(d, now)
    ensures !Final(d)
    ensures d.status == Failed ==>
              1 <= d.retryCount <= |BACKOFF| && failedAt.Some? && now >= failedAt.value + BACKOFF[d.retryCount - 1]
  {
  }

  // ----- runs of many workers

  datatype State = State(lives: map<nat, Life>, serial: nat)

  const START: State := State(map[], 0)

  function Rows(s: State): Table
  {
    map id | id in s.lives :: s.lives[id].row
  }

  datatype Action =
    | Enqueue(id: nat, at: real)
    | Lease(chosen: set<nat>, locked: set<nat>, limit: nat, duration: real, at: real)
    | Report(id: nat, serial: nat, success: bool, at: real)

  predicate Holds(s: State, id: nat, serial: nat)
  {
    id in s.lives && serial in s.lives[id].holds
  }

  /** The action respects the query and the table's key. Reports come at any time or never. */
  ghost predicate Allowed(s: State, a: Action)
  {
    && (a.Enqueue? ==> a.id !in s.lives)
    && (a.Lease? ==> Selectable(Rows(s), a.chosen, a.locked, a.limit, a.at))
    && (a.Report? ==> Holds(s, a.id, a.serial))
  }

  /** What an action does to one delivery. */
  function LifeAfter(l: Life, serial: nat, a: Action, id: nat): Life
  {
    match a
    case Enqueue(_, _) => l
    case Lease(chosen, _, _, duration, at) => if id in chosen then LeaseLife(l, serial, at + duration) else l
    case Report(_, n, success, at) => if a.id == id && n in l.holds then ReportLife(l, n, success, at) else l
  }

  function Step(s: State, a: Action): State
  {
    match a
    case Enqueue(id, at) => s.(lives := s.lives[id := NewLife(at)])
    case Lease(_, _, _, _, _) => State(map id | id in s.lives :: LifeAfter(s.lives[id], s.serial, a, id), s.serial + 1)
    case Report(_, _, _, _) => s.(lives := map id | id in s.lives :: LifeAfter(s.lives[id], s.serial, a, id))
  }

  lemma StepLife(s: State, a: Action, id: nat)
    requires id in s.lives && Allowed(s, a)
    ensures id in Step(s, a).lives && Step(s, a).lives[id] == LifeAfter(s.lives[id], s.serial, a, id)
  {
  }

  /** The steps do to the rows what the two updates of the table do. */
  lemma StepUpdatesRows(s: State, a: Action)
    requires Allowed(s, a)
    ensures a.Lease? ==> Rows(Step(s, a)) == Leased(Rows(s), a.chosen, a.at + a.duration)
    ensures a.Report? ==>
              Rows(Step(s, a)) == Reported(Rows(s), a.id, a.success, s.lives[a.id].holds[a.serial].retryCount, a.at)
  {
  }

  ghost predicate AllowedRun(s: State, run: seq<Action>)
    decreases |run|
  {
    run == [] || (Allowed(s, run[0]) && AllowedRun(Step(s, run[0]), run[1..]))
  }

  function Run(s: State, run: seq<Action>): State
    decreases |run|
  {
    if run == [] then s else Run(Step(s, run[0]), run[1..])
  }

  ghost predicate Inv(s: State)
  {
    forall id :: id in s.lives ==> LifeOk(s.lives[id], s.serial)
  }

  lemma StepKeepsInv(s: State, a: Action)
    requires Inv(s) && Allowed(s, a)
    ensures Inv(Step(s, a)) && s.lives.Keys <= Step(s, a).lives.Keys
  {
    var s' := Step(s, a);
    forall id | id in s'.lives ensures LifeOk(s'.lives[id], s'.serial) {
      if id in s.lives {
        LifeStaysOk(s, a, id);
      }
    }
  }

  lemma LifeStaysOk(s: State, a: Action, id: nat)
    requires id in s.lives && LifeOk(s.lives[id], s.serial) && Allowed(s, a)
    ensures id in Step(s, a).lives && LifeOk(Step(s, a).lives[id], Step(s, a).serial)
  {
    StepLife(s, a, id);
    match a
    case Lease(_, _, _, _, _) => LeaseKeepsLife(s.lives[id], s.serial, a.at + a.duration);
    case Report(_, _, _, _) =>
      if id == a.id { ReportKeepsLife(s.lives[id], s.serial, a.serial, a.success, a.at); }
    case Enqueue(_, _) =>
  }

  lemma {:induction false} RunKeepsInv(s: State, run: seq<Action>)
    requires Inv(s) && AllowedRun(s, run)
    ensures Inv(Run(s, run)) && s.lives.Keys <= Run(s, run).lives.Keys
    decreases |run|
  {
    if run != [] {
      StepKeepsInv(s, run[0]);
      RunKeepsInv(Step(s, run[0]), run[1..]);
    }
  }

  /** In every run, however late the reports: retry counts stay within five, in the table and in the hands of
      workers, and every failure that is to be retried finds its delay in the delay table. */
  lemma EveryRun(run: seq<Action>, id: nat)
    requires AllowedRun(START, run) && id in Run(START, run).lives
    ensures var l := Run(START, run).lives[id];
            && l.row.retryCount <= 5
            && (forall n :: n in l.holds ==> l.holds[n].retryCount <= 5)
            && (forall n :: n in l.holds && l.holds[n].retryCount < 5 ==> l.holds[n].retryCount < |BACKOFF|)
  {
    RunKeepsInv(START, run);
    assert LifeOk(Run(START, run).lives[id], Run(START, run).serial);
  }

  lemma Picked(s: State, a: Action, id: nat)
    requires Allowed(s, a) && a.Lease? && id in a.chosen
    ensures id in s.lives && Eligible(s.lives[id].row, a.at)
  {
    assert id in EligibleIds(Rows(s), a.at);
  }

  /** In every run a lease picks only deliveries that are not settled, and a retry never comes before the last
      failure plus its delay. */
  lemma AttemptSpacing(run: seq<Action>, a: Action, id: nat)
    requires AllowedRun(START, run) && Allowed(Run(START, run), a) && a.Lease? && id in a.chosen
    ensures id in Run(START, run).lives
    ensures var l := Run(START, run).lives[id];
            && !Final(l.row)
            && (l.row.status == Failed ==>
                  1 <= l.row.retryCount <= |BACKOFF| && l.failedAt.Some? &&
                  a.at >= l.failedAt.value + BACKOFF[l.row.retryCount - 1])
  {
    RunKeepsInv(START, run);
    var s := Run(START, run);
    Picked(s, a, id);
    assert LifeOk(s.lives[id], s.serial);
    EligibleSpacing(s.lives[id].row, s.lives[id].failedAt, a.at);
  }

  // ----- settled deliveries

  ghost predicate IsSettled(s: State, id: nat)
  {
    id in s.lives && Final(s.lives[id].row)
  }

  /** Some worker still holds the delivery and was told a count below the maximum. */
  ghost predicate Reopenable(s: State, id: nat)
  {
    exists n :: Holds(s, id, n) && s.lives[id].holds[n].retryCount < 5
  }

  /** In any state exactly one kind of action reopens a settled delivery: a report of failure by a worker that
      was told a count below the maximum. */
  lemma ReopensIff(s: State, a: Action, id: nat)
    requires Allowed(s, a) && IsSettled(s, id)
    ensures !IsSettled(Step(s, a), id) <==>
            a.Report? && a.id == id && !a.success && s.lives[id].holds[a.serial].retryCount < 5
  {
    if a.Lease? && id in a.chosen { Picked(s, a, id); }
  }

  lemma StaysClosed(s: State, a: Action, id: nat)
    requires Allowed(s, a) && IsSettled(s, id) && !Reopenable(s, id)
    ensures IsSettled(Step(s, a), id) && !Reopenable(Step(s, a), id)
  {
    ReopensIff(s, a, id);
    if a.Lease? && id in a.chosen { Picked(s, a, id); }
    var s' := Step(s, a);
    forall n | Holds(s', id, n) ensures s'.lives[id].holds[n].retryCount >= 5 {
      assert Holds(s, id, n) && s'.lives[id].holds[n] == s.lives[id].holds[n];
    }
  }

  ghost predicate SettledAfter(s: State, run: seq<Action>, id: nat)
  {
    AllowedRun(s, run) ==> IsSettled(Run(s, run), id)
  }

  lemma {:induction false} ClosedForGood(s: State, run: seq<Action>, id: nat)
    requires IsSettled(s, id) && !Reopenable(s, id)
    ensures SettledAfter(s, run, id)
    decreases |run|
  {
    if run != [] && AllowedRun(s, run) {
      StaysClosed(s, run[0], id);
      ClosedForGood(Step(s, run[0]), run[1..], id);
    }
  }

  lemma RunOne(s: State, a: Action)
    requires Allowed(s, a)
    ensures AllowedRun(s, [a]) && Run(s, [a]) == Step(s, a)
  {
    assert [a][1..] == [];
  }

  /** A settled delivery is settled for good, in every continuation, exactly when no worker still holds it with
      a count below the maximum. */
  lemma SettledForGoodIff(s: State, id: nat)
    requires IsSettled(s, id)
    ensures (forall run :: SettledAfter(s, run, id)) <==> !Reopenable(s, id)
  {
    if Reopenable(s, id) {
      var n :| Holds(s, id, n) && s.lives[id].holds[n].retryCount < 5;
      var a := Report(id, n, false, 0.0);
      ReopensIff(s, a, id);
      RunOne(s, a);
      assert !SettledAfter(s, [a], id);
    } else {
      forall run ensures SettledAfter(s, run, id) {
        ClosedForGood(s, run, id);
      }
    }
  }

  // ----- leases of a delivery that somebody holds

  /** The action leases the delivery while an earlier lease of it is unreported. */
  predicate LeasesHeld(s: State, a: Action, id: nat)
  {
    a.Lease? && id in a.chosen && id in s.lives && s.lives[id].holds != map[]
  }

  /** How many leases along a run took a delivery that somebody held. */
  function HeldLeases(s: State, run: seq<Action>, id: nat): nat
    decreases |run|
  {
    if run == [] then 0
    else (if LeasesHeld(s, run[0], id) then 1 else 0) + HeldLeases(Step(s, run[0]), run[1..], id)
  }

  /** Where the leases that found the delivery free, `free` in number, have left it: each of them has been paid for
      by a failure that was counted, or is still out. */
  ghost predicate PaidFor(l: Life, free: int)
  {
    && free <= MAX_RETRIES + 1
    && (forall n :: n in l.holds ==> free <= l.holds[n].retryCount + 1)
    && (!Final(l.row) ==> free <= l.row.retryCount + (if l.holds == map[] then 0 else 1))
  }

  lemma FreeLeasePaid(l: Life, serial: nat, expires: real, free: int)
    requires LifeOk(l, serial) && PaidFor(l, free) && !Final(l.row)
    ensures PaidFor(LeaseLife(l, serial, expires), if l.holds == map[] then free + 1 else free)
  {
    assert serial in LeaseLife(l, serial, expires).holds;
  }

  lemma ReportPaid(l: Life, serial: nat, n: nat, success: bool, at: real, free: int)
    requires LifeOk(l, serial) && PaidFor(l, free) && n in l.holds
    ensures PaidFor(ReportLife(l, n, success, at), free)
  {
  }

  /** The leases of a delivery so far that found it free, given how many found it held. */
  ghost predicate Accounted(s: State, id: nat, held: int)
  {
    if id in s.lives then PaidFor(s.lives[id], s.lives[id].attempts - held) else held == 0
  }

  lemma StepKeepsAccount(s: State, a: Action, id: nat, held: int)
    requires Inv(s) && Allowed(s, a) && Accounted(s, id, held)
    ensures Accounted(Step(s, a), id, held + if LeasesHeld(s, a, id) then 1 else 0)
  {
    if id in s.lives {
      StepLife(s, a, id);
      var l := s.lives[id];
      assert LifeOk(l, s.serial);
      if a.Lease? && id in a.chosen {
        Picked(s, a, id);
        FreeLeasePaid(l, s.serial, a.at + a.duration, l.attempts - held);
      } else if a.Report? && a.id == id {
        ReportPaid(l, s.serial, a.serial, a.success, a.at, l.attempts - held);
      }
    }
  }

  lemma {:induction false} RunKeepsAccount(s: State, run: seq<Action>, id: nat, held: int)
    requires Inv(s) && AllowedRun(s, run) && Accounted(s, id, held)
    ensures Accounted(Run(s, run), id, held + HeldLeases(s, run, id))
    decreases |run|
  {
    if run != [] {
      StepKeepsInv(s, run[0]);
      StepKeepsAccount(s, run[0], id, held);
      RunKeepsAccount(Step(s, run[0]), run[1..], id, held + if LeasesHeld(s, run[0], id) then 1 else 0);
    }
  }

  /** In every run a delivery is attempted at most six times, and once more for every lease that took it while
      somebody held it. */
  lemma AttemptsBounded(run: seq<Action>, id: nat)
    requires AllowedRun(START, run) && id in Run(START, run).lives
    ensures Run(START, run).lives[id].attempts <= 6 + HeldLeases(START, run, id)
  {
    RunKeepsAccount(START, run, id, 0);
  }

  ghost predicate OneHolder(s: State, id: nat)
  {
    forall n, m :: Holds(s, id, n) && Holds(s, id, m) ==> n == m
  }

  ghost predicate OneHolderThroughout(s: State, run: seq<Action>, id: nat)
    decreases |run|
  {
    OneHolder(s, id) && (run == [] || OneHolderThroughout(Step(s, run[0]), run[1..], id))
  }

  /** A delivery with one holder at most, none of them once it is settled. */
  ghost predicate Unshared(s: State, id: nat)
  {
    OneHolder(s, id) && (IsSettled(s, id) ==> s.lives[id].holds == map[])
  }

  lemma StepUnshared(s: State, a: Action, id: nat)
    requires Inv(s) && Allowed(s, a) && Unshared(s, id)
    ensures if LeasesHeld(s, a, id) then !OneHolder(Step(s, a), id) else Unshared(Step(s, a), id)
  {
    var s' := Step(s, a);
    if id in s.lives {
      StepLife(s, a, id);
      var l := s.lives[id];
      assert LifeOk(l, s.serial);
      if LeasesHeld(s, a, id) {
        var n :| n in l.holds;
        assert Holds(s', id, n) && Holds(s', id, s.serial) && n < s.serial;
      } else if a.Lease? && id in a.chosen {
        Picked(s, a, id);
      } else if a.Report? && a.id == id {
        forall n | n in l.holds ensures n == a.serial {
          assert Holds(s, id, n) && Holds(s, id, a.serial);
        }
        assert s'.lives[id].holds == map[];
      } else {
        assert forall n :: Holds(s', id, n) <==> Holds(s, id, n);
      }
    }
  }

  /** Two workers never hold the delivery at once exactly when no lease took it while somebody held it. */
  lemma {:induction false} NeverSharedIff(s: State, run: seq<Action>, id: nat)
    requires Inv(s) && AllowedRun(s, run) && Unshared(s, id)
    ensures OneHolderThroughout(s, run, id) <==> HeldLeases(s, run, id) == 0
    ensures HeldLeases(s, run, id) == 0 ==> Unshared(Run(s, run), id)
    decreases |run|
  {
    if run != [] {
      var s' := Step(s, run[0]);
      StepKeepsInv(s, run[0]);
      StepUnshared(s, run[0], id);
      if LeasesHeld(s, run[0], id) {
        assert !OneHolderThroughout(s', run[1..], id);
      } else {
        NeverSharedIff(s', run[1..], id);
      }
    }
  }

  /** In a run that never leases a delivery while somebody holds it, reports may be as late as they like: the
      delivery is attempted at most six times, never shared, and once settled it stays settled in every
      continuation. */
  lemma UnsharedRuns(run: seq<Action>, id: nat)
    requires AllowedRun(START, run) && HeldLeases(START, run, id) == 0 && id in Run(START, run).lives
    ensures var s := Run(START, run);
            && s.lives[id].attempts <= 6 && OneHolderThroughout(START, run, id)
            && (IsSettled(s, id) ==> forall more :: SettledAfter(s, more, id))
  {
    AttemptsBounded(run, id);
    NeverSharedIff(START, run, id);
    if IsSettled(Run(START, run), id) { SettledForGoodIff(Run(START, run), id); }
  }

  // ----- runs with timely reports

  /** No outstanding lease has run out. */
  ghost predicate Timely(s: State, a: Action)
  {
    forall id, n :: Holds(s, id, n) ==> a.at < s.lives[id].holds[n].expires
  }

  ghost predicate TimelyRun(s: State, run: seq<Action>)
    decreases |run|
  {
    run == [] || (Timely(s, run[0]) && TimelyRun(Step(s, run[0]), run[1..]))
  }

  ghost predicate TimelyInv(s: State)
  {
    Inv(s) && forall id :: id in s.lives ==> TimelyOk(s.lives[id])
  }

  /** With timely reports a lease picks only deliveries nobody holds. */
  lemma LeasePicksFree(s: State, a: Action, id: nat)
    requires TimelyInv(s) && Allowed(s, a) && Timely(s, a) && a.Lease? && id in a.chosen
    ensures id in s.lives && s.lives[id].holds == map[] && !Final(s.lives[id].row)
  {
    Picked(s, a, id);
    var l := s.lives[id];
    assert TimelyOk(l);
    forall n | n in l.holds ensures a.at < l.holds[n].expires {
      assert Holds(s, id, n);
    }
    EligibleIsFree(l, a.at);
  }

  lemma StepKeepsTimely(s: State, a: Action)
    requires TimelyInv(s) && Allowed(s, a) && Timely(s, a)
    ensures TimelyInv(Step(s, a))
  {
    StepKeepsInv(s, a);
    var s' := Step(s, a);
    forall id | id in s'.lives ensures TimelyOk(s'.lives[id]) {
      if id in s.lives {
        LifeStaysTimely(s, a, id);
      }
    }
  }

  lemma LifeStaysTimely(s: State, a: Action, id: nat)
    requires TimelyInv(s) && Allowed(s, a) && Timely(s, a) && id in s.lives
    ensures id in Step(s, a).lives && TimelyOk(Step(s, a).lives[id])
  {
    StepLife(s, a, id);
    if a.Lease? && id in a.chosen { LeasePicksFree(s, a, id); }
    LifeAfterTimely(s.lives[id], s.serial, a, id);
  }

  lemma LifeAfterTimely(l: Life, serial: nat, a: Action, id: nat)
    requires LifeOk(l, serial) && TimelyOk(l)
    requires a.Lease? && id in a.chosen ==> l.holds == map[] && !Final(l.row)
    ensures TimelyOk(LifeAfter(l, serial, a, id))
  {
    match a
    case Lease(chosen, _, _, _, _) =>
      if id in chosen { LeaseKeepsTimely(l, serial, a.at + a.duration); }
    case Report(_, n, _, _) =>
      if a.id == id && n in l.holds { ReportKeepsTimely(l, serial, n, a.success, a.at); }
    case Enqueue(_, _) =>
  }

  lemma {:induction false} TimelyRunKeepsInv(s: State, run: seq<Action>)
    requires TimelyInv(s) && AllowedRun(s, run) && TimelyRun(s, run)
    ensures TimelyInv(Run(s, run))
    decreases |run|
  {
    if run != [] {
      StepKeepsTimely(s, run[0]);
      TimelyRunKeepsInv(Step(s, run[0]), run[1..]);
    }
  }

  lemma {:induction false} TimelyNeverHeld(s: State, run: seq<Action>, id: nat)
    requires TimelyInv(s) && AllowedRun(s, run) && TimelyRun(s, run)
    ensures HeldLeases(s, run, id) == 0
    decreases |run|
  {
    if run != [] {
      if LeasesHeld(s, run[0], id) { LeasePicksFree(s, run[0], id); }
      StepKeepsTimely(s, run[0]);
      TimelyNeverHeld(Step(s, run[0]), run[1..], id);
    }
  }

  /** Timely reports are enough for that: no delivery is attempted more than six times or ever held by two workers,
      and what is settled stays settled in every continuation, timely or not. */
  lemma TimelyRuns(run: seq<Action>, id: nat)
    requires AllowedRun(START, run) && TimelyRun(START, run) && id in Run(START, run).lives
    ensures var s := Run(START, run);
            && s.lives[id].attempts <= 6 && OneHolderThroughout(START, run, id)
            && (IsSettled(s, id) ==> forall more :: SettledAfter(s, more, id))
  {
    TimelyNeverHeld(START, run, id);
    UnsharedRuns(run, id);
  }

  // ----- runs without

  /** Two workers hold one delivery: one reports success, and the other's failure reopens it. */
  lemma LateReportReopens(s: State, id: nat, n: nat, m: nat, t: real, t': real)
    requires Holds(s, id, n) && Holds(s, id, m) && n != m && s.lives[id].holds[m].retryCount < MAX_RETRIES
    ensures var done, late := Report(id, n, true, t), Report(id, m, false, t');
            && Allowed(s, done) && IsSettled(Step(s, done), id)
            && Allowed(Step(s, done), late) && !IsSettled(Step(Step(s, done), late), id)
  {
    ReopensIff(Step(s, Report(id, n, true, t)), Report(id, m, false, t'), id);
  }

  function Times(n: nat): real
  {
    if n == 0 then 0.0 else Times(n - 1) + 40.0
  }

  function LeaseAt(at: real): Action
  {
    Lease({0}, {}, 1, 30.0, at)
  }

  /** One delivery leased n times, each time after the lease before has run out. */
  function Again(n: nat): seq<Action>
  {
    if n == 0 then [Enqueue(0, 0.0)] else Again(n - 1) + [LeaseAt(Times(n - 1))]
  }

  lemma {:induction false} RunSnoc(s: State, run: seq<Action>, a: Action)
    ensures Run(s, run + [a]) == Step(Run(s, run), a)
    ensures AllowedRun(s, run + [a]) <==> AllowedRun(s, run) && Allowed(Run(s, run), a)
    decreases |run|
  {
    if run == [] {
      assert [] + [a] == [a] && [a][1..] == [];
    } else {
      assert (run + [a])[1..] == run[1..] + [a];
      RunSnoc(Step(s, run[0]), run[1..], a);
    }
  }

  /** A single delivery that is still pending, has been leased n times and whose last lease has run out. */
  ghost predicate LeasedTimes(s: State, n: nat, at: real)
  {
    && s.lives.Keys == {0} && s.serial == n
    && s.lives[0].row.status == Pending && s.lives[0].row.retryCount == 0 && s.lives[0].row.nextRetryAt <= at
    && (s.lives[0].row.leaseExpiresAt.Some? ==> s.lives[0].row.leaseExpiresAt.value <= at)
    && s.lives[0].attempts == n
    && (forall k :: 0 <= k < n ==> k in s.lives[0].holds && s.lives[0].holds[k].retryCount == 0)
  }

  lemma LeaseOnceMore(s: State, n: nat, at: real)
    requires LeasedTimes(s, n, at)
    ensures Allowed(s, LeaseAt(at)) && LeasedTimes(Step(s, LeaseAt(at)), n + 1, at + 40.0)
  {
    assert EligibleIds(Rows(s), at) - {} == {0};
  }

  /** A lease that runs out is handed out again without being counted: for every n some run attempts a delivery
      n times and leaves n workers holding it. */
  lemma {:induction false} AttemptsUnbounded(n: nat)
    ensures AllowedRun(START, Again(n)) && LeasedTimes(Run(START, Again(n)), n, Times(n))
  {
    if n == 0 {
      RunOne(START, Enqueue(0, 0.0));
    } else {
      AttemptsUnbounded(n - 1);
      LeaseOnceMore(Run(START, Again(n - 1)), n - 1, Times(n - 1));
      RunSnoc(START, Again(n - 1), LeaseAt(Times(n - 1)));
    }
  }

  /** Some run settles a delivery and then reopens it. */
  lemma SomeRunReopens() returns (run: seq<Action>, late: Action)
    ensures AllowedRun(START, run) && IsSettled(Run(START, run), 0)
    ensures Allowed(Run(START, run), late) && !IsSettled(Step(Run(START, run), late), 0)
  {
    var two := Again(2);
    AttemptsUnbounded(2);
    var done := Report(0, 1, true, 41.0);
    LateReportReopens(Run(START, two), 0, 1, 0, 41.0, 42.0);
    RunSnoc(START, two, done);
    run, late := two + [done], Report(0, 0, false, 42.0);
  }

  // ----- the bound on attempts is reached

  lemma {:induction false} HeldLeasesSnoc(s: State, run: seq<Action>, a: Action, id: nat)
    ensures HeldLeases(s, run + [a], id) == HeldLeases(s, run, id) + if LeasesHeld(Run(s, run), a, id) then 1 else 0
    decreases |run|
  {
    if run == [] {
      assert [] + [a] == [a] && [a][1..] == [];
    } else {
      assert (run + [a])[1..] == run[1..] + [a];
      HeldLeasesSnoc(Step(s, run[0]), run[1..], a, id);
    }
  }

  /** A single delivery that can be leased at the given time. */
  ghost predicate Ready(s: State, at: real)
  {
    s.lives.Keys == {0} && Eligible(s.lives[0].row, at)
  }

  lemma LeaseReady(s: State, at: real)
    requires Ready(s, at)
    ensures Allowed(s, LeaseAt(at)) && Ready(Step(s, LeaseAt(at)), at + 40.0)
    ensures Step(s, LeaseAt(at)).lives[0] == LeaseLife(s.lives[0], s.serial, at + 30.0)
  {
    assert EligibleIds(Rows(s), at) - {} == {0};
  }

  /** One attempt that fails at once. */
  lemma FailOnce(s: State, at: real, n: nat)
    requires Ready(s, at) && n < 5 && s.lives[0].holds == map[]
             && s.lives[0].attempts == n && s.lives[0].row.retryCount == n
    ensures var s1 := Step(s, LeaseAt(at));
            var fail := Report(0, s.serial, false, at);
            var s2 := Step(s1, fail);
            && Allowed(s, LeaseAt(at)) && Allowed(s1, fail) && !LeasesHeld(s, LeaseAt(at), 0)
            && Ready(s2, at + 86400.0) && s2.lives[0].holds == map[]
            && s2.lives[0].attempts == n + 1 && s2.lives[0].row.retryCount == n + 1
  {
    LeaseReady(s, at);
  }

  /** Some run attempts a delivery n times, for n up to five, and sees every attempt fail. */
  lemma {:induction false} Failures(n: nat) returns (run: seq<Action>, at: real)
    requires n <= 5
    ensures AllowedRun(START, run) && HeldLeases(START, run, 0) == 0
    ensures var s := Run(START, run);
            && Ready(s, at) && s.lives[0].holds == map[] && s.lives[0].attempts == n && s.lives[0].row.retryCount == n
  {
    if n == 0 {
      run, at := [Enqueue(0, 0.0)], 0.0;
      RunOne(START, Enqueue(0, 0.0));
    } else {
      run, at := Failures(n - 1);
      var s := Run(START, run);
      FailOnce(s, at, n - 1);
      var fail := Report(0, s.serial, false, at);
      Extended(run, LeaseAt(at));
      Extended(run + [LeaseAt(at)], fail);
      run, at := run + [LeaseAt(at)] + [fail], at + 86400.0;
    }
  }

  lemma Extended(run: seq<Action>, a: Action)
    ensures Run(START, run + [a]) == Step(Run(START, run), a)
    ensures AllowedRun(START, run + [a]) <==> AllowedRun(START, run) && Allowed(Run(START, run), a)
    ensures HeldLeases(START, run + [a], 0) ==
            HeldLeases(START, run, 0) + if LeasesHeld(Run(START, run), a, 0) then 1 else 0
  {
    RunSnoc(START, run, a);
    HeldLeasesSnoc(START, run, a, 0);
  }

  /** For every k some run with exactly k leases of a held delivery makes six attempts and k more. */
  lemma {:induction false} BoundReached(k: nat) returns (run: seq<Action>, at: real)
    ensures AllowedRun(START, run) && HeldLeases(START, run, 0) == k
    ensures var s := Run(START, run); Ready(s, at) && s.lives[0].holds != map[] && s.lives[0].attempts == 6 + k
  {
    if k == 0 {
      run, at := Failures(5);
    } else {
      run, at := BoundReached(k - 1);
    }
    var s := Run(START, run);
    LeaseReady(s, at);
    Extended(run, LeaseAt(at));
    assert s.serial in Step(s, LeaseAt(at)).lives[0].holds;
    run, at := run + [LeaseAt(at)], at + 40.0;
  }
}
