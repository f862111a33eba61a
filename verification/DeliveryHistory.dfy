/** Each delivery row read off the run alone: its last report and its last lease say everything about it. */
module DeliveryHistory {
  import opened Outcomes
  import opened Webhook

  predicate Reports(a: Action, id: nat)
  {
    a.Report? && a.id == id
  }

  predicate Leases(a: Action, id: nat)
  {
    a.Lease? && id in a.chosen
  }

  ghost predicate LastReport(run: seq<Action>, id: nat, j: int)
  {
    0 <= j < |run| && Reports(run[j], id) && forall m :: j < m < |run| ==> !Reports(run[m], id)
  }

  ghost predicate NoReport(run: seq<Action>, id: nat)
  {
    forall m :: 0 <= m < |run| ==> !Reports(run[m], id)
  }

  /** The last lease of the delivery, not followed by a report about it. */
  ghost predicate OpenLease(run: seq<Action>, id: nat, j: int)
  {
    0 <= j < |run| && Leases(run[j], id) && forall m :: j < m < |run| ==> !Leases(run[m], id) && !Reports(run[m], id)
  }

  /** The retry count that was handed out with the lease reported at place j. */
  ghost function Told(run: seq<Action>, j: nat): nat
    requires j < |run| && run[j].Report?
  {
    var s := Run(START, run[..j]);
    if Holds(s, run[j].id, run[j].serial) then s.lives[run[j].id].holds[run[j].serial].retryCount else 0
  }

  const DELAYS: seq<real> := [10.0, 60.0, 300.0, 3600.0, 86400.0]

  /** What a report leaves in the row. */
  predicate Leaves(row: Delivery, success: bool, told: nat, at: real)
  {
    if success then row.status == Success && row.retryCount == told && row.nextRetryAt == at
    else if told >= 5 then row.status == DeadLetter && row.retryCount == told && row.nextRetryAt == at
    else row.status == Failed && row.retryCount == told + 1 && row.nextRetryAt == at + DELAYS[told]
  }

  ghost predicate ReportSays(run: seq<Action>, id: nat, row: Delivery)
  {
    && (NoReport(run, id) ==> row.status == Pending && row.retryCount == 0 && Enqueue(id, row.nextRetryAt) in run)
    && (forall j :: LastReport(run, id, j) ==> Leaves(row, run[j].success, Told(run, j), run[j].at))
  }

  ghost predicate LeaseSays(run: seq<Action>, id: nat, row: Delivery)
  {
    && (forall j :: OpenLease(run, id, j) ==> row.leaseExpiresAt == Some(run[j].at + run[j].duration))
    && ((forall j :: !OpenLease(run, id, j)) ==> row.leaseExpiresAt == None)
  }

  ghost predicate Says(run: seq<Action>, id: nat, row: Delivery)
  {
    ReportSays(run, id, row) && LeaseSays(run, id, row)
  }

  // ----- one more action

  lemma SameLastReport(run: seq<Action>, a: Action, id: nat, j: int)
    requires !Reports(a, id)
    ensures LastReport(run + [a], id, j) <==> LastReport(run, id, j)
    ensures NoReport(run + [a], id) <==> NoReport(run, id)
  {
    var run' := run + [a];
    assert run'[|run|] == a && forall m :: 0 <= m < |run| ==> run'[m] == run[m];
  }

  lemma SameOpenLease(run: seq<Action>, a: Action, id: nat, j: int)
    requires !Reports(a, id) && !Leases(a, id)
    ensures OpenLease(run + [a], id, j) <==> OpenLease(run, id, j)
  {
    var run' := run + [a];
    assert run'[|run|] == a && forall m :: 0 <= m < |run| ==> run'[m] == run[m];
  }

  lemma ToldBefore(run: seq<Action>, a: Action, j: nat)
    requires j < |run| && run[j].Report?
    ensures (run + [a])[j] == run[j] && Told(run + [a], j) == Told(run, j)
  {
    assert (run + [a])[..j] == run[..j];
  }

  predicate SameButLease(a: Delivery, b: Delivery)
  {
    a.status == b.status && a.retryCount == b.retryCount && a.nextRetryAt == b.nextRetryAt
  }

  lemma StillReported(run: seq<Action>, a: Action, id: nat, row: Delivery, row': Delivery)
    requires ReportSays(run, id, row) && !Reports(a, id) && SameButLease(row, row')
    ensures ReportSays(run + [a], id, row')
  {
    SameLastReport(run, a, id, 0);
    forall j | LastReport(run + [a], id, j)
      ensures Leaves(row', (run + [a])[j].success, Told(run + [a], j), (run + [a])[j].at)
    {
      SameLastReport(run, a, id, j);
      LeavesSame(run, a, id, row, row', j);
    }
  }

  lemma LeavesSame(run: seq<Action>, a: Action, id: nat, row: Delivery, row': Delivery, j: int)
    requires LastReport(run, id, j) && SameButLease(row, row')
    requires Leaves(row, run[j].success, Told(run, j), run[j].at)
    ensures Leaves(row', (run + [a])[j].success, Told(run + [a], j), (run + [a])[j].at)
  {
    ToldBefore(run, a, j);
  }

  lemma Unmentioned(run: seq<Action>, a: Action, id: nat, row: Delivery)
    requires Says(run, id, row) && !Reports(a, id) && !Leases(a, id)
    ensures Says(run + [a], id, row)
  {
    StillReported(run, a, id, row, row);
    SameLease(run, a, id, row);
  }

  lemma SameLease(run: seq<Action>, a: Action, id: nat, row: Delivery)
    requires LeaseSays(run, id, row) && !Reports(a, id) && !Leases(a, id)
    ensures LeaseSays(run + [a], id, row)
  {
    forall j ensures OpenLease(run + [a], id, j) <==> OpenLease(run, id, j) {
      SameOpenLease(run, a, id, j);
    }
  }

  lemma LeasedOnce(run: seq<Action>, a: Action, id: nat, row: Delivery)
    requires Says(run, id, row) && Leases(a, id)
    ensures Says(run + [a], id, row.(leaseExpiresAt := Some(a.at + a.duration)))
  {
    var row' := row.(leaseExpiresAt := Some(a.at + a.duration));
    StillReported(run, a, id, row, row');
    NewLease(run, a, id, row');
  }

  lemma NewLease(run: seq<Action>, a: Action, id: nat, row: Delivery)
    requires Leases(a, id) && row.leaseExpiresAt == Some(a.at + a.duration)
    ensures LeaseSays(run + [a], id, row)
  {
    assert (run + [a])[|run|] == a;
    assert OpenLease(run + [a], id, |run|);
  }

  lemma ReportedOnce(run: seq<Action>, a: Action, id: nat)
    requires Reports(a, id) && Holds(Run(START, run), id, a.serial)
    ensures var told := Run(START, run).lives[id].holds[a.serial].retryCount;
            Says(run + [a], id, Settled(a.success, told, a.at))
  {
    var run' := run + [a];
    assert run'[|run|] == a && run'[..|run|] == run;
    assert Reports(run'[|run|], id);
    assert forall j :: LastReport(run', id, j) ==> j == |run|;
    assert forall j :: !OpenLease(run', id, j);
  }

  lemma Enqueued(run: seq<Action>, id: nat, at: real)
    requires AllowedRun(START, run) && id !in Run(START, run).lives
    ensures Says(run + [Enqueue(id, at)], id, NewLife(at).row)
  {
    var run' := run + [Enqueue(id, at)];
    NotYet(run, id);
    assert run'[|run|] == Enqueue(id, at) && forall m :: 0 <= m < |run| ==> run'[m] == run[m];
  }

  /** Before it is enqueued nothing is done with a delivery. */
  lemma {:induction false} NotYet(run: seq<Action>, id: nat)
    requires AllowedRun(START, run) && id !in Run(START, run).lives
    ensures forall m :: 0 <= m < |run| ==> !Reports(run[m], id) && !Leases(run[m], id)
    decreases |run|
  {
    if run != [] {
      var n := |run| - 1;
      var before, a := run[..n], run[n];
      assert run == before + [a];
      RunSnoc(START, before, a);
      NotYet(before, id);
      if Leases(a, id) { Picked(Run(START, before), a, id); }
    }
  }

  /** In every run the row of a delivery is what its last report left: pending and due when enqueued if there is none,
      success if that reported success, and after a failure dead at the fifth retry and otherwise due after the delay
      for the count that was handed out. It shows the last lease, unless that has been reported since. */
  lemma {:induction false} RowFromRun(run: seq<Action>, id: nat)
    requires AllowedRun(START, run) && id in Run(START, run).lives
    ensures Says(run, id, Run(START, run).lives[id].row)
    decreases |run|
  {
    var n := |run| - 1;
    var before, a := run[..n], run[n];
    assert run == before + [a];
    RunSnoc(START, before, a);
    if id in Run(START, before).lives {
      RowFromRun(before, id);
      RowStep(before, a, id, Run(START, before));
    } else {
      Enqueued(before, id, a.at);
    }
  }

  lemma RowStep(run: seq<Action>, a: Action, id: nat, s: State)
    requires s == Run(START, run) && Allowed(s, a) && id in s.lives && Says(run, id, s.lives[id].row)
    ensures id in Step(s, a).lives && Says(run + [a], id, Step(s, a).lives[id].row)
  {
    StepLife(s, a, id);
    if Reports(a, id) {
      ReportedOnce(run, a, id);
    } else if Leases(a, id) {
      LeasedOnce(run, a, id, s.lives[id].row);
    } else {
      Unmentioned(run, a, id, s.lives[id].row);
    }
  }

  /** So a delivery counts as a success exactly when its last report was one, whatever was reported before. */
  lemma SuccessIff(run: seq<Action>, id: nat)
    requires AllowedRun(START, run) && id in Run(START, run).lives
    ensures Run(START, run).lives[id].row.status == Success <==>
            exists j :: LastReport(run, id, j) && run[j].success
  {
    RowFromRun(run, id);
    if !NoReport(run, id) {
      var m :| 0 <= m < |run| && Reports(run[m], id);
      var j := FindLast(run, id, m);
    }
  }

  lemma FindLast(run: seq<Action>, id: nat, m: int) returns (j: int)
    requires 0 <= m < |run| && Reports(run[m], id)
    ensures LastReport(run, id, j)
    decreases |run| - m
  {
    if n :| m < n < |run| && Reports(run[n], id) {
      j := FindLast(run, id, n);
    } else {
      j := m;
    }
  }

  /** The leases that are out: lease number n of a delivery is out exactly when the n-th lease took it and has not been
      reported, and its holder was told the count the row had at that moment. */
  ghost predicate TakenAt(run: seq<Action>, id: nat, n: nat, j: int)
  {
    && 0 <= j < |run| && Leases(run[j], id) && Run(START, run[..j]).serial == n
    && forall m :: j < m < |run| ==> !(Reports(run[m], id) && run[m].serial == n)
  }

  lemma TakenSnoc(run: seq<Action>, a: Action, id: nat, n: nat, j: int)
    requires j < |run|
    ensures TakenAt(run + [a], id, n, j) <==> TakenAt(run, id, n, j) && !(Reports(a, id) && a.serial == n)
  {
    var run' := run + [a];
    assert run'[|run|] == a && forall m :: 0 <= m < |run| ==> run'[m] == run[m];
    if 0 <= j { assert run'[..j] == run[..j]; }
  }

  lemma TakenNow(run: seq<Action>, a: Action, id: nat, n: nat)
    ensures TakenAt(run + [a], id, n, |run|) <==> Leases(a, id) && Run(START, run).serial == n
  {
    assert (run + [a])[|run|] == a && (run + [a])[..|run|] == run;
  }

  ghost predicate TicketSays(run: seq<Action>, id: nat, n: nat)
  {
    var s := Run(START, run);
    && (Holds(s, id, n) <==> exists j :: TakenAt(run, id, n, j))
    && (forall j :: TakenAt(run, id, n, j) ==> TicketIs(run, id, n, j))
  }

  ghost predicate TicketIs(run: seq<Action>, id: nat, n: nat, j: int)
    requires 0 <= j < |run| && run[j].Lease?
  {
    var s, earlier := Run(START, run), Run(START, run[..j]);
    && Holds(s, id, n) && id in earlier.lives
    && s.lives[id].holds[n] == Ticket(earlier.lives[id].row.retryCount, run[j].at + run[j].duration)
  }

  lemma {:induction false} TicketFromRun(run: seq<Action>, id: nat, n: nat)
    requires AllowedRun(START, run)
    ensures TicketSays(run, id, n)
    decreases |run|
  {
    if run != [] {
      var before, a := run[..|run| - 1], run[|run| - 1];
      assert run == before + [a];
      RunSnoc(START, before, a);
      TicketFromRun(before, id, n);
      TicketStep(before, a, id, n);
    }
  }

  lemma TicketStep(run: seq<Action>, a: Action, id: nat, n: nat)
    requires AllowedRun(START, run + [a]) && AllowedRun(START, run) && TicketSays(run, id, n)
    ensures TicketSays(run + [a], id, n)
  {
    RunSnoc(START, run, a);
    RunKeepsInv(START, run);
    HeldAfter(Run(START, run), a, id, n);
    TakenNow(run, a, id, n);
    forall j | j < |run| ensures TakenAt(run + [a], id, n, j) <==>
                                 TakenAt(run, id, n, j) && !(Reports(a, id) && a.serial == n)
    {
      TakenSnoc(run, a, id, n, j);
    }
    forall j | TakenAt(run + [a], id, n, j) ensures TicketIs(run + [a], id, n, j) {
      if j < |run| {
        assert TicketIs(run, id, n, j);
        OldTicket(run, a, id, n, j);
      } else {
        NewTicket(run, a, id, n);
      }
    }
  }

  lemma OldTicket(run: seq<Action>, a: Action, id: nat, n: nat, j: int)
    requires Run(START, run + [a]) == Step(Run(START, run), a) && TakenAt(run, id, n, j) && TicketIs(run, id, n, j)
    requires Holds(Run(START, run), id, n) && Holds(Run(START, run + [a]), id, n)
    requires Run(START, run + [a]).lives[id].holds[n] == Run(START, run).lives[id].holds[n]
    ensures (run + [a])[j].Lease? && TicketIs(run + [a], id, n, j)
  {
    assert (run + [a])[..j] == run[..j] && (run + [a])[j] == run[j];
  }

  lemma NewTicket(run: seq<Action>, a: Action, id: nat, n: nat)
    requires a.Lease? && id in Run(START, run).lives && Holds(Run(START, run + [a]), id, n)
    requires Run(START, run + [a]).lives[id].holds[n] ==
             Ticket(Run(START, run).lives[id].row.retryCount, a.at + a.duration)
    ensures (run + [a])[|run|].Lease? && TicketIs(run + [a], id, n, |run|)
  {
    assert (run + [a])[..|run|] == run && (run + [a])[|run|] == a;
  }

  /** Which tickets are out after one action. */
  lemma HeldAfter(s: State, a: Action, id: nat, n: nat)
    requires Inv(s) && Allowed(s, a)
    ensures Holds(Step(s, a), id, n) <==>
            || (Leases(a, id) && n == s.serial)
            || (Holds(s, id, n) && !(Reports(a, id) && a.serial == n))
    ensures Holds(s, id, n) && Holds(Step(s, a), id, n) ==> Step(s, a).lives[id].holds[n] == s.lives[id].holds[n]
    ensures Leases(a, id) ==>
              && id in s.lives && Holds(Step(s, a), id, s.serial)
              && Step(s, a).lives[id].holds[s.serial] == Ticket(s.lives[id].row.retryCount, a.at + a.duration)
  {
    if Leases(a, id) { Picked(s, a, id); }
    if id in s.lives {
      StepLife(s, a, id);
      assert LifeOk(s.lives[id], s.serial);
    }
  }

  /** What a lease takes: only deliveries that wait for a first or another attempt, are due and not leased, and,
      short of its limit, all of those that no other worker has locked. */
  lemma LeaseTakes(s: State, a: Action, id: nat)
    requires Allowed(s, a) && a.Lease? && id in s.lives
    ensures var row := s.lives[id].row;
            var due := && (row.status == Pending || row.status == Failed) && row.nextRetryAt <= a.at
                       && (row.leaseExpiresAt == None || row.leaseExpiresAt.value <= a.at);
            && (id in a.chosen ==> due && id !in a.locked)
            && (due && id !in a.locked && |a.chosen| < a.limit ==> id in a.chosen)
            && |a.chosen| <= a.limit
  {
    assert id in EligibleIds(Rows(s), a.at) <==> Eligible(s.lives[id].row, a.at);
  }

  // ----- the lease query: order by retry time, limit

  predicate Distinct(order: seq<nat>)
  {
    forall i, j :: 0 <= i < j < |order| ==> order[i] != order[j]
  }

  function Members(order: seq<nat>): set<nat>
  {
    set id | id in order
  }

  /** The rows of a set, each once, earliest retry time first. */
  ghost predicate Sorts(order: seq<nat>, ids: set<nat>, rows: Table)
  {
    && Distinct(order) && Members(order) == ids && (forall id :: id in ids ==> id in rows)
    && forall i, j :: 0 <= i < j < |order| ==> rows[order[i]].nextRetryAt <= rows[order[j]].nextRetryAt
  }

  lemma {:induction false} CountMembers(order: seq<nat>)
    requires Distinct(order)
    ensures |Members(order)| == |order|
    decreases |order|
  {
    if order == [] {
      assert Members(order) == {};
    } else {
      var n := |order| - 1;
      CountMembers(order[..n]);
      assert order == order[..n] + [order[n]];
      assert Members(order) == Members(order[..n]) + {order[n]};
    }
  }

  lemma {:induction false} Latest(ids: set<nat>, rows: Table) returns (last: nat)
    requires ids != {} && forall id :: id in ids ==> id in rows
    ensures last in ids && forall id :: id in ids ==> rows[id].nextRetryAt <= rows[last].nextRetryAt
    decreases |ids|
  {
    var one :| one in ids;
    last := one;
    if ids != {one} {
      var others := ids - {one};
      assert ids == others + {one};
      var late := Latest(others, rows);
      if rows[late].nextRetryAt > rows[one].nextRetryAt { last := late; }
      assert forall id :: id in ids ==> id == one || id in others;
    }
  }

  lemma {:induction false} CanSort(ids: set<nat>, rows: Table) returns (order: seq<nat>)
    requires forall id :: id in ids ==> id in rows
    ensures Sorts(order, ids, rows)
    decreases |ids|
  {
    order := [];
    if ids != {} {
      var last := Latest(ids, rows);
      var before := CanSort(ids - {last}, rows);
      order := before + [last];
      forall i | 0 <= i < |before| ensures before[i] in ids - {last} {
        assert before[i] in Members(before);
      }
      forall id ensures id in Members(order) <==> id in ids {
        assert id in order <==> id in before || id == last;
        assert id in before <==> id in Members(before);
      }
    }
  }

  /** What a query picks is the head, as long as the limit allows, of the free rows in some order of retry time. */
  ghost predicate HeadOf(order: seq<nat>, chosen: set<nat>, limit: nat)
  {
    chosen == Members(order[..if |order| <= limit then |order| else limit])
  }

  /** The lease query picks what ordering the eligible unlocked rows by retry time and cutting off at the limit can. */
  lemma SelectableIff(rows: Table, chosen: set<nat>, locked: set<nat>, limit: nat, now: real)
    ensures Selectable(rows, chosen, locked, limit, now) <==>
            exists order :: Sorts(order, EligibleIds(rows, now) - locked, rows) && HeadOf(order, chosen, limit)
  {
    var free := EligibleIds(rows, now) - locked;
    if Selectable(rows, chosen, locked, limit, now) {
      var a := CanSort(chosen, rows);
      var b := CanSort(free - chosen, rows);
      JoinSorted(rows, a, b, chosen, free);
      CountMembers(a);
      var order := a + b;
      if |chosen| < limit {
        CountMembers(b);
        assert order[..|order|] == a;
      }
      assert order[..|a|] == a;
      assert HeadOf(order, chosen, limit);
    }
    if order :| Sorts(order, free, rows) && HeadOf(order, chosen, limit) {
      HeadSelects(rows, order, chosen, free, limit);
    }
  }

  lemma JoinSorted(rows: Table, a: seq<nat>, b: seq<nat>, chosen: set<nat>, free: set<nat>)
    requires Sorts(a, chosen, rows) && Sorts(b, free - chosen, rows) && chosen <= free
    requires forall c, f :: c in chosen && f in free - chosen ==> rows[c].nextRetryAt <= rows[f].nextRetryAt
    ensures Sorts(a + b, free, rows)
  {
    forall i | 0 <= i < |a| ensures a[i] in chosen {
      assert a[i] in Members(a);
    }
    forall i | 0 <= i < |b| ensures b[i] in free - chosen {
      assert b[i] in Members(b);
    }
    forall id ensures id in Members(a + b) <==> id in free {
      assert id in a <==> id in Members(a);
      assert id in b <==> id in Members(b);
    }
  }

  lemma HeadSelects(rows: Table, order: seq<nat>, chosen: set<nat>, free: set<nat>, limit: nat)
    requires Sorts(order, free, rows) && HeadOf(order, chosen, limit)
    ensures chosen <= free && |chosen| <= limit && (|chosen| < limit ==> chosen == free)
    ensures forall c, f :: c in chosen && f in free - chosen ==> rows[c].nextRetryAt <= rows[f].nextRetryAt
  {
    var n := if |order| <= limit then |order| else limit;
    CountMembers(order[..n]);
    assert order[..|order|] == order;
    forall c | c in chosen ensures c in free {
      assert c in order[..n] && c in Members(order);
    }
    forall c, f | c in chosen && f in free - chosen ensures rows[c].nextRetryAt <= rows[f].nextRetryAt {
      var i :| 0 <= i < n && order[i] == c;
      assert f in Members(order);
      var j :| 0 <= j < |order| && order[j] == f;
      assert forall m :: 0 <= m < n ==> order[m] in order[..n];
    }
  }
}
