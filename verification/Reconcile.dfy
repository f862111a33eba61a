/** Reconciling recorded transactions with Horizon: an ordered failover over sources, and status updates
    that settle a row once. */
module Reconcile {
  import opened Outcomes

  datatype TxStatus = Pending | Confirmed | Failed | Missing | Error

  /** What asking one source for the latest ledger gives. */
  datatype LatestAnswer = LatestRaises | Latest(ledger: Option<int>)

  /** What asking one source for the transaction gives; an empty body counts as none. */
  datatype Answer =
    | Raises
    | Http(code: int, body: Option<Body>)

  datatype Body = Body(successful: bool, ledger: Option<int>, latest: LatestAnswer)

  datatype Verdict = Verdict(status: TxStatus, ledger: Option<int>, latest: Option<int>, confirmations: Option<int>)

  predicate NotFound(a: Answer)
  {
    a.Http? && a.code == 404
  }

  /** The source gives a usable answer about the transaction. */
  predicate Decisive(a: Answer)
  {
    a.Http? && a.code == 200 && a.body.Some? && (a.body.value.successful ==> a.body.value.latest.Latest?)
  }

  /** Ledgers from the transaction's to the latest, when both are known and in order. */
  function Confirmations(b: Body): Option<int>
  {
    if b.ledger.Some? && b.latest.Latest? && b.latest.ledger.Some? && b.latest.ledger.value >= b.ledger.value
    then Some(b.latest.ledger.value - b.ledger.value + 1) else None
  }

  function Judge(b: Body, minConfirmations: int): Verdict
    requires b.successful ==> b.latest.Latest?
  {
    if !b.successful then Verdict(Failed, b.ledger, None, None)
    else
      var n := Confirmations(b);
      var status := if n.Some? && n.value >= minConfirmations then Confirmed else Pending;
      Verdict(status, b.ledger, b.latest.ledger, n)
  }

  const MISSING: Verdict := Verdict(Missing, None, None, None)
  const ERROR: Verdict := Verdict(Error, None, None, None)

  /** The loop over the sources in their order, remembering failures and not-found answers. */
  method VerifyTransaction(answers: seq<Answer>, minConfirmations: int) returns (r: Verdict)
    ensures minConfirmations < 1 ==> r == ERROR
    ensures minConfirmations >= 1 ==> r == Verify(answers, minConfirmations)
  {
    if minConfirmations < 1 {
      return ERROR;
    }
    var sawDependencyFailure, sawNotFound := false, false;
    for i := 0 to |answers|
      invariant forall j :: 0 <= j < i ==> !Decisive(answers[j])
      invariant sawDependencyFailure <==> exists j :: 0 <= j < i && !NotFound(answers[j])
      invariant sawNotFound <==> exists j :: 0 <= j < i && NotFound(answers[j])
    {
      var a := answers[i];
      if a.Raises? {
        sawDependencyFailure := true;
        continue;
      }
      if a.code == 404 {
        sawNotFound := true;
        continue;
      }
      if a.code != 200 || a.body.None? {
        sawDependencyFailure := true;
        continue;
      }
      var b := a.body.value;
      if !b.successful {
        FirstDecisive(answers, i, minConfirmations);
        return Verdict(Failed, b.ledger, None, None);
      }
      if b.latest.LatestRaises? {
        sawDependencyFailure := true;
        continue;
      }
      FirstDecisive(answers, i, minConfirmations);
      var latest := b.latest.ledger;
      var confirmations: Option<int> := None;
      if b.ledger.Some? && latest.Some? && latest.value >= b.ledger.value {
        confirmations := Some(latest.value - b.ledger.value + 1);
      }
      if confirmations.None? {
        return Verdict(Pending, b.ledger, latest, None);
      }
      if confirmations.value < minConfirmations {
        return Verdict(Pending, b.ledger, latest, confirmations);
      }
      return Verdict(Confirmed, b.ledger, latest, confirmations);
    }
    NoneDecisive(answers, minConfirmations);
    if sawNotFound && !sawDependencyFailure {
      return MISSING;
    }
    if sawDependencyFailure {
      return ERROR;
    }
    r := MISSING;
  }

  /** The first decisive answer decides; without one, a source that did not say 404 makes it an error. */
  function Verify(answers: seq<Answer>, minConfirmations: int): Verdict
  {
    if answers == [] then MISSING
    else if Decisive(answers[0]) then Judge(answers[0].body.value, minConfirmations)
    else
      var rest := Verify(answers[1..], minConfirmations);
      if rest == MISSING && !NotFound(answers[0]) then ERROR else rest
  }

  lemma {:induction false} FirstDecisive(answers: seq<Answer>, i: nat, minConfirmations: int)
    requires i < |answers| && Decisive(answers[i]) && forall j :: 0 <= j < i ==> !Decisive(answers[j])
    ensures Verify(answers, minConfirmations) == Judge(answers[i].body.value, minConfirmations)
    decreases i
  {
    if i > 0 { FirstDecisive(answers[1..], i - 1, minConfirmations); }
  }

  lemma {:induction false} NoneDecisive(answers: seq<Answer>, minConfirmations: int)
    requires forall j :: 0 <= j < |answers| ==> !Decisive(answers[j])
    ensures Verify(answers, minConfirmations) ==
            if forall j :: 0 <= j < |answers| ==> NotFound(answers[j]) then MISSING else ERROR
    decreases |answers|
  {
    if answers != [] {
      NoneDecisive(answers[1..], minConfirmations);
      if forall j :: 0 <= j < |answers[1..]| ==> NotFound(answers[1..][j]) {
        forall j | 1 <= j < |answers| ensures NotFound(answers[j]) {
          assert answers[j] == answers[1..][j - 1];
        }
      }
    }
  }

  /** The deciding answer is the first usable one. */
  ghost predicate DecidedBy(answers: seq<Answer>, i: int)
  {
    0 <= i < |answers| && Decisive(answers[i]) && forall j :: 0 <= j < i ==> !Decisive(answers[j])
  }

  lemma {:induction false} DecisionExists(answers: seq<Answer>)
    requires exists j :: 0 <= j < |answers| && Decisive(answers[j])
    ensures exists i :: DecidedBy(answers, i)
  {
    if Decisive(answers[0]) {
      assert DecidedBy(answers, 0);
    } else {
      var j :| 0 <= j < |answers| && Decisive(answers[j]);
      assert Decisive(answers[1..][j - 1]);
      DecisionExists(answers[1..]);
      var i :| DecidedBy(answers[1..], i);
      assert DecidedBy(answers, i + 1) by {
        forall k | 0 <= k < i + 1 ensures !Decisive(answers[k]) {
          if k > 0 { assert answers[k] == answers[1..][k - 1]; }
        }
      }
    }
  }

  /** The transaction's ledger and the latest are known, and counting both ends at least n ledgers lie between. */
  predicate DeepEnough(b: Body, n: int)
  {
    && b.successful && b.ledger.Some? && b.latest.Latest? && b.latest.ledger.Some?
    && b.ledger.value <= b.latest.ledger.value && b.latest.ledger.value - b.ledger.value + 1 >= n
  }

  /** What one more source at the front changes, by what it answers. */
  lemma AnswerByAnswer(a: Answer, rest: seq<Answer>, n: int)
    ensures var v, after := Verify([a] + rest, n), Verify(rest, n);
            if a == Raises || (a.code != 404 && (a.code != 200 || a.body.None?)) then
              v == if after == MISSING then ERROR else after
            else if a.code == 404 then v == after
            else
              var b := a.body.value;
              if !b.successful then v == Verdict(Failed, b.ledger, None, None)
              else if b.latest.LatestRaises? then v == if after == MISSING then ERROR else after
              else
                && v.status == (if DeepEnough(b, n) then Confirmed else Pending)
                && v.ledger == b.ledger && v.latest == b.latest.ledger
                && v.confirmations == if b.ledger.Some? && v.latest.Some? && b.ledger.value <= v.latest.value
                                      then Some(v.latest.value - b.ledger.value + 1) else None
  {
    assert ([a] + rest)[1..] == rest;
  }

  /** What each verdict says about the answers: missing needs every source to say 404, confirmed needs the
      first usable answer to report success at sufficient depth, an error means nobody was usable and
      somebody failed. */
  lemma VerdictMeaning(answers: seq<Answer>, minConfirmations: int)
    ensures Verify(answers, minConfirmations).status == Missing <==>
            forall j :: 0 <= j < |answers| ==> NotFound(answers[j])
    ensures Verify(answers, minConfirmations).status == Error <==>
              && (forall j :: 0 <= j < |answers| ==> !Decisive(answers[j]))
              && (exists j :: 0 <= j < |answers| && !NotFound(answers[j]))
    ensures Verify(answers, minConfirmations).status == Confirmed <==>
              exists i :: DecidedBy(answers, i) && DeepEnough(answers[i].body.value, minConfirmations)
    ensures Verify(answers, minConfirmations).status == Failed <==>
              exists i :: DecidedBy(answers, i) && !answers[i].body.value.successful
    ensures Verify(answers, minConfirmations).status == Pending <==>
              exists i :: DecidedBy(answers, i) && answers[i].body.value.successful
                          && !DeepEnough(answers[i].body.value, minConfirmations)
  {
    if exists j :: 0 <= j < |answers| && Decisive(answers[j]) {
      DecisionExists(answers);
      var i :| DecidedBy(answers, i);
      FirstDecisive(answers, i, minConfirmations);
      assert !NotFound(answers[i]);
      OnlyDecision(answers, i);
    } else {
      NoneDecisive(answers, minConfirmations);
    }
  }

  lemma OnlyDecision(answers: seq<Answer>, i: int)
    requires DecidedBy(answers, i)
    ensures forall j :: DecidedBy(answers, j) ==> j == i
  {
  }

  // ----- rows

  datatype TxRow = TxRow(txHash: Option<string>, status: Option<string>)

  type Rows = map<nat, TxRow>

  /** Still waiting for a verdict. */
  predicate Open(r: TxRow)
  {
    r.status == None || r.status == Some("pending")
  }

  predicate Terminal(s: TxStatus)
  {
    s == Confirmed || s == Failed || s == Missing
  }

  function Name(s: TxStatus): string
  {
    match s
    case Pending => "pending"
    case Confirmed => "confirmed"
    case Failed => "failed"
    case Missing => "missing"
    case Error => "error"
  }

  /** Set the status of the rows with the hash: the open ones, or all of them when forced. */
  function UpdateStatus(rows: Rows, hash: string, status: TxStatus, force: bool): Rows
  {
    map id | id in rows ::
      if rows[id].txHash == Some(hash) && (force || Open(rows[id])) then rows[id].(status := Some(Name(status)))
      else rows[id]
  }

  predicate Matches(rows: Rows, hash: string, force: bool)
  {
    exists id :: id in rows && rows[id].txHash == Some(hash) && (force || Open(rows[id]))
  }

  datatype Item = Item(status: string, updated: bool)

  datatype Call = Call(hash: Option<string>, previous: Option<string>, minConfirmations: int,
                       answers: seq<Answer>, force: bool)

  predicate IsTerminalName(s: Option<string>)
  {
    s == Some("confirmed") || s == Some("failed") || s == Some("missing")
  }

  /** The verdict of a call that asks the sources; None when it stops before that. `hash` is the normalised
      hash, None when it is malformed. */
  function VerdictOf(c: Call): Option<Verdict>
  {
    if c.hash.None? || c.minConfirmations < 1 || (IsTerminalName(c.previous) && !c.force) then None
    else Some(Verify(c.answers, c.minConfirmations))
  }

  /** The rows after one reconcile call. */
  function Reconciled(rows: Rows, c: Call): Rows
  {
    var v := VerdictOf(c);
    if v.Some? && Terminal(v.value.status) then UpdateStatus(rows, c.hash.value, v.value.status, c.force) else rows
  }

  /** The status a call reports: failed for a malformed hash, the previous one when it is final, else the verdict. */
  function Outcome(c: Call): string
  {
    if c.hash.None? then "failed"
    else if IsTerminalName(c.previous) && !c.force then c.previous.value
    else Name(Verify(c.answers, c.minConfirmations).status)
  }

  /** The call writes to at least one row. */
  predicate Writes(rows: Rows, c: Call)
  {
    VerdictOf(c).Some? && Terminal(VerdictOf(c).value.status) && Matches(rows, c.hash.value, c.force)
  }

  function CountOutcomes(calls: seq<Call>, name: string): nat
  {
    if calls == [] then 0 else (if Outcome(calls[0]) == name then 1 else 0) + CountOutcomes(calls[1..], name)
  }

  function CountWrites(rows: Rows, calls: seq<Call>): nat
    decreases |calls|
  {
    if calls == [] then 0
    else (if Writes(rows, calls[0]) then 1 else 0) + CountWrites(Reconciled(rows, calls[0]), calls[1..])
  }

  /** A row found pending, with the answers its sources give. */
  datatype PendingTx = PendingTx(hash: Option<string>, status: Option<string>, answers: seq<Answer>)

  /** An absent or empty status is read as pending. */
  function CallFor(p: PendingTx, minConfirmations: int): Call
  {
    Call(p.hash, if p.status.None? || p.status == Some("") then Some("pending") else p.status,
         minConfirmations, p.answers, false)
  }

  function CallsFor(ps: seq<PendingTx>, minConfirmations: int): (calls: seq<Call>)
    ensures |calls| == |ps| && forall i :: 0 <= i < |ps| ==> calls[i] == CallFor(ps[i], minConfirmations)
  {
    seq(|ps|, i requires 0 <= i < |ps| => CallFor(ps[i], minConfirmations))
  }

  datatype Summary = Summary(scanned: nat, confirmed: nat, failed: nat, missing: nat, pending: nat,
                             error: nat, updated: nat)

  /** Count one more item under its status. */
  function Tallied(s: Summary, status: string): Summary
  {
    if status == "confirmed" then s.(confirmed := s.confirmed + 1)
    else if status == "failed" then s.(failed := s.failed + 1)
    else if status == "missing" then s.(missing := s.missing + 1)
    else if status == "pending" then s.(pending := s.pending + 1)
    else s.(error := s.error + 1)
  }

  /** The tally counts every call once, under the status it reports. */
  ghost predicate Tallies(s: Summary, calls: seq<Call>)
  {
    && s.scanned == |calls| == s.confirmed + s.failed + s.missing + s.pending + s.error
    && s.confirmed == CountOutcomes(calls, "confirmed") && s.failed == CountOutcomes(calls, "failed")
    && s.missing == CountOutcomes(calls, "missing") && s.pending == CountOutcomes(calls, "pending")
  }

  lemma {:induction false} CountSnoc(calls: seq<Call>, c: Call, name: string)
    ensures CountOutcomes(calls + [c], name) == CountOutcomes(calls, name) + (if Outcome(c) == name then 1 else 0)
  {
    if calls == [] {
      assert [] + [c] == [c] && [c][1..] == [];
    } else {
      assert (calls + [c])[1..] == calls[1..] + [c];
      CountSnoc(calls[1..], c, name);
    }
  }

  lemma TallyNext(s: Summary, calls: seq<Call>, c: Call)
    requires Tallies(s, calls)
    ensures Tallies(Tallied(s.(scanned := s.scanned + 1), Outcome(c)), calls + [c])
  {
    CountSnoc(calls, c, "confirmed");
    CountSnoc(calls, c, "failed");
    CountSnoc(calls, c, "missing");
    CountSnoc(calls, c, "pending");
    NamesDiffer();
  }

  class ProofEvents {
    var rows: Rows

    /** A minimum below one is refused before anything is read or written. */
    method ReconcileRegistration(c: Call) returns (item: Option<Item>)
      modifies this
      ensures rows == Reconciled(old(rows), c)
      ensures item == if c.minConfirmations < 1 then None else Some(Item(Outcome(c), Writes(old(rows), c)))
    {
      if c.minConfirmations < 1 {
        return None;
      }
      if c.hash.None? {
        return Some(Item("failed", false));
      }
      if IsTerminalName(c.previous) && !c.force {
        return Some(Item(c.previous.value, false));
      }
      var verification := VerifyTransaction(c.answers, c.minConfirmations);
      var updated := false;
      if Terminal(verification.status) {
        updated := Update(c.hash.value, verification.status, c.force);
      }
      item := Some(Item(Name(verification.status), updated));
    }

    method Update(hash: string, status: TxStatus, force: bool) returns (updated: bool)
      modifies this
      ensures rows == UpdateStatus(old(rows), hash, status, force)
      ensures updated <==> Matches(old(rows), hash, force)
    {
      updated := exists id :: id in rows && rows[id].txHash == Some(hash) && (force || Open(rows[id]));
      rows := map id | id in rows ::
        if rows[id].txHash == Some(hash) && (force || Open(rows[id])) then rows[id].(status := Some(Name(status)))
        else rows[id];
    }

    /** The batch over the rows found pending: every item is counted once under the status it reports. */
    method ReconcilePending(pending: seq<PendingTx>, minConfirmations: int) returns (summary: Option<Summary>)
      modifies this
      ensures summary.None? <==> minConfirmations < 1
      ensures summary.None? ==> rows == old(rows)
      ensures summary.Some? ==>
                var calls := CallsFor(pending, minConfirmations);
                && rows == RunCalls(old(rows), calls) && Tallies(summary.value, calls)
                && summary.value.updated == CountWrites(old(rows), calls)
    {
      if minConfirmations < 1 {
        return None;
      }
      var s := Summary(0, 0, 0, 0, 0, 0, 0);
      ghost var calls := CallsFor(pending, minConfirmations);
      for i := 0 to |pending|
        invariant RunCalls(rows, calls[i..]) == RunCalls(old(rows), calls)
        invariant Tallies(s, calls[..i])
        invariant s.updated + CountWrites(rows, calls[i..]) == CountWrites(old(rows), calls)
      {
        assert calls[i..][0] == calls[i] && calls[i..][1..] == calls[i + 1..];
        assert calls[..i + 1] == calls[..i] + [calls[i]];
        TallyNext(s, calls[..i], calls[i]);
        var item := ReconcileRegistration(CallFor(pending[i], minConfirmations));
        s := Tallied(s.(scanned := s.scanned + 1), item.value.status);
        if item.value.updated {
          s := s.(updated := s.updated + 1);
        }
      }
      assert calls[..|pending|] == calls;
      summary := Some(s);
    }
  }

  lemma NamesDiffer()
    ensures "confirmed" != "failed" && "confirmed" != "missing" && "confirmed" != "pending" && "confirmed" != "error"
    ensures "failed" != "missing" && "failed" != "pending" && "failed" != "error"
    ensures "missing" != "pending" && "missing" != "error" && "pending" != "error"
  {
    assert |"confirmed"| == 9 && |"failed"| == 6 && |"missing"| == 7 && |"pending"| == 7 && |"error"| == 5;
    assert "missing"[0] != "pending"[0];
  }

  // ----- runs

  function RunCalls(rows: Rows, calls: seq<Call>): Rows
    decreases |calls|
  {
    if calls == [] then rows else RunCalls(Reconciled(rows, calls[0]), calls[1..])
  }

  /** How often a row's status changes along a run. */
  function Changes(rows: Rows, calls: seq<Call>, id: nat): nat
    requires id in rows
    decreases |calls|
  {
    if calls == [] then 0
    else (if Reconciled(rows, calls[0])[id] == rows[id] then 0 else 1)
         + Changes(Reconciled(rows, calls[0]), calls[1..], id)
  }

  /** An unforced call changes a row only from open to the terminal verdict of its own hash. */
  lemma CallEffect(rows: Rows, c: Call, id: nat)
    requires id in rows && !c.force
    ensures Reconciled(rows, c).Keys == rows.Keys
    ensures Reconciled(rows, c)[id] != rows[id] ==>
              && Open(rows[id]) && !Open(Reconciled(rows, c)[id])
              && VerdictOf(c).Some? && Terminal(VerdictOf(c).value.status) && rows[id].txHash == c.hash
              && Reconciled(rows, c)[id] == rows[id].(status := Some(Name(VerdictOf(c).value.status)))
    ensures !Open(rows[id]) ==> Reconciled(rows, c)[id] == rows[id]
  {
    NamesDiffer();
  }

  /** Without force a row leaves pending at most once and a settled status never changes. */
  lemma {:induction false} SettledOnce(rows: Rows, calls: seq<Call>, id: nat)
    requires id in rows && forall i :: 0 <= i < |calls| ==> !calls[i].force
    ensures id in RunCalls(rows, calls)
    ensures Changes(rows, calls, id) <= (if Open(rows[id]) then 1 else 0)
    ensures !Open(rows[id]) ==> RunCalls(rows, calls)[id] == rows[id]
    decreases |calls|
  {
    if calls != [] {
      CallEffect(rows, calls[0], id);
      SettledOnce(Reconciled(rows, calls[0]), calls[1..], id);
    }
  }

  /** A row that settles in a run does so on the evidence of one call for its hash. */
  lemma {:induction false} SettledOnEvidence(rows: Rows, calls: seq<Call>, id: nat)
    requires id in rows && forall i :: 0 <= i < |calls| ==> !calls[i].force
    ensures id in RunCalls(rows, calls)
    ensures RunCalls(rows, calls)[id] != rows[id] ==>
              exists i :: 0 <= i < |calls| && calls[i].hash == rows[id].txHash && VerdictOf(calls[i]).Some? &&
                Terminal(VerdictOf(calls[i]).value.status) &&
                RunCalls(rows, calls)[id].status == Some(Name(VerdictOf(calls[i]).value.status))
    decreases |calls|
  {
    if calls != [] {
      var rows' := Reconciled(rows, calls[0]);
      CallEffect(rows, calls[0], id);
      SettledOnEvidence(rows', calls[1..], id);
      if rows'[id] != rows[id] {
        SettledOnce(rows', calls[1..], id);
        assert calls[0].hash == rows[id].txHash;
      } else if RunCalls(rows, calls)[id] != rows[id] {
        var i :| 0 <= i < |calls[1..]| && calls[1..][i].hash == rows'[id].txHash && VerdictOf(calls[1..][i]).Some? &&
          Terminal(VerdictOf(calls[1..][i]).value.status) &&
          RunCalls(rows', calls[1..])[id].status == Some(Name(VerdictOf(calls[1..][i]).value.status));
        assert calls[i + 1] == calls[1..][i];
      }
    }
  }

  /** The answers settle the transaction: every source says 404, or the first usable answer reports a failure or
      a success at sufficient depth. */
  ghost predicate Evidence(answers: seq<Answer>, minConfirmations: int)
  {
    || (forall j :: 0 <= j < |answers| ==> NotFound(answers[j]))
    || (exists i :: DecidedBy(answers, i) &&
          (!answers[i].body.value.successful || DeepEnough(answers[i].body.value, minConfirmations)))
  }

  lemma DecidedOnce(answers: seq<Answer>, i: int, j: int)
    requires DecidedBy(answers, i) && DecidedBy(answers, j)
    ensures i == j
  {
  }

  lemma EvidenceIffTerminal(answers: seq<Answer>, minConfirmations: int)
    ensures Terminal(Verify(answers, minConfirmations).status) <==> Evidence(answers, minConfirmations)
  {
    VerdictMeaning(answers, minConfirmations);
    if i :| DecidedBy(answers, i) &&
            (!answers[i].body.value.successful || DeepEnough(answers[i].body.value, minConfirmations)) {
      assert !answers[i].body.value.successful || DeepEnough(answers[i].body.value, minConfirmations);
    }
  }

  /** No source was usable and some source failed: neither a verdict nor a 404 from everyone. */
  ghost predicate DependencyFailure(answers: seq<Answer>)
  {
    && (forall j :: 0 <= j < |answers| ==> !Decisive(answers[j]))
    && (exists j :: 0 <= j < |answers| && !NotFound(answers[j]))
  }

  /** The first usable answer reports success, at a depth that is unknown or below the minimum. */
  ghost predicate TooShallow(answers: seq<Answer>, minConfirmations: int)
  {
    exists i :: DecidedBy(answers, i) && answers[i].body.value.successful
      && !DeepEnough(answers[i].body.value, minConfirmations)
  }

  /** Answers that settle nothing are a dependency failure or too shallow a success, and nothing else. */
  lemma NoEvidenceIff(answers: seq<Answer>, minConfirmations: int)
    ensures !Evidence(answers, minConfirmations) <==>
            DependencyFailure(answers) || TooShallow(answers, minConfirmations)
  {
    if exists j :: 0 <= j < |answers| && Decisive(answers[j]) {
      DecisionExists(answers);
      var i :| DecidedBy(answers, i);
      assert !NotFound(answers[i]);
      forall k | DecidedBy(answers, k) ensures k == i {
        DecidedOnce(answers, i, k);
      }
    }
  }

  /** After a dependency failure, or a success that is not deep enough yet, every row is as it was, forced or not. */
  lemma NoEvidenceNoWrite(rows: Rows, c: Call)
    requires DependencyFailure(c.answers) || TooShallow(c.answers, c.minConfirmations)
    ensures Reconciled(rows, c) == rows
  {
    NoEvidenceIff(c.answers, c.minConfirmations);
    EvidenceIffTerminal(c.answers, c.minConfirmations);
  }

  // ----- one call, in full

  predicate AllNotFound(answers: seq<Answer>)
  {
    forall j :: 0 <= j < |answers| ==> NotFound(answers[j])
  }

  ghost predicate FoundFailed(answers: seq<Answer>)
  {
    exists i :: DecidedBy(answers, i) && !answers[i].body.value.successful
  }

  ghost predicate FoundDeep(answers: seq<Answer>, n: int)
  {
    exists i :: DecidedBy(answers, i) && DeepEnough(answers[i].body.value, n)
  }

  /** The call asks the sources. */
  predicate Asks(c: Call)
  {
    && c.hash.Some? && c.minConfirmations >= 1
    && (c.force || c.previous !in {Some("confirmed"), Some("failed"), Some("missing")})
  }

  lemma NamesOf(answers: seq<Answer>, n: int)
    ensures Name(Verify(answers, n).status) ==
            if AllNotFound(answers) then "missing" else if FoundFailed(answers) then "failed"
            else if FoundDeep(answers, n) then "confirmed"
            else if DependencyFailure(answers) then "error" else "pending"
    ensures Terminal(Verify(answers, n).status) <==>
            AllNotFound(answers) || FoundFailed(answers) || FoundDeep(answers, n)
  {
    VerdictMeaning(answers, n);
  }

  /** Every row after a call: one that has the hash, and is open unless the call is forced, takes the status the answers
      give, if they settle it; every other row and everything else stays. */
  lemma RowAfter(rows: Rows, c: Call, id: nat)
    requires id in rows
    ensures id in Reconciled(rows, c) && Reconciled(rows, c)[id].txHash == rows[id].txHash
    ensures Reconciled(rows, c)[id].status ==
            if Asks(c) && rows[id].txHash == c.hash
               && (c.force || rows[id].status == None || rows[id].status == Some("pending"))
            then
              if AllNotFound(c.answers) then Some("missing")
              else if FoundFailed(c.answers) then Some("failed")
              else if FoundDeep(c.answers, c.minConfirmations) then Some("confirmed")
              else rows[id].status
            else rows[id].status
  {
    NamesOf(c.answers, c.minConfirmations);
  }

  /** What a call reports. */
  lemma Reported(c: Call)
    requires c.minConfirmations >= 1
    ensures Outcome(c) ==
            if c.hash.None? then "failed"
            else if !Asks(c) then c.previous.value
            else if AllNotFound(c.answers) then "missing"
            else if FoundFailed(c.answers) then "failed"
            else if FoundDeep(c.answers, c.minConfirmations) then "confirmed"
            else if DependencyFailure(c.answers) then "error" else "pending"
  {
    NamesOf(c.answers, c.minConfirmations);
  }

  /** A call reports an update exactly when the answers settle the transaction and some row is there to take it. */
  lemma UpdatedIff(rows: Rows, c: Call)
    ensures Writes(rows, c) <==>
            && Asks(c)
            && (AllNotFound(c.answers) || FoundFailed(c.answers) || FoundDeep(c.answers, c.minConfirmations))
            && exists id :: id in rows && rows[id].txHash == c.hash
                            && (c.force || rows[id].status == None || rows[id].status == Some("pending"))
  {
    NamesOf(c.answers, c.minConfirmations);
  }

  // ----- whole runs and batches, from the answers

  /** Call i is the first for the hash whose answers settle the transaction. */
  ghost predicate SettledBy(calls: seq<Call>, hash: Option<string>, i: int)
  {
    && 0 <= i < |calls| && Settles(calls[i], hash)
    && forall j :: 0 <= j < i ==> !Settles(calls[j], hash)
  }

  ghost predicate Settles(c: Call, hash: Option<string>)
  {
    && Asks(c) && c.hash == hash
    && (AllNotFound(c.answers) || FoundFailed(c.answers) || FoundDeep(c.answers, c.minConfirmations))
  }

  /** In every unforced run an open row ends with the status of the first call that settles its hash, and stays open
      exactly when there is none. */
  lemma {:induction false} RowFromRun(rows: Rows, calls: seq<Call>, id: nat)
    requires id in rows && Open(rows[id]) && forall i :: 0 <= i < |calls| ==> !calls[i].force
    ensures id in RunCalls(rows, calls)
    ensures forall i :: SettledBy(calls, rows[id].txHash, i) ==>
              RunCalls(rows, calls)[id].status ==
                Some(if AllNotFound(calls[i].answers) then "missing"
                     else if FoundFailed(calls[i].answers) then "failed" else "confirmed")
    ensures Open(RunCalls(rows, calls)[id]) <==> forall i :: 0 <= i < |calls| ==> !Settles(calls[i], rows[id].txHash)
    decreases |calls|
  {
    if calls != [] {
      var c, rest, rows', hash := calls[0], calls[1..], Reconciled(rows, calls[0]), rows[id].txHash;
      RowAfter(rows, c, id);
      NamesDiffer();
      if Settles(c, hash) {
        SettledOnce(rows', rest, id);
      } else {
        RowFromRun(rows', rest, id);
        assert forall i :: 0 < i < |calls| ==> calls[i] == rest[i - 1];
        forall i | SettledBy(calls, hash, i) ensures i > 0 && SettledBy(rest, hash, i - 1) {
          assert forall j :: 0 <= j < i - 1 ==> rest[j] == calls[j + 1];
        }
        assert forall i :: 0 <= i < |rest| ==> rest[i] == calls[i + 1];
      }
    }
  }

  /** The places of a list of marks that are set. */
  function Marked(marks: seq<bool>): set<nat>
  {
    set i: nat | i < |marks| && marks[i]
  }

  lemma MarkedSnoc(marks: seq<bool>, b: bool)
    ensures |Marked(marks + [b])| == |Marked(marks)| + if b then 1 else 0
  {
    assert Marked(marks + [b]) == if b then Marked(marks) + {|marks|} else Marked(marks);
  }

  /** The marks say which calls report the status. */
  ghost predicate Mark(marks: seq<bool>, calls: seq<Call>, name: string)
  {
    |marks| == |calls| && forall i :: 0 <= i < |calls| ==> (marks[i] <==> Outcome(calls[i]) == name)
  }

  lemma LastMark(marks: seq<bool>, calls: seq<Call>, name: string, before: seq<Call>, c: Call)
    requires Mark(marks, calls, name) && calls == before + [c]
    ensures Mark(marks[..|before|], before, name) && (marks[|before|] <==> Outcome(c) == name)
  {
    assert calls[|before|] == c;
    forall i | 0 <= i < |before| ensures marks[..|before|][i] <==> Outcome(before[i]) == name {
      assert calls[i] == before[i];
    }
  }

  lemma SplitEnd<T>(s: seq<T>, n: nat)
    requires n + 1 == |s|
    ensures s == s[..n] + [s[n]]
  {
  }

  /** A counter of the batch is the number of its calls that report the status. */
  lemma {:induction false} CountIs(calls: seq<Call>, name: string, marks: seq<bool>)
    requires Mark(marks, calls, name)
    ensures CountOutcomes(calls, name) == |Marked(marks)|
    decreases |calls|
  {
    if calls == [] {
      assert Marked(marks) == {};
    } else {
      var n := |calls| - 1;
      var before, c := calls[..n], calls[n];
      SplitEnd(calls, n);
      SplitEnd(marks, n);
      LastMark(marks, calls, name, before, c);
      CountIs(before, name, marks[..n]);
      CountSnoc(before, c, name);
      MarkedSnoc(marks[..n], marks[n]);
    }
  }

  lemma {:induction false} WritesSnoc(rows: Rows, calls: seq<Call>, c: Call)
    ensures RunCalls(rows, calls + [c]) == Reconciled(RunCalls(rows, calls), c)
    ensures CountWrites(rows, calls + [c]) ==
            CountWrites(rows, calls) + if Writes(RunCalls(rows, calls), c) then 1 else 0
    decreases |calls|
  {
    if calls == [] {
      assert [] + [c] == [c] && [c][1..] == [];
    } else {
      assert (calls + [c])[1..] == calls[1..] + [c];
      WritesSnoc(Reconciled(rows, calls[0]), calls[1..], c);
    }
  }

  /** The number of updates is the number of calls that find a row to write. */
  lemma {:induction false} WritesAre(rows: Rows, calls: seq<Call>, marks: seq<bool>)
    requires |marks| == |calls|
    requires forall i :: 0 <= i < |calls| ==> (marks[i] <==> Writes(RunCalls(rows, calls[..i]), calls[i]))
    ensures CountWrites(rows, calls) == |Marked(marks)|
    decreases |calls|
  {
    if calls == [] {
      assert Marked(marks) == {};
    } else {
      var n := |calls| - 1;
      assert forall i :: 0 <= i < n ==> calls[..n][..i] == calls[..i];
      WritesAre(rows, calls[..n], marks[..n]);
      assert calls == calls[..n] + [calls[n]] && marks == marks[..n] + [marks[n]];
      WritesSnoc(rows, calls[..n], calls[n]);
      MarkedSnoc(marks[..n], marks[n]);
    }
  }

  /** The batch asks the sources about a row exactly when its hash is well formed and its status is not final. */
  lemma BatchAsks(p: PendingTx, n: int)
    ensures Asks(CallFor(p, n)) <==>
            p.hash.Some? && n >= 1 && p.status !in {Some("confirmed"), Some("failed"), Some("missing")}
    ensures CallFor(p, n).hash == p.hash && CallFor(p, n).answers == p.answers && !CallFor(p, n).force
    ensures CallFor(p, n).minConfirmations == n
  {
    NamesDiffer();
  }
}
