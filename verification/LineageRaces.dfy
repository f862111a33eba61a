/** The lineage endpoint validates, looks for a duplicate and inserts in separate transactions, between which
    other requests may run. The table has no key on the output, so one output can come to have several
    records, and a lookup gives any one of them. */
module LineageRaces {
  import opened Lineage
  import opened Outcomes

  type Table = seq<Request>

  ghost predicate Listed(t: Table, output: Id)
  {
    exists i :: 0 <= i < |t| && t[i].output == output
  }

  ghost predicate HasRecord(t: Table, output: Id, parents: seq<Id>)
  {
    exists i :: 0 <= i < |t| && t[i].output == output && t[i].parents == parents
  }

  /** What lookups see: some record of every output that has one. */
  ghost predicate IsView(view: Store, t: Table)
  {
    (forall o :: o in view ==> HasRecord(t, o, view[o])) && (forall i :: 0 <= i < |t| ==> t[i].output in view)
  }

  ghost predicate HasDigest(t: Table, digest: string)
  {
    exists i :: 0 <= i < |t| && t[i].digest == digest
  }

  /** The manifest digest is the only key: a second row with it is dropped. */
  ghost function InsertRow(t: Table, r: Request): Table
  {
    if HasDigest(t, r.digest) then t else t + [r]
  }

  /** Between the transactions: validated, or also found new; `rows` is the size of the table at validation. */
  datatype Phase =
    | Passed(r: Request, rows: nat)
    | Cleared(r: Request, rows: nat)

  datatype State = State(table: Table, flying: map<nat, Phase>)

  const START: State := State([], map[])

  datatype Action =
    | DoValidate(c: nat, r: Request, view: Store)
    | DoCheck(c: nat)
    | DoInsert(c: nat)

  ghost function Next(s: State, a: Action): State
  {
    match a
    case DoValidate(c, r, view) =>
      if c in s.flying || !IsView(view, s.table) || Refused(r, view) then s
      else s.(flying := s.flying[c := Passed(r, |s.table|)])
    case DoCheck(c) =>
      if c !in s.flying || !s.flying[c].Passed? then s
      else if Listed(s.table, s.flying[c].r.output) then s.(flying := s.flying - {c})
      else s.(flying := s.flying[c := Cleared(s.flying[c].r, s.flying[c].rows)])
    case DoInsert(c) =>
      if c !in s.flying || !s.flying[c].Cleared? then s
      else State(InsertRow(s.table, s.flying[c].r), s.flying - {c})
  }

  ghost function After(s: State, actions: seq<Action>): State
    decreases |actions|
  {
    if actions == [] then s else After(Next(s, actions[0]), actions[1..])
  }

  // ----- exactly which runs keep the graph acyclic

  /** The action adds this row. */
  ghost predicate Adds(s: State, a: Action)
  {
    a.DoInsert? && a.c in s.flying && s.flying[a.c].Cleared? && !HasDigest(s.table, s.flying[a.c].r.digest)
  }

  /** A row that is added does not lead to its own output at that moment. */
  ghost predicate Clean(s: State, a: Action)
  {
    Adds(s, a) ==> !Leads(Arcs(s.table), s.flying[a.c].r.parents, s.flying[a.c].r.output)
  }

  ghost predicate CleanRun(s: State, actions: seq<Action>)
    decreases |actions|
  {
    actions == [] || (Clean(s, actions[0]) && CleanRun(Next(s, actions[0]), actions[1..]))
  }

  lemma StepExact(s: State, a: Action)
    ensures Acyclic(Arcs(Next(s, a).table)) <==> Acyclic(Arcs(s.table)) && Clean(s, a)
  {
    if Adds(s, a) {
      var r := s.flying[a.c].r;
      ArcsOfConcat(s.table, [r]);
      if Acyclic(Arcs(s.table)) {
        InsertAcyclicIff(Arcs(s.table), r);
      } else if Acyclic(Arcs(s.table + [r])) {
        AcyclicBelow(Arcs(s.table), Arcs(s.table + [r]));
      }
    }
  }

  /** Over every interleaving of every number of requests, the graph ends acyclic exactly when each row led
      nowhere near its own output at the moment it was added. */
  lemma {:induction false} RunExact(s: State, actions: seq<Action>)
    ensures Acyclic(Arcs(After(s, actions).table)) <==> Acyclic(Arcs(s.table)) && CleanRun(s, actions)
    decreases |actions|
  {
    if actions != [] {
      StepExact(s, actions[0]);
      RunExact(Next(s, actions[0]), actions[1..]);
    }
  }

  // ----- what every table holds

  /** What the endpoint asks of a request before it looks at other records. */
  ghost predicate WellMade(r: Request)
  {
    r.output != "" && 1 <= |r.parents| <= 4 && r.actor != "" && r.output !in r.parents
  }

  ghost predicate Sane(s: State)
  {
    && DistinctDigests(s.table) && (forall i :: 0 <= i < |s.table| ==> WellMade(s.table[i]))
    && (forall c :: c in s.flying ==> WellMade(s.flying[c].r))
  }

  lemma NextSane(s: State, a: Action)
    requires Sane(s)
    ensures Sane(Next(s, a)) && s.table <= Next(s, a).table
  {
    if a.DoValidate? { ValidatedIff(a.r.parents, 1, a.r.actor, a.r.output, Some(a.view)); }
  }

  /** In every interleaving rows are only added, never two with one digest, and every row names an output, an actor and
      one to four parents other than the output. */
  lemma {:induction false} EveryTable(s: State, actions: seq<Action>)
    requires Sane(s)
    ensures Sane(After(s, actions)) && s.table <= After(s, actions).table
    decreases |actions|
  {
    if actions != [] {
      NextSane(s, actions[0]);
      EveryTable(Next(s, actions[0]), actions[1..]);
    }
  }

  // ----- requests in flight

  ghost predicate InFlight(s: State, cs: seq<nat>)
  {
    forall k :: 0 <= k < |cs| ==>
      cs[k] in s.flying && s.flying[cs[k]].Cleared? && !HasDigest(s.table, s.flying[cs[k]].r.digest)
  }

  ghost function RequestsOf(s: State, cs: seq<nat>): (rs: seq<Request>)
    requires InFlight(s, cs)
    ensures |rs| == |cs| && forall k :: 0 <= k < |cs| ==> rs[k] == s.flying[cs[k]].r
  {
    seq(|cs|, k requires 0 <= k < |cs| => s.flying[cs[k]].r)
  }

  ghost predicate DistinctDigests(rs: seq<Request>)
  {
    forall i, j :: 0 <= i < j < |rs| ==> rs[i].digest != rs[j].digest
  }

  function Inserts(cs: seq<nat>): (actions: seq<Action>)
    ensures |actions| == |cs| && forall k :: 0 <= k < |cs| ==> actions[k] == DoInsert(cs[k])
  {
    seq(|cs|, k requires 0 <= k < |cs| => DoInsert(cs[k]))
  }

  lemma StillInFlight(s: State, cs: seq<nat>)
    requires InFlight(s, cs) && DistinctDigests(RequestsOf(s, cs)) && cs != []
    requires forall i, j :: 0 <= i < j < |cs| ==> cs[i] != cs[j]
    ensures var s' := Next(s, DoInsert(cs[0]));
            && s'.table == s.table + [s.flying[cs[0]].r]
            && InFlight(s', cs[1..]) && RequestsOf(s', cs[1..]) == RequestsOf(s, cs)[1..]
  {
    var s', rest := Next(s, DoInsert(cs[0])), cs[1..];
    forall k | 0 <= k < |rest|
      ensures rest[k] in s'.flying && s'.flying[rest[k]] == s.flying[cs[k + 1]] && s.flying[cs[k + 1]].Cleared?
      ensures !HasDigest(s'.table, s.flying[cs[k + 1]].r.digest)
    {
      assert rest[k] == cs[k + 1] && cs[0] != cs[k + 1];
      assert RequestsOf(s, cs)[0].digest != RequestsOf(s, cs)[k + 1].digest;
      assert !HasDigest(s.table, s.flying[cs[k + 1]].r.digest);
    }
  }

  lemma FirstThenRest(t: Table, rs: seq<Request>)
    requires rs != []
    ensures t + rs == (t + [rs[0]]) + rs[1..]
  {
  }

  lemma {:induction false} InsertsAddAll(s: State, cs: seq<nat>)
    requires InFlight(s, cs) && DistinctDigests(RequestsOf(s, cs))
    requires forall i, j :: 0 <= i < j < |cs| ==> cs[i] != cs[j]
    ensures After(s, Inserts(cs)).table == s.table + RequestsOf(s, cs)
    decreases |cs|
  {
    if cs != [] {
      var s', rest := Next(s, DoInsert(cs[0])), cs[1..];
      StillInFlight(s, cs);
      InsertsAddAll(s', rest);
      assert Inserts(cs)[1..] == Inserts(rest);
      FirstThenRest(s.table, RequestsOf(s, cs));
    }
  }

  /** Whatever requests are in flight and in whatever order they are inserted, the graph ends acyclic exactly
      when they do not lead to one another in a ring in the graph as it is now. */
  lemma InFlightExact(s: State, cs: seq<nat>)
    requires Acyclic(Arcs(s.table)) && InFlight(s, cs) && DistinctDigests(RequestsOf(s, cs))
    requires forall i, j :: 0 <= i < j < |cs| ==> cs[i] != cs[j]
    ensures Acyclic(Arcs(After(s, Inserts(cs)).table)) <==> !exists w :: Ring(Arcs(s.table), RequestsOf(s, cs), w)
  {
    InsertsAddAll(s, cs);
    ArcsOfConcat(s.table, RequestsOf(s, cs));
    InsertAllAcyclicIff(Arcs(s.table), RequestsOf(s, cs));
  }

  // ----- when nothing is inserted in between

  ghost predicate UniqueOutputs(t: Table)
  {
    forall i, j :: 0 <= i < j < |t| ==> t[i].output != t[j].output
  }

  /** With one record per output, lookups see the whole graph. */
  lemma ViewIsGraph(view: Store, t: Table)
    requires IsView(view, t) && UniqueOutputs(t)
    ensures Edges(view) == Arcs(t)
  {
    forall a, b | (a, b) in Edges(view) ensures (a, b) in Arcs(t) {
      assert HasRecord(t, a, view[a]);
    }
    forall i, q | 0 <= i < |t| && q in t[i].parents ensures (t[i].output, q) in Edges(view) {
      assert HasRecord(t, t[i].output, view[t[i].output]);
      var j :| 0 <= j < |t| && t[j].output == t[i].output && t[j].parents == view[t[i].output];
      assert i == j;
    }
  }

  /** A request validated against the table as it still is. */
  ghost predicate PhaseInv(t: Table, p: Phase)
  {
    && p.rows <= |t|
    && (p.rows == |t| ==> !Leads(Arcs(t), p.r.parents, p.r.output) && (p.Cleared? ==> !Listed(t, p.r.output)))
  }

  ghost predicate Inv(s: State)
  {
    && Acyclic(Arcs(s.table)) && UniqueOutputs(s.table)
    && (forall c :: c in s.flying ==> PhaseInv(s.table, s.flying[c]))
  }

  /** An insertion finds the table as its validation left it. */
  ghost predicate Undisturbed(s: State, a: Action)
  {
    Adds(s, a) ==> s.flying[a.c].rows == |s.table|
  }

  ghost predicate UndisturbedRun(s: State, actions: seq<Action>)
    decreases |actions|
  {
    actions == [] || (Undisturbed(s, actions[0]) && UndisturbedRun(Next(s, actions[0]), actions[1..]))
  }

  lemma ValidateKeepsInv(s: State, a: Action)
    requires Inv(s) && a.DoValidate?
    ensures Inv(Next(s, a))
  {
    if Next(s, a) != s {
      ViewIsGraph(a.view, s.table);
      assert PhaseInv(s.table, Passed(a.r, |s.table|));
    }
  }

  lemma StepKeepsInv(s: State, a: Action)
    requires Inv(s) && Undisturbed(s, a)
    ensures Inv(Next(s, a))
  {
    match a
    case DoValidate(_, _, _) => ValidateKeepsInv(s, a);
    case DoCheck(c) =>
      var s' := Next(s, a);
      forall d | d in s'.flying ensures PhaseInv(s'.table, s'.flying[d]) {
        assert PhaseInv(s.table, s.flying[d]);
      }
    case DoInsert(c) =>
      if Adds(s, a) {
        assert PhaseInv(s.table, s.flying[c]);
        StepExact(s, a);
        var s' := Next(s, a);
        assert UniqueOutputs(s'.table) by { assert !Listed(s.table, s.flying[c].r.output); }
        forall d | d in s'.flying ensures PhaseInv(s'.table, s'.flying[d]) {
          assert PhaseInv(s.table, s.flying[d]);
        }
      }
  }

  lemma {:induction false} RunKeepsInv(s: State, actions: seq<Action>)
    requires Inv(s) && UndisturbedRun(s, actions)
    ensures Inv(After(s, actions))
    decreases |actions|
  {
    if actions != [] {
      StepKeepsInv(s, actions[0]);
      RunKeepsInv(Next(s, actions[0]), actions[1..]);
    }
  }

  /** In every interleaving in which no row is added between the validation and the insertion of any request,
      the graph stays acyclic and every output has at most one record. */
  lemma UndisturbedAcyclic(actions: seq<Action>)
    requires UndisturbedRun(START, actions)
    ensures Acyclic(Arcs(After(START, actions).table)) && UniqueOutputs(After(START, actions).table)
  {
    EmptyAcyclic();
    RunKeepsInv(START, actions);
  }

  // ----- what goes wrong otherwise

  lemma LeadsInEmpty(q: Id, target: Id)
    ensures Leads({}, [q], target) <==> q == target
  {
    if Leads({}, [q], target) {
      var r :| r in [q] && Reaches({}, r, target);
      if r != target { LastArc({}, r, target); }
    }
    if q == target { ReachesSelf({}, q); assert q in [q]; }
  }

  /** Three requests that each pass, and of which any two can be inserted, close a cycle together. */
  lemma ThreeCanCycle(a: Request, b: Request, c: Request)
    requires a.parents == [b.output] && b.parents == [c.output] && c.parents == [a.output]
    requires a.output != b.output && b.output != c.output && c.output != a.output
    ensures forall r :: r in {a, b, c} ==> !Leads({}, r.parents, r.output)
    ensures Acyclic(Arcs([a, b])) && Acyclic(Arcs([b, c])) && Acyclic(Arcs([c, a]))
    ensures !Acyclic(Arcs([a, b, c]))
  {
    EmptyAcyclic();
    LeadsInEmpty(b.output, a.output);
    LeadsInEmpty(c.output, b.output);
    LeadsInEmpty(a.output, c.output);
    LeadsInEmpty(b.output, b.output);
    LeadsInEmpty(c.output, c.output);
    LeadsInEmpty(a.output, a.output);
    RacingExact({}, a, b);
    RacingExact({}, b, c);
    RacingExact({}, c, a);
    LeadsInEmpty(b.output, c.output);
    LeadsInEmpty(c.output, a.output);
    LeadsInEmpty(a.output, b.output);
    assert {} + Arcs([a, b]) == Arcs([a, b]) && {} + Arcs([b, c]) == Arcs([b, c]) && {} + Arcs([c, a]) == Arcs([c, a]);
    ThreeRing(a, b, c);
  }

  lemma ThreeRing(a: Request, b: Request, c: Request)
    requires Leads({}, a.parents, b.output) && Leads({}, b.parents, c.output) && Leads({}, c.parents, a.output)
    ensures !Acyclic(Arcs([a, b, c]))
  {
    var rs := [a, b, c];
    EmptyAcyclic();
    InsertAllAcyclicIff({}, rs);
    assert LeadsTo({}, rs, 0, 1) && LeadsTo({}, rs, 1, 2) && LeadsTo({}, rs, 2, 0);
    assert Ring({}, rs, [0, 1, 2, 0]);
    assert {} + Arcs(rs) == Arcs(rs);
  }

  /** Two requests validated and found new side by side, then inserted. */
  function Race(x: Request, y: Request): seq<Action>
  {
    [DoValidate(1, x, map[])] + ([DoValidate(2, y, map[])] +
    ([DoCheck(1)] + ([DoCheck(2)] + ([DoInsert(1)] + [DoInsert(2)]))))
  }

  /** A request that runs alone. */
  function Alone(z: Request, view: Store): seq<Action>
  {
    [DoValidate(3, z, view)] + ([DoCheck(3)] + [DoInsert(3)])
  }

  lemma AfterCons(s: State, a: Action, rest: seq<Action>)
    ensures After(s, [a] + rest) == After(Next(s, a), rest)
  {
    assert ([a] + rest)[1..] == rest;
  }

  lemma AfterOne(s: State, a: Action)
    ensures After(s, [a]) == Next(s, a)
  {
    assert [a] + [] == [a];
    AfterCons(s, a, []);
  }

  lemma RaceEnds(x: Request, y: Request)
    requires !Refused(x, map[]) && !Refused(y, map[]) && x.digest != y.digest
    ensures After(START, Race(x, y)) == State([x, y], map[])
  {
    var inserts := [DoInsert(1)] + [DoInsert(2)];
    var checks := [DoCheck(1)] + ([DoCheck(2)] + inserts);
    var s1, s2 := State([], map[1 := Passed(x, 0)]), State([], map[1 := Passed(x, 0), 2 := Passed(y, 0)]);
    var s4 := State([], map[1 := Cleared(x, 0), 2 := Cleared(y, 0)]);
    AfterCons(START, DoValidate(1, x, map[]), [DoValidate(2, y, map[])] + checks);
    assert Next(START, DoValidate(1, x, map[])) == s1;
    AfterCons(s1, DoValidate(2, y, map[]), checks);
    assert Next(s1, DoValidate(2, y, map[])) == s2;
    ChecksEnd(x, y, s2, s4, inserts);
    InsertsEnd(x, y, s4);
  }

  lemma ChecksEnd(x: Request, y: Request, s: State, s': State, rest: seq<Action>)
    requires s == State([], map[1 := Passed(x, 0), 2 := Passed(y, 0)])
    requires s' == State([], map[1 := Cleared(x, 0), 2 := Cleared(y, 0)])
    ensures After(s, [DoCheck(1)] + ([DoCheck(2)] + rest)) == After(s', rest)
  {
    var mid := State([], map[1 := Cleared(x, 0), 2 := Passed(y, 0)]);
    AfterCons(s, DoCheck(1), [DoCheck(2)] + rest);
    assert Next(s, DoCheck(1)) == mid;
    AfterCons(mid, DoCheck(2), rest);
    assert Next(mid, DoCheck(2)) == s';
  }

  lemma InsertsEnd(x: Request, y: Request, s: State)
    requires s == State([], map[1 := Cleared(x, 0), 2 := Cleared(y, 0)]) && x.digest != y.digest
    ensures After(s, [DoInsert(1)] + [DoInsert(2)]) == State([x, y], map[])
  {
    var mid := State([x], map[2 := Cleared(y, 0)]);
    AfterCons(s, DoInsert(1), [DoInsert(2)]);
    assert Next(s, DoInsert(1)) == mid by {
      assert [] + [x] == [x];
      assert s.flying - {1} == mid.flying;
    }
    AfterOne(mid, DoInsert(2));
    assert !HasDigest([x], y.digest) && [x] + [y] == [x, y];
    assert mid.flying - {2} == map[];
  }

  lemma AloneEnds(t: Table, z: Request, view: Store)
    requires IsView(view, t) && !Refused(z, view) && !Listed(t, z.output) && !HasDigest(t, z.digest)
    ensures After(State(t, map[]), Alone(z, view)).table == t + [z]
  {
    var s, rest := State(t, map[]), [DoCheck(3)] + [DoInsert(3)];
    AfterCons(s, DoValidate(3, z, view), rest);
    var s1, s2 := State(t, map[3 := Passed(z, |t|)]), State(t, map[3 := Cleared(z, |t|)]);
    assert Next(s, DoValidate(3, z, view)) == s1;
    AfterCons(s1, DoCheck(3), [DoInsert(3)]);
    assert Next(s1, DoCheck(3)) == s2;
    AfterOne(s2, DoInsert(3));
  }

  lemma PassesWhen(r: Request, view: Store)
    requires r.output != "" && r.actor != "" && |r.parents| == 1 && !Leads(Edges(view), r.parents, r.output)
    ensures !Refused(r, view)
  {
    if r.output in r.parents { ReachesSelf(Edges(view), r.output); }
  }

  /** Three requests: two name one output, the third goes back to it. */
  ghost predicate Hiding(x: Request, y: Request, z: Request, a: Id, b: Id, c: Id)
  {
    && x == Request(a, [b], x.actor, x.digest) && y == Request(a, [c], y.actor, y.digest)
    && z == Request(c, [a], z.actor, z.digest)
    && a != b && a != c && b != c && a != "" && c != "" && x.actor != "" && y.actor != "" && z.actor != ""
    && x.digest != y.digest && y.digest != z.digest && z.digest != x.digest
  }

  /** Two racing requests for one output leave an acyclic graph with nothing in flight, and yet a request that
      then runs alone is validated against the other record of that output and closes a cycle. */
  lemma SameOutputHidesCycle(x: Request, y: Request, z: Request, a: Id, b: Id, c: Id)
    requires Hiding(x, y, z, a, b, c)
    ensures var s := After(START, Race(x, y));
            && s == State([x, y], map[]) && Acyclic(Arcs(s.table))
            && !Acyclic(Arcs(After(s, Alone(z, map[a := [b]])).table))
  {
    RaceLeavesTwo(x, y, a, b, c);
    LaterPasses(z, map[a := [b]], a, b, c);
    FirstIsView(x, y);
    AloneEnds([x, y], z, map[a := [b]]);
    BackAgain([x, y] + [z], a, c, 1, 2);
  }

  lemma RaceLeavesTwo(x: Request, y: Request, a: Id, b: Id, c: Id)
    requires x.output == y.output == a && x.parents == [b] && y.parents == [c] && a != b && a != c
    requires a != "" && x.actor != "" && y.actor != "" && x.digest != y.digest
    ensures After(START, Race(x, y)) == State([x, y], map[]) && Acyclic(Arcs([x, y]))
  {
    EmptyAcyclic();
    LeadsInEmpty(b, a);
    LeadsInEmpty(c, a);
    PassesWhen(x, map[]);
    PassesWhen(y, map[]);
    RaceEnds(x, y);
    RacingExact({}, x, y);
    assert {} + Arcs([x, y]) == Arcs([x, y]);
  }

  lemma FirstIsView(x: Request, y: Request)
    requires x.output == y.output
    ensures IsView(map[x.output := x.parents], [x, y])
  {
    assert [x, y][0] == x;
    assert HasRecord([x, y], x.output, x.parents);
  }

  lemma LaterPasses(z: Request, view: Store, a: Id, b: Id, c: Id)
    requires view == map[a := [b]] && z.output == c && z.parents == [a] && c != "" && z.actor != "" && a != c && b != c
    ensures !Refused(z, view)
  {
    if Reaches(Edges(view), a, c) { LastArc(Edges(view), a, c); }
    PassesWhen(z, view);
  }

  lemma BackAgain(t: Table, a: Id, c: Id, i: nat, j: nat)
    requires i < |t| && j < |t| && t[i].output == a && c in t[i].parents && t[j].output == c && a in t[j].parents
    ensures !Acyclic(Arcs(t))
  {
    assert (a, c) in Arcs(t) && (c, a) in Arcs(t);
    ReachesSelf(Arcs(t), a);
    ReachesParent(Arcs(t), c, a, a);
    BackArc(Arcs(t), a, c);
  }
}
