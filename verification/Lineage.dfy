/** Lineage records name the parents of a derived output; the graph of all records must stay acyclic. */
module Lineage {
  import opened Outcomes

  const MAX_LINEAGE_DEPTH: nat := 4
  const MAX_LINEAGE_FANOUT: nat := 4

  type Id = string

  /** Arcs from an output to its parents. */
  type Graph = set<(Id, Id)>

  ghost predicate IsPath(g: Graph, p: seq<Id>)
  {
    p != [] && forall i :: 0 <= i < |p| - 1 ==> (p[i], p[i + 1]) in g
  }

  ghost predicate PathBetween(g: Graph, p: seq<Id>, a: Id, b: Id)
  {
    IsPath(g, p) && p[0] == a && p[|p| - 1] == b
  }

  /** b is a or one of its ancestors. */
  ghost predicate Reaches(g: Graph, a: Id, b: Id)
  {
    exists p :: PathBetween(g, p, a, b)
  }

  ghost predicate Acyclic(g: Graph)
  {
    forall p :: IsPath(g, p) && |p| >= 2 ==> p[0] != p[|p| - 1]
  }

  /** Some parent is the target or has it among its ancestors. */
  ghost predicate Leads(g: Graph, parents: seq<Id>, target: Id)
  {
    exists q :: q in parents && Reaches(g, q, target)
  }

  lemma ReachesSelf(g: Graph, a: Id)
    ensures Reaches(g, a, a)
  {
    assert PathBetween(g, [a], a, a);
  }

  lemma ReachesParent(g: Graph, a: Id, q: Id, b: Id)
    requires (a, q) in g && Reaches(g, q, b)
    ensures Reaches(g, a, b)
  {
    var p :| PathBetween(g, p, q, b);
    assert PathBetween(g, [a] + p, a, b);
  }

  lemma {:induction false} ReachesAlong(g: Graph, p: seq<Id>, a: Id, b: Id, c: Id)
    requires PathBetween(g, p, a, b) && Reaches(g, b, c)
    ensures Reaches(g, a, c)
    decreases |p|
  {
    if |p| > 1 {
      assert (p[0], p[1]) in g;
      assert PathBetween(g, p[1..], p[1], b) by {
        forall i | 0 <= i < |p[1..]| - 1 ensures (p[1..][i], p[1..][i + 1]) in g {
          assert (p[i + 1], p[i + 2]) in g;
        }
      }
      ReachesAlong(g, p[1..], p[1], b, c);
      ReachesParent(g, a, p[1], c);
    }
  }

  lemma ReachesJoin(g: Graph, a: Id, b: Id, c: Id)
    requires Reaches(g, a, b) && Reaches(g, b, c)
    ensures Reaches(g, a, c)
  {
    var p :| PathBetween(g, p, a, b);
    ReachesAlong(g, p, a, b, c);
  }

  lemma ReachesMore(g: Graph, h: Graph, a: Id, b: Id)
    requires g <= h && Reaches(g, a, b)
    ensures Reaches(h, a, b)
  {
    var p :| PathBetween(g, p, a, b);
    assert PathBetween(h, p, a, b);
  }

  /** An arc whose head reaches its tail closes a cycle. */
  lemma BackArc(g: Graph, a: Id, q: Id)
    requires (a, q) in g && Reaches(g, q, a)
    ensures !Acyclic(g)
  {
    var p :| PathBetween(g, p, q, a);
    var cycle := [a] + p;
    assert IsPath(g, cycle) && cycle[0] == cycle[|cycle| - 1];
  }

  lemma AcyclicBelow(g: Graph, h: Graph)
    requires g <= h && Acyclic(h)
    ensures Acyclic(g)
  {
    forall p | IsPath(g, p) && |p| >= 2 ensures p[0] != p[|p| - 1] {
      assert IsPath(h, p);
    }
  }

  // ----- the search with one shared set of visited ids

  /** What a lookup by output gives: the parents of the record found. */
  type Store = map<Id, seq<Id>>

  ghost function Edges(store: Store): Graph
  {
    set a, b | a in store && b in store[a] :: (a, b)
  }

  class Visited {
    var ids: set<Id>

    constructor ()
      ensures ids == {}
    {
      ids := {};
    }
  }

  /** Everything newly visited is finished: it is not the target and its parents have been visited. */
  ghost predicate Finished(store: Store, target: Id, before: set<Id>, after: set<Id>)
  {
    forall n :: n in after && n !in before ==> n != target && (n in store ==> forall q :: q in store[n] ==> q in after)
  }

  method SearchAncestry(id: Id, target: Id, store: Store, visited: Visited) returns (found: bool)
    modifies visited
    ensures found ==> Reaches(Edges(store), id, target)
    ensures old(visited.ids) <= visited.ids
    ensures !found ==> id in visited.ids && Finished(store, target, old(visited.ids), visited.ids)
    decreases store.Keys - visited.ids
  {
    if id in visited.ids {
      return false;
    }
    visited.ids := visited.ids + {id};
    if id == target {
      ReachesSelf(Edges(store), id);
      return true;
    }
    if id !in store {
      return false;
    }
    var parents := store[id];
    for i := 0 to |parents|
      invariant old(visited.ids) + {id} <= visited.ids
      invariant forall j :: 0 <= j < i ==> parents[j] in visited.ids
      invariant Finished(store, target, old(visited.ids) + {id}, visited.ids)
    {
      assert store.Keys - visited.ids < store.Keys - old(visited.ids) by {
        assert id in store.Keys - old(visited.ids) && id !in store.Keys - visited.ids;
      }
      found := SearchAncestry(parents[i], target, store, visited);
      if found {
        ReachesParent(Edges(store), id, parents[i], target);
        return true;
      }
    }
    found := false;
  }

  /** A set closed under parents that contains the start of a path contains its end. */
  lemma {:induction false} ClosedKeepsPath(g: Graph, c: set<Id>, p: seq<Id>)
    requires IsPath(g, p) && p[0] in c
    requires forall n, q :: n in c && (n, q) in g ==> q in c
    ensures p[|p| - 1] in c
    decreases |p|
  {
    if |p| > 1 {
      assert (p[0], p[1]) in g;
      assert IsPath(g, p[1..]) by {
        forall i | 0 <= i < |p[1..]| - 1 ensures (p[1..][i], p[1..][i + 1]) in g {
          assert (p[i + 1], p[i + 2]) in g;
        }
      }
      ClosedKeepsPath(g, c, p[1..]);
    }
  }

  /** The search answers reachability on every finite store, cyclic ones included. */
  method ContainsInAncestry(id: Id, target: Id, store: Store) returns (found: bool)
    ensures found <==> Reaches(Edges(store), id, target)
  {
    var visited := new Visited();
    found := SearchAncestry(id, target, store, visited);
    if !found {
      var c := visited.ids;
      forall p | PathBetween(Edges(store), p, id, target) ensures false {
        ClosedKeepsPath(Edges(store), c, p);
      }
    }
  }

  // ----- validation

  datatype LineageError =
    | MissingOutput
    | NoParents
    | DepthExceeded
    | FanOutExceeded
    | ActorRequired
    | OutputAmongParents
    | WouldCreateCycle
    | AlreadyRegistered

  /** Outcome of validation; an empty output or a missing store skips the checks that need them. */
  ghost function Validated(parents: seq<Id>, depth: int, actor: string, output: Id,
                           store: Option<Store>): Option<LineageError>
  {
    if depth > MAX_LINEAGE_DEPTH then Some(DepthExceeded)
    else if |parents| > MAX_LINEAGE_FANOUT then Some(FanOutExceeded)
    else if actor == "" then Some(ActorRequired)
    else if output != "" && output in parents then Some(OutputAmongParents)
    else if output != "" && store.Some? && Leads(Edges(store.value), parents, output) then Some(WouldCreateCycle)
    else None
  }

  method ValidateLineageGraph(parents: seq<Id>, depth: int, actor: string, output: Id, store: Option<Store>)
    returns (r: Option<LineageError>)
    ensures r == Validated(parents, depth, actor, output, store)
  {
    if depth > MAX_LINEAGE_DEPTH {
      return Some(DepthExceeded);
    }
    if |parents| > MAX_LINEAGE_FANOUT {
      return Some(FanOutExceeded);
    }
    if actor == "" {
      return Some(ActorRequired);
    }
    if output != "" && output in parents {
      return Some(OutputAmongParents);
    }
    if output != "" && store.Some? {
      for i := 0 to |parents|
        invariant forall j :: 0 <= j < i ==> !Reaches(Edges(store.value), parents[j], output)
      {
        var found := ContainsInAncestry(parents[i], output, store.value);
        if found {
          return Some(WouldCreateCycle);
        }
      }
    }
    r := None;
  }

  /** A record is valid exactly when it is at most four deep with at most four parents and an actor and, if its
      output is given, the output is no parent and, if the store is, no parent descends from it. */
  lemma ValidatedIff(parents: seq<Id>, depth: int, actor: string, output: Id, store: Option<Store>)
    ensures Validated(parents, depth, actor, output, store) == None <==>
            && depth <= 4 && |parents| <= 4 && actor != "" && (output in parents ==> output == "")
            && (output != "" && store.Some? ==>
                  forall p :: p in parents ==> !Reaches(Edges(store.value), p, output))
    ensures Validated(parents, depth, actor, output, store).Some? ==>
              match Validated(parents, depth, actor, output, store).value
              case DepthExceeded => depth > 4
              case FanOutExceeded => depth <= 4 && |parents| > 4
              case ActorRequired => |parents| <= 4 && actor == ""
              case OutputAmongParents => actor != "" && output != "" && output in parents
              case WouldCreateCycle => output != "" && output !in parents && store.Some?
              case _ => false
  {
    if store.Some? { LeadsIff(Edges(store.value), parents, output); }
  }

  lemma LeadsIff(g: Graph, parents: seq<Id>, output: Id)
    ensures Leads(g, parents, output) <==> exists p :: p in parents && Reaches(g, p, output)
  {
  }

  // ----- inserting any number of records

  datatype Request = Request(output: Id, parents: seq<Id>, actor: string, digest: string)

  /** The arcs of all records. */
  ghost function Arcs(rs: seq<Request>): Graph
  {
    set i, q | 0 <= i < |rs| && q in rs[i].parents :: (rs[i].output, q)
  }

  lemma ArcsOfConcat(a: seq<Request>, b: seq<Request>)
    ensures Arcs(a + b) == Arcs(a) + Arcs(b)
  {
    forall i, q | 0 <= i < |a| && q in a[i].parents ensures (a[i].output, q) in Arcs(a + b) {
      assert (a + b)[i] == a[i];
    }
    forall i, q | 0 <= i < |b| && q in b[i].parents ensures (b[i].output, q) in Arcs(a + b) {
      assert (a + b)[|a| + i] == b[i];
    }
    forall i, q | 0 <= i < |a + b| && q in (a + b)[i].parents ensures ((a + b)[i].output, q) in Arcs(a) + Arcs(b) {
      assert (a + b)[i] == if i < |a| then a[i] else b[i - |a|];
    }
  }

  /** Request i leads to the output of request j in the graph as it was. */
  ghost predicate LeadsTo(g: Graph, rs: seq<Request>, i: int, j: int)
  {
    0 <= i < |rs| && 0 <= j < |rs| && Leads(g, rs[i].parents, rs[j].output)
  }

  /** A walk among the requests. */
  ghost predicate Chain(g: Graph, rs: seq<Request>, w: seq<int>)
  {
    && w != [] && (forall k :: 0 <= k < |w| ==> 0 <= w[k] < |rs|)
    && (forall k :: 0 <= k < |w| - 1 ==> LeadsTo(g, rs, w[k], w[k + 1]))
  }

  /** Requests that lead to one another in a ring; a ring of one is a request that leads to itself. */
  ghost predicate Ring(g: Graph, rs: seq<Request>, w: seq<int>)
  {
    Chain(g, rs, w) && |w| >= 2 && w[0] == w[|w| - 1]
  }

  /** A path in the grown graph follows old arcs throughout, or runs by old arcs to the output of a request,
      along a chain of requests, and by old arcs from a parent of the last one. */
  ghost predicate Through(g: Graph, rs: seq<Request>, a: Id, b: Id, w: seq<int>)
  {
    Chain(g, rs, w) && Reaches(g, a, rs[w[0]].output) && Leads(g, rs[w[|w| - 1]].parents, b)
  }

  ghost predicate SomeThrough(g: Graph, rs: seq<Request>, a: Id, b: Id)
  {
    exists w :: Through(g, rs, a, b, w)
  }

  lemma ChainFront(g: Graph, rs: seq<Request>, i: int, w: seq<int>)
    requires Chain(g, rs, w) && LeadsTo(g, rs, i, w[0])
    ensures Chain(g, rs, [i] + w)
  {
    var u := [i] + w;
    forall k | 0 <= k < |u| - 1 ensures LeadsTo(g, rs, u[k], u[k + 1]) {
      if k > 0 { assert u[k] == w[k - 1] && u[k + 1] == w[k]; }
    }
  }

  lemma ChainBack(g: Graph, rs: seq<Request>, w: seq<int>, j: int)
    requires Chain(g, rs, w) && LeadsTo(g, rs, w[|w| - 1], j)
    ensures Chain(g, rs, w + [j])
  {
    var u := w + [j];
    forall k | 0 <= k < |u| - 1 ensures LeadsTo(g, rs, u[k], u[k + 1]) {
      if k < |w| - 1 { assert u[k] == w[k] && u[k + 1] == w[k + 1]; }
    }
  }

  /** The first arc of a path in the grown graph is old, or the new arc of some request. */
  lemma FirstArc(g: Graph, rs: seq<Request>, a: Id, q: Id) returns (i: int)
    requires (a, q) in g + Arcs(rs)
    ensures (a, q) in g || (0 <= i < |rs| && a == rs[i].output && q in rs[i].parents)
  {
    i := 0;
    if (a, q) !in g {
      i :| 0 <= i < |rs| && exists p :: p in rs[i].parents && (a, q) == (rs[i].output, p);
    }
  }

  lemma {:induction false} OldOrThrough(g: Graph, rs: seq<Request>, p: seq<Id>)
    requires IsPath(g + Arcs(rs), p)
    ensures Reaches(g, p[0], p[|p| - 1]) || SomeThrough(g, rs, p[0], p[|p| - 1])
    decreases |p|
  {
    var a, b := p[0], p[|p| - 1];
    if |p| == 1 {
      ReachesSelf(g, a);
    } else {
      assert (p[0], p[1]) in g + Arcs(rs);
      forall i | 0 <= i < |p[1..]| - 1 ensures (p[1..][i], p[1..][i + 1]) in g + Arcs(rs) {
        assert (p[i + 1], p[i + 2]) in g + Arcs(rs);
      }
      OldOrThrough(g, rs, p[1..]);
      var i := FirstArc(g, rs, a, p[1]);
      if Reaches(g, p[1], b) {
        OldEnd(g, rs, a, p[1], b, i);
      } else {
        var w :| Through(g, rs, p[1], b, w);
        ThroughEnd(g, rs, a, p[1], b, i, w);
      }
    }
  }

  lemma OldEnd(g: Graph, rs: seq<Request>, a: Id, q: Id, b: Id, i: int)
    requires (a, q) in g || (0 <= i < |rs| && a == rs[i].output && q in rs[i].parents)
    requires Reaches(g, q, b)
    ensures Reaches(g, a, b) || SomeThrough(g, rs, a, b)
  {
    if (a, q) in g {
      ReachesParent(g, a, q, b);
    } else {
      ReachesSelf(g, a);
      assert Through(g, rs, a, b, [i]);
    }
  }

  lemma ThroughEnd(g: Graph, rs: seq<Request>, a: Id, q: Id, b: Id, i: int, w: seq<int>)
    requires (a, q) in g || (0 <= i < |rs| && a == rs[i].output && q in rs[i].parents)
    requires Through(g, rs, q, b, w)
    ensures SomeThrough(g, rs, a, b)
  {
    if (a, q) in g {
      ReachesParent(g, a, q, rs[w[0]].output);
      assert Through(g, rs, a, b, w);
    } else {
      ReachesSelf(g, a);
      ChainFront(g, rs, i, w);
      assert Through(g, rs, a, b, [i] + w);
    }
  }

  /** A cycle of the grown graph is a ring of requests. */
  lemma CycleIsRing(g: Graph, rs: seq<Request>, a: Id, q: Id)
    requires Acyclic(g) && (a, q) in g + Arcs(rs) && Reaches(g + Arcs(rs), q, a)
    ensures exists w :: Ring(g, rs, w)
  {
    var i := FirstArc(g, rs, a, q);
    var p :| PathBetween(g + Arcs(rs), p, q, a);
    OldOrThrough(g, rs, p);
    if Reaches(g, q, a) {
      if (a, q) in g { BackArc(g, a, q); }
      assert LeadsTo(g, rs, i, i);
      assert Ring(g, rs, [i, i]);
    } else {
      var w :| Through(g, rs, q, a, w);
      if (a, q) in g {
        OldArcRing(g, rs, a, q, w);
      } else {
        NewArcRing(g, rs, q, i, w);
      }
    }
  }

  lemma OldArcRing(g: Graph, rs: seq<Request>, a: Id, q: Id, w: seq<int>)
    requires (a, q) in g && Through(g, rs, q, a, w)
    ensures Ring(g, rs, w + [w[0]])
  {
    var r :| r in rs[w[|w| - 1]].parents && Reaches(g, r, a);
    ReachesParent(g, a, q, rs[w[0]].output);
    ReachesJoin(g, r, a, rs[w[0]].output);
    ChainBack(g, rs, w, w[0]);
  }

  lemma NewArcRing(g: Graph, rs: seq<Request>, q: Id, i: int, w: seq<int>)
    requires 0 <= i < |rs| && q in rs[i].parents && Through(g, rs, q, rs[i].output, w)
    ensures Ring(g, rs, [i] + (w + [i]))
  {
    ChainBack(g, rs, w, i);
    ChainFront(g, rs, i, w + [i]);
  }

  /** A chain of requests is a path between their outputs that starts with a new arc. */
  lemma {:induction false} ChainIsPath(g: Graph, rs: seq<Request>, w: seq<int>)
    requires Chain(g, rs, w) && |w| >= 2
    ensures Leads(g + Arcs(rs), rs[w[0]].parents, rs[w[|w| - 1]].output)
    decreases |w|
  {
    var h := g + Arcs(rs);
    var i, j, last := w[0], w[1], rs[w[|w| - 1]].output;
    assert LeadsTo(g, rs, w[0], w[1]);
    var q :| q in rs[i].parents && Reaches(g, q, rs[j].output);
    ReachesMore(g, h, q, rs[j].output);
    if |w| > 2 {
      forall k | 0 <= k < |w[1..]| - 1 ensures LeadsTo(g, rs, w[1..][k], w[1..][k + 1]) {
        assert LeadsTo(g, rs, w[k + 1], w[k + 2]);
      }
      ChainIsPath(g, rs, w[1..]);
      var r :| r in rs[j].parents && Reaches(h, r, last);
      ReachesParent(h, rs[j].output, r, last);
      ReachesJoin(h, q, rs[j].output, last);
    }
  }

  /** Any number of records, for any outputs, new or old, equal or different: adding them to an acyclic graph
      keeps it acyclic exactly when no requests lead to one another in a ring in the graph as it was. */
  lemma InsertAllAcyclicIff(g: Graph, rs: seq<Request>)
    requires Acyclic(g)
    ensures Acyclic(g + Arcs(rs)) <==> !exists w :: Ring(g, rs, w)
  {
    var h := g + Arcs(rs);
    if w :| Ring(g, rs, w) {
      ChainIsPath(g, rs, w);
      var q :| q in rs[w[0]].parents && Reaches(h, q, rs[w[0]].output);
      assert (rs[w[0]].output, q) in Arcs(rs);
      BackArc(h, rs[w[0]].output, q);
    } else {
      forall p | IsPath(h, p) && |p| >= 2 ensures p[0] != p[|p| - 1] {
        if p[0] == p[|p| - 1] {
          assert (p[0], p[1]) in h;
          assert PathBetween(h, p[1..], p[1], p[0]) by {
            forall i | 0 <= i < |p[1..]| - 1 ensures (p[1..][i], p[1..][i + 1]) in h {
              assert (p[i + 1], p[i + 2]) in h;
            }
          }
          CycleIsRing(g, rs, p[0], p[1]);
        }
      }
    }
  }

  /** One record: the graph stays acyclic exactly when no parent leads to the output, even when older records
      already name the output as a parent or are records of it. */
  lemma InsertAcyclicIff(g: Graph, r: Request)
    requires Acyclic(g)
    ensures Acyclic(g + Arcs([r])) <==> !Leads(g, r.parents, r.output)
  {
    InsertAllAcyclicIff(g, [r]);
    if Leads(g, r.parents, r.output) {
      assert LeadsTo(g, [r], 0, 0);
      assert Ring(g, [r], [0, 0]);
    } else if w :| Ring(g, [r], w) {
      RingOfOne(g, [r], w);
    }
  }

  lemma RingOfOne(g: Graph, rs: seq<Request>, w: seq<int>)
    requires |rs| == 1 && Ring(g, rs, w)
    ensures LeadsTo(g, rs, 0, 0)
  {
    assert LeadsTo(g, rs, w[0], w[1]);
  }

  /** Two requests that pass against the same graph and are then both inserted keep it acyclic exactly when
      they do not lead to each other. */
  lemma RacingExact(g: Graph, a: Request, b: Request)
    requires Acyclic(g) && !Leads(g, a.parents, a.output) && !Leads(g, b.parents, b.output)
    ensures Acyclic(g + Arcs([a, b])) <==> !(Leads(g, a.parents, b.output) && Leads(g, b.parents, a.output))
  {
    var rs := [a, b];
    InsertAllAcyclicIff(g, rs);
    if Leads(g, a.parents, b.output) && Leads(g, b.parents, a.output) {
      assert LeadsTo(g, rs, 0, 1) && LeadsTo(g, rs, 1, 0);
      assert Ring(g, rs, [0, 1, 0]);
    } else if w :| Ring(g, rs, w) {
      RingOfTwo(g, rs, w);
    }
  }

  lemma RingOfTwo(g: Graph, rs: seq<Request>, w: seq<int>)
    requires |rs| == 2 && Ring(g, rs, w)
    ensures LeadsTo(g, rs, 0, 0) || LeadsTo(g, rs, 1, 1) || (LeadsTo(g, rs, 0, 1) && LeadsTo(g, rs, 1, 0))
  {
    assert LeadsTo(g, rs, w[0], w[1]);
    if w[0] != w[1] {
      assert LeadsTo(g, rs, w[1], w[2]);
    }
  }

  // ----- one registration at a time

  ghost predicate Refused(r: Request, view: Store)
  {
    r.output == "" || r.parents == [] || Validated(r.parents, 1, r.actor, r.output, Some(view)).Some?
  }

  /** One registration as the endpoint performs it: validate at depth one, refuse duplicates, insert. */
  ghost function Step(store: Store, r: Request): Store
  {
    if Refused(r, store) || r.output in store then store else store[r.output := r.parents]
  }

  ghost function Run(store: Store, rs: seq<Request>): Store
    decreases |rs|
  {
    if rs == [] then store else Run(Step(store, rs[0]), rs[1..])
  }

  lemma EdgesAfter(store: Store, r: Request)
    requires r.output !in store
    ensures Edges(store[r.output := r.parents]) == Edges(store) + Arcs([r])
  {
    var store' := store[r.output := r.parents];
    forall a, b | (a, b) in Edges(store) + Arcs([r]) ensures (a, b) in Edges(store') {
    }
    forall a, b | (a, b) in Edges(store') ensures (a, b) in Edges(store) + Arcs([r]) {
      if a == r.output { assert b in [r][0].parents; }
    }
  }

  lemma StepAcyclic(store: Store, r: Request)
    requires Acyclic(Edges(store))
    ensures Acyclic(Edges(Step(store, r)))
    ensures forall id :: id in store ==> id in Step(store, r) && Step(store, r)[id] == store[id]
  {
    if Step(store, r) != store {
      EdgesAfter(store, r);
      InsertAcyclicIff(Edges(store), r);
    }
  }

  /** Every store reachable by registrations from an acyclic one is acyclic and only grows. */
  lemma {:induction false} RunAcyclic(store: Store, rs: seq<Request>)
    requires Acyclic(Edges(store))
    ensures Acyclic(Edges(Run(store, rs)))
    ensures forall id :: id in store ==> id in Run(store, rs) && Run(store, rs)[id] == store[id]
    decreases |rs|
  {
    if rs != [] {
      StepAcyclic(store, rs[0]);
      RunAcyclic(Step(store, rs[0]), rs[1..]);
    }
  }

  lemma EmptyAcyclic()
    ensures Acyclic({}) && Edges(map[]) == {} && Arcs([]) == {}
  {
    forall p: seq<Id> | |p| >= 2 ensures !IsPath({}, p) {
      NoPathInEmpty({}, p);
    }
  }

  lemma NoPathInEmpty(g: Graph, p: seq<Id>)
    requires g == {} && |p| >= 2
    ensures !IsPath(g, p)
  {
    assert (p[0], p[1]) !in g;
  }

  class Registry {
    var store: Store

    constructor ()
      ensures store == map[] && Acyclic(Edges(store))
    {
      store := map[];
      EmptyAcyclic();
    }

    method Register(r: Request) returns (refused: Option<LineageError>)
      requires Acyclic(Edges(store))
      modifies this
      ensures store == Step(old(store), r) && Acyclic(Edges(store))
      ensures refused.None? <==> r.output != "" && r.output !in old(store) && r.actor != "" &&
                                 1 <= |r.parents| <= 4 &&
                                 !Leads(Edges(old(store)), r.parents, r.output)
      ensures refused.Some? ==> store == old(store)
    {
      StepAcyclic(store, r);
      if r.output in r.parents { ReachesSelf(Edges(store), r.output); }
      if r.output == "" {
        return Some(MissingOutput);
      }
      if |r.parents| == 0 {
        return Some(NoParents);
      }
      refused := ValidateLineageGraph(r.parents, 1, r.actor, r.output, Some(store));
      if refused.Some? {
        return;
      }
      if r.output in store {
        return Some(AlreadyRegistered);
      }
      store := store[r.output := r.parents];
    }
  }

  // ----- the depth limit

  function Name(k: nat): (s: Id)
    ensures |s| == k + 1
  {
    seq(k + 1, _ => 'x')
  }

  /** A request for output k with output k-1 as its only parent. */
  function Link(k: nat): Request
    requires k > 0
  {
    Request(Name(k), [Name(k - 1)], "actor", "")
  }

  function Links(n: nat): (rs: seq<Request>)
    ensures |rs| == n
  {
    if n == 0 then [] else Links(n - 1) + [Link(n)]
  }

  function Names(n: nat): (p: seq<Id>)
    ensures |p| == n + 1 && p[0] == Name(n)
  {
    if n == 0 then [Name(0)] else [Name(n)] + Names(n - 1)
  }

  lemma {:induction false} RunSnoc(store: Store, rs: seq<Request>, r: Request)
    ensures Run(store, rs + [r]) == Step(Run(store, rs), r)
    decreases |rs|
  {
    if rs == [] {
      assert [] + [r] == [r] && [r][1..] == [];
    } else {
      assert (rs + [r])[1..] == rs[1..] + [r];
      RunSnoc(Step(store, rs[0]), rs[1..], r);
    }
  }

  /** What is reached from elsewhere is somebody's parent. */
  lemma LastArc(g: Graph, a: Id, target: Id)
    requires a != target && Reaches(g, a, target)
    ensures exists x :: (x, target) in g
  {
    var p :| PathBetween(g, p, a, target);
    assert (p[|p| - 2], p[|p| - 1]) in g;
  }

  /** Records so far concern the first n outputs only. */
  ghost predicate Below(store: Store, n: nat)
  {
    forall id :: id in store ==> |id| <= n + 1 && forall q :: q in store[id] ==> |q| <= n
  }

  /** The depth limit never refuses: each record is validated at depth one, so for every n a chain of n
      records is registered, far beyond the limit of four. */
  lemma {:induction false} AnyDepthRegisters(n: nat)
    ensures var store := Run(map[], Links(n));
            Below(store, n) && IsPath(Edges(store), Names(n)) && |Names(n)| == n + 1
  {
    if n > 0 {
      AnyDepthRegisters(n - 1);
      var store, r := Run(map[], Links(n - 1)), Link(n);
      RunSnoc(map[], Links(n - 1), r);
      LinkAccepted(store, n);
      EdgesAfter(store, r);
      assert (Name(n), Name(n - 1)) in Arcs([r]) by { assert Name(n - 1) in [r][0].parents; }
      Longer(Edges(store), Edges(Step(store, r)), n);
    }
  }

  lemma LinkAccepted(store: Store, n: nat)
    requires n > 0 && Below(store, n - 1)
    ensures Link(n).output !in store && Step(store, Link(n)) == store[Name(n) := [Name(n - 1)]]
    ensures Below(Step(store, Link(n)), n)
  {
    var g, r := Edges(store), Link(n);
    assert forall x :: (x, r.output) !in g;
    if Reaches(g, Name(n - 1), r.output) { LastArc(g, Name(n - 1), r.output); }
    assert |"actor"| == 5 && |r.output| == n + 1;
    assert !Leads(g, r.parents, r.output);
  }

  lemma Longer(g: Graph, h: Graph, n: nat)
    requires n > 0 && g <= h && (Name(n), Name(n - 1)) in h && IsPath(g, Names(n - 1))
    ensures IsPath(h, Names(n))
  {
    forall i | 0 <= i < |Names(n)| - 1 ensures (Names(n)[i], Names(n)[i + 1]) in h {
      if i > 0 { assert (Names(n - 1)[i - 1], Names(n - 1)[i]) in g; }
    }
  }
}
