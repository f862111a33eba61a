/** The chain indexer: pages of contract events are decoded, inserted idempotently, announced through
    webhooks and followed by a saved cursor; any step may be the last one before a crash. */
module ChainIndexer {
  import opened Outcomes

  /** The uniqueness key of an indexed event. */
  datatype EventKey = EventKey(txHash: string, index: int)

  datatype Decoded = Decoded(key: EventKey, content: string)

  type Raw = string

  /** Recognises lifecycle events and decodes them. */
  type Decoder = Raw -> Option<Decoded>

  datatype Row = Row(id: nat, key: EventKey, content: string)

  predicate HasKey(rows: seq<Row>, key: EventKey)
  {
    exists i :: 0 <= i < |rows| && rows[i].key == key
  }

  /** No two rows share a key, and identifiers grow. */
  predicate Unique(rows: seq<Row>, nextId: nat)
  {
    && (forall i, j :: 0 <= i < j < |rows| ==> rows[i].key != rows[j].key && rows[i].id < rows[j].id)
    && (forall i :: 0 <= i < |rows| ==> rows[i].id < nextId)
  }

  /** A recognised event has a row. */
  predicate Recorded(rows: seq<Row>, decode: Decoder, raw: Raw)
  {
    decode(raw).Some? ==> HasKey(rows, decode(raw).value.key)
  }

  datatype Summary = Summary(scanned: nat, indexed: nat, skipped: nat, duplicates: nat)

  predicate Balanced(s: Summary)
  {
    s.scanned == s.indexed + s.skipped + s.duplicates
  }

  // ----- the tables and one batch

  /** The rows, the next identifier, and whether an insert that meets an existing key uses up an identifier all the
      same: it does in the database, whose identifiers come from a sequence, and not in the in-memory table. */
  datatype Table = Table(rows: seq<Row>, nextId: nat, burns: bool)

  /** The table after one recognised event: a row already under its key keeps its content. */
  function AddEvent(t: Table, d: Decoded): Table
  {
    if HasKey(t.rows, d.key) then t.(nextId := t.nextId + if t.burns then 1 else 0)
    else t.(rows := t.rows + [Row(t.nextId, d.key, d.content)], nextId := t.nextId + 1)
  }

  /** The table after a page of events, in order. */
  function AddAll(t: Table, decode: Decoder, events: seq<Raw>): Table
    decreases |events|
  {
    if events == [] then t
    else if decode(events[0]).None? then AddAll(t, decode, events[1..])
    else AddAll(AddEvent(t, decode(events[0]).value), decode, events[1..])
  }

  function Unrecognised(decode: Decoder, events: seq<Raw>): nat
  {
    if events == [] then 0 else (if decode(events[0]).None? then 1 else 0) + Unrecognised(decode, events[1..])
  }

  lemma OneEvent(t: Table, decode: Decoder, events: seq<Raw>, n: nat)
    requires n < |events|
    ensures var d := decode(events[n]);
            && AddAll(t, decode, events[n..]) ==
                 (if d.None? then AddAll(t, decode, events[n + 1..])
                  else AddAll(AddEvent(t, d.value), decode, events[n + 1..]))
            && Unrecognised(decode, events[n..]) == (if d.None? then 1 else 0) + Unrecognised(decode, events[n + 1..])
  {
    assert events[n..][0] == events[n] && events[n..][1..] == events[n + 1..];
  }

  predicate IsRowId(rows: seq<Row>, id: nat)
  {
    exists i :: 0 <= i < |rows| && rows[i].id == id
  }

  predicate RowWithId(rows: seq<Row>, key: EventKey, id: nat)
  {
    exists i :: 0 <= i < |rows| && rows[i].key == key && rows[i].id == id
  }

  class EventStore {
    var rows: seq<Row>
    var nextId: nat
    var queued: seq<nat>
    const burns: bool

    function Contents(): Table
      reads this
    {
      Table(rows, nextId, burns)
    }

    /** Insert unless a row with the key exists; an existing row keeps its content. */
    method InsertIndexed(d: Decoded) returns (id: nat, created: bool)
      modifies this
      ensures Contents() == AddEvent(old(Contents()), d) && queued == old(queued)
      ensures created <==> !HasKey(old(rows), d.key)
      ensures RowWithId(rows, d.key, id) && (created ==> id == old(nextId))
    {
      for i := 0 to |rows|
        invariant Contents() == old(Contents()) && queued == old(queued)
        invariant forall j :: 0 <= j < i ==> rows[j].key != d.key
      {
        if rows[i].key == d.key {
          nextId := nextId + if burns then 1 else 0;
          return rows[i].id, false;
        }
      }
      id, created := nextId, true;
      rows := rows + [Row(id, d.key, d.content)];
      nextId := nextId + 1;
      assert rows[|rows| - 1].key == d.key;
    }

    /** Insert one recognised event and queue webhooks for a new row; `queueFails` says for which rows queueing
        raises, which is only logged. */
    method Record(d: Decoded, queueFails: nat -> bool) returns (created: bool)
      modifies this
      ensures Contents() == AddEvent(old(Contents()), d)
      ensures rows == if created then old(rows) + [Row(old(nextId), d.key, d.content)] else old(rows)
      ensures queued == if created && !queueFails(old(nextId)) then old(queued) + [old(nextId)] else old(queued)
    {
      var id;
      id, created := InsertIndexed(d);
      if created && !queueFails(id) {
        queued := queued + [id];
      }
    }

    /** Ingest one page. */
    method ProcessEventsBatch(events: seq<Raw>, decode: Decoder, queueFails: nat -> bool) returns (s: Summary)
      modifies this
      ensures Contents() == AddAll(old(Contents()), decode, events)
      ensures s.scanned == |events| && s.skipped == Unrecognised(decode, events) && Balanced(s)
      ensures old(rows) <= rows && |rows| == |old(rows)| + s.indexed
      ensures queued == QueuedAfter(old(queued), rows[|old(rows)|..], queueFails)
    {
      s := Summary(0, 0, 0, 0);
      for n := 0 to |events|
        invariant AddAll(Contents(), decode, events[n..]) == AddAll(old(Contents()), decode, events)
        invariant s.scanned == n && Balanced(s)
        invariant s.skipped + Unrecognised(decode, events[n..]) == Unrecognised(decode, events)
        invariant old(rows) <= rows && |rows| == |old(rows)| + s.indexed
        invariant queued == QueuedAfter(old(queued), rows[|old(rows)|..], queueFails)
      {
        OneEvent(Contents(), decode, events, n);
        s := s.(scanned := s.scanned + 1);
        var decoded := decode(events[n]);
        if decoded.None? {
          s := s.(skipped := s.skipped + 1);
        } else {
          ghost var row := Row(nextId, decoded.value.key, decoded.value.content);
          QueueNext(old(queued), rows, |old(rows)|, row, queueFails);
          var created := Record(decoded.value, queueFails);
          if created {
            s := s.(indexed := s.indexed + 1);
          } else {
            s := s.(duplicates := s.duplicates + 1);
          }
        }
      }
    }
  }

  /** Webhooks queued for exactly the added rows whose queueing does not raise, once each and in order. */
  function QueuedAfter(before: seq<nat>, added: seq<Row>, fails: nat -> bool): seq<nat>
  {
    if added == [] then before
    else
      var rest := QueuedAfter(before, added[..|added| - 1], fails);
      var id := added[|added| - 1].id;
      if fails(id) then rest else rest + [id]
  }

  lemma QueueNext(before: seq<nat>, rows: seq<Row>, from: nat, row: Row, fails: nat -> bool)
    requires from <= |rows|
    ensures var q := QueuedAfter(before, rows[from..], fails);
            QueuedAfter(before, (rows + [row])[from..], fails) == if fails(row.id) then q else q + [row.id]
  {
    var added := (rows + [row])[from..];
    assert added[..|added| - 1] == rows[from..] && added[|added| - 1] == row;
  }

  /** A page keeps keys unique and identifiers growing. Identifiers are used up by the new rows alone, or by every
      recognised event where a conflicting insert burns one. */
  lemma {:induction false} AddAllUnique(t: Table, decode: Decoder, events: seq<Raw>)
    requires Unique(t.rows, t.nextId)
    ensures var t' := AddAll(t, decode, events);
            && Unique(t'.rows, t'.nextId)
            && t'.nextId - t.nextId ==
                 if t.burns then |events| - Unrecognised(decode, events) else |t'.rows| - |t.rows|
    decreases |events|
  {
    if events != [] {
      if decode(events[0]).None? {
        AddAllUnique(t, decode, events[1..]);
      } else {
        UniqueStays(t, decode(events[0]).value);
        AddAllUnique(AddEvent(t, decode(events[0]).value), decode, events[1..]);
      }
    }
  }

  lemma AddedHasKey(t: Table, d: Decoded)
    ensures t.rows <= AddEvent(t, d).rows && HasKey(AddEvent(t, d).rows, d.key)
    ensures AddEvent(t, d).rows != t.rows ==> IsRowId(AddEvent(t, d).rows, t.nextId)
  {
    if !HasKey(t.rows, d.key) {
      var row := AddEvent(t, d).rows[|t.rows|];
      assert row.key == d.key && row.id == t.nextId;
    }
  }

  /** A page leaves earlier rows alone and every recognised event of it with a row. */
  lemma {:induction false} AddAllRecords(t: Table, decode: Decoder, events: seq<Raw>)
    ensures t.rows <= AddAll(t, decode, events).rows
    ensures forall i :: 0 <= i < |events| ==> Recorded(AddAll(t, decode, events).rows, decode, events[i])
    decreases |events|
  {
    if events != [] {
      var out := AddAll(t, decode, events).rows;
      if decode(events[0]).None? {
        AddAllRecords(t, decode, events[1..]);
      } else {
        var t' := AddEvent(t, decode(events[0]).value);
        AddAllRecords(t', decode, events[1..]);
        AddedHasKey(t, decode(events[0]).value);
        KeepsRecorded(t'.rows, out, decode, events[0]);
      }
      forall i | 1 <= i < |events| ensures Recorded(out, decode, events[i]) {
        assert events[i] == events[1..][i - 1];
      }
    }
  }

  lemma {:induction false} AddAllAgain(t: Table, decode: Decoder, events: seq<Raw>)
    requires forall i :: 0 <= i < |events| ==> Recorded(t.rows, decode, events[i])
    ensures AddAll(t, decode, events).rows == t.rows
    decreases |events|
  {
    if events != [] {
      assert Recorded(t.rows, decode, events[0]);
      forall i | 0 <= i < |events[1..]| ensures Recorded(t.rows, decode, events[1..][i]) {
        assert Recorded(t.rows, decode, events[i + 1]);
      }
      if decode(events[0]).None? {
        AddAllAgain(t, decode, events[1..]);
      } else {
        AddAllAgain(AddEvent(t, decode(events[0]).value), decode, events[1..]);
      }
    }
  }

  /** Ingesting a page a second time, after any other pages, adds and changes no row. */
  lemma ReplayAddsNothing(t: Table, decode: Decoder, events: seq<Raw>, between: seq<Raw>)
    ensures var t' := AddAll(AddAll(t, decode, events), decode, between);
            AddAll(t', decode, events).rows == t'.rows
  {
    var once := AddAll(t, decode, events);
    var t' := AddAll(once, decode, between);
    AddAllRecords(t, decode, events);
    AddAllRecords(once, decode, between);
    forall i | 0 <= i < |events| ensures Recorded(t'.rows, decode, events[i]) {
      KeepsRecorded(once.rows, t'.rows, decode, events[i]);
    }
    AddAllAgain(t', decode, events);
  }

  lemma KeepsRecorded(rows: seq<Row>, rows': seq<Row>, decode: Decoder, raw: Raw)
    requires rows <= rows' && Recorded(rows, decode, raw)
    ensures Recorded(rows', decode, raw)
  {
    if decode(raw).Some? {
      var i :| 0 <= i < |rows| && rows[i].key == decode(raw).value.key;
      assert rows'[i].key == decode(raw).value.key;
    }
  }

  // ----- polls that may crash between any two commits

  /** A poll in progress over the page chain[start..end]: the next event, a row whose webhooks are still to be
      queued, and the running summary. */
  datatype Poll = Poll(start: nat, end: nat, pos: nat, toQueue: Option<nat>, summary: Summary)

  /** What the database holds, the recognised events ingested so far in order, the rows whose webhooks were not
      queued because queueing raised or a crash came first, and the position `base` of the first page whose
      cursor was saved. */
  datatype State = State(table: Table, queued: seq<nat>, seen: seq<Decoded>, missed: set<nat>, cursor: Option<nat>,
                         base: nat, poll: Option<Poll>)

  function Start(firstId: nat, burns: bool): State
  {
    State(Table([], firstId, burns), [], [], {}, None, 0, None)
  }

  datatype Action =
    | Fetch(start: nat, end: nat)
    | Ingest
    | QueueWebhooks(raises: bool)
    | FinishPoll(saves: bool)
    | Crash

  /** The remote service returns contiguous pages: from the saved cursor if there is one. */
  predicate Allowed(chain: seq<Raw>, s: State, a: Action)
  {
    match a
    case Fetch(start, end) => s.poll.None? && start <= end <= |chain| && (s.cursor.Some? ==> start == s.cursor.value)
    case Ingest => s.poll.Some? && s.poll.value.toQueue.None? && s.poll.value.pos < s.poll.value.end <= |chain|
    case QueueWebhooks(_) => s.poll.Some? && s.poll.value.toQueue.Some?
    case FinishPoll(_) => s.poll.Some? && s.poll.value.toQueue.None? && s.poll.value.pos == s.poll.value.end
    case Crash => true
  }

  function IngestOne(s: State, p: Poll, decoded: Option<Decoded>): State
  {
    var sum := p.summary.(scanned := p.summary.scanned + 1);
    if decoded.None? then
      s.(poll := Some(p.(pos := p.pos + 1, summary := sum.(skipped := sum.skipped + 1))))
    else
      var t := AddEvent(s.table, decoded.value);
      var created := |t.rows| != |s.table.rows|;
      s.(table := t, seen := s.seen + [decoded.value],
         poll := Some(p.(pos := p.pos + 1, toQueue := if created then Some(s.table.nextId) else None,
                         summary := if created then sum.(indexed := sum.indexed + 1)
                                    else sum.(duplicates := sum.duplicates + 1))))
  }

  /** The row that is waiting for its webhooks, if any. */
  function ToQueue(s: State): set<nat>
  {
    if s.poll.Some? && s.poll.value.toQueue.Some? then {s.poll.value.toQueue.value} else {}
  }

  function Step(chain: seq<Raw>, decode: Decoder, s: State, a: Action): State
    requires Allowed(chain, s, a)
  {
    match a
    case Fetch(start, end) => s.(poll := Some(Poll(start, end, start, None, Summary(0, 0, 0, 0))))
    case Ingest => IngestOne(s, s.poll.value, decode(chain[s.poll.value.pos]))
    case QueueWebhooks(raises) =>
      s.(queued := if raises then s.queued else s.queued + [s.poll.value.toQueue.value],
         missed := if raises then s.missed + {s.poll.value.toQueue.value} else s.missed,
         poll := Some(s.poll.value.(toQueue := None)))
    case FinishPoll(saves) =>
      if !saves then s.(poll := None)
      else s.(cursor := Some(s.poll.value.end), base := if s.cursor.Some? then s.base else s.poll.value.start,
              poll := None)
    case Crash => s.(missed := s.missed + ToQueue(s), poll := None)
  }

  /** A poll carried through without a crash, webhooks queued as rows are created. */
  function Complete(chain: seq<Raw>, decode: Decoder, s: State): State
    requires s.poll.Some? && s.poll.value.pos <= s.poll.value.end <= |chain|
    decreases s.poll.value.end - s.poll.value.pos, s.poll.value.toQueue.Some?
  {
    if s.poll.value.toQueue.Some? then Complete(chain, decode, Step(chain, decode, s, QueueWebhooks(false)))
    else if s.poll.value.pos < s.poll.value.end then Complete(chain, decode, Step(chain, decode, s, Ingest))
    else s
  }

  /** Such a poll does to the table what the batch does with the page. */
  lemma {:induction false} CompleteIsBatch(chain: seq<Raw>, decode: Decoder, s: State)
    requires s.poll.Some? && s.poll.value.pos <= s.poll.value.end <= |chain|
    ensures var s', p := Complete(chain, decode, s), s.poll.value;
            && s'.table == AddAll(s.table, decode, chain[p.pos..p.end])
            && s'.poll.Some? && s'.poll.value.pos == s'.poll.value.end == p.end && s'.poll.value.toQueue.None?
            && s'.poll.value.start == p.start && s'.cursor == s.cursor && s'.missed == s.missed
            && s'.poll.value.summary.scanned == p.summary.scanned + p.end - p.pos
            && s'.poll.value.summary.skipped == p.summary.skipped + Unrecognised(decode, chain[p.pos..p.end])
            && s'.poll.value.summary.indexed == p.summary.indexed + |s'.table.rows| - |s.table.rows|
            && (Balanced(p.summary) ==> Balanced(s'.poll.value.summary))
    decreases s.poll.value.end - s.poll.value.pos, s.poll.value.toQueue.Some?
  {
    var p := s.poll.value;
    if p.toQueue.Some? {
      CompleteIsBatch(chain, decode, Step(chain, decode, s, QueueWebhooks(false)));
    } else if p.pos < p.end {
      CompleteIsBatch(chain, decode, Step(chain, decode, s, Ingest));
      var page := chain[p.pos..p.end];
      assert page[0] == chain[p.pos] && page[1..] == chain[p.pos + 1..p.end];
    }
  }

  /** Between polls any page from the cursor on, an empty one included, can be polled and saved: it is ingested as a
      batch, counted, and the cursor moves to its end. */
  lemma PollOnce(chain: seq<Raw>, decode: Decoder, s: State, start: nat, end: nat)
    requires s.poll.None? && start <= end <= |chain| && (s.cursor.Some? ==> start == s.cursor.value)
    ensures Allowed(chain, s, Fetch(start, end))
    ensures var mid := Complete(chain, decode, Step(chain, decode, s, Fetch(start, end)));
            && Allowed(chain, mid, FinishPoll(true)) && Balanced(mid.poll.value.summary)
            && var after := Step(chain, decode, mid, FinishPoll(true));
            && after.table == AddAll(s.table, decode, chain[start..end]) && after.missed == s.missed
            && after.cursor == Some(end) && after.poll.None?
            && mid.poll.value.summary.scanned == end - start
            && mid.poll.value.summary.indexed == |after.table.rows| - |s.table.rows|
  {
    CompleteIsBatch(chain, decode, Step(chain, decode, s, Fetch(start, end)));
  }

  predicate Covered(chain: seq<Raw>, decode: Decoder, rows: seq<Row>, lo: nat, hi: nat)
    requires hi <= |chain|
  {
    forall i :: lo <= i < hi ==> Recorded(rows, decode, chain[i])
  }

  /** Every row holds what some event of the chain decodes to. */
  ghost predicate FromChain(chain: seq<Raw>, decode: Decoder, rows: seq<Row>)
  {
    forall i :: 0 <= i < |rows| ==>
      exists k :: 0 <= k < |chain| && decode(chain[k]) == Some(Decoded(rows[i].key, rows[i].content))
  }

  /** The row holds the content of the first event ingested under its key. */
  ghost predicate HoldsFirst(seen: seq<Decoded>, row: Row, k: int)
  {
    && 0 <= k < |seen| && seen[k] == Decoded(row.key, row.content)
    && forall j :: 0 <= j < k ==> seen[j].key != row.key
  }

  ghost predicate IsFirst(seen: seq<Decoded>, row: Row)
  {
    exists k :: HoldsFirst(seen, row, k)
  }

  ghost predicate FirstContents(rows: seq<Row>, seen: seq<Decoded>)
  {
    && (forall i :: 0 <= i < |rows| ==> IsFirst(seen, rows[i]))
    && (forall k :: 0 <= k < |seen| ==> HasKey(rows, seen[k].key))
  }

  lemma FirstContentsStay(t: Table, seen: seq<Decoded>, d: Decoded)
    requires FirstContents(t.rows, seen)
    ensures FirstContents(AddEvent(t, d).rows, seen + [d])
  {
    var rows, rows', seen' := t.rows, AddEvent(t, d).rows, seen + [d];
    AddedHasKey(t, d);
    forall i | 0 <= i < |rows'| ensures IsFirst(seen', rows'[i]) {
      if i < |rows| {
        assert IsFirst(seen, rows[i]);
        var k :| HoldsFirst(seen, rows[i], k);
        assert HoldsFirst(seen', rows'[i], k);
      } else {
        forall j | 0 <= j < |seen| ensures seen[j].key != d.key {
          assert HasKey(rows, seen[j].key);
        }
        assert HoldsFirst(seen', rows'[i], |seen|);
      }
    }
    forall k | 0 <= k < |seen'| ensures HasKey(rows', seen'[k].key) {
      if k < |seen| {
        assert HasKey(rows, seen[k].key);
        KeyStays(rows, rows', seen[k].key);
      }
    }
  }

  lemma KeyStays(rows: seq<Row>, rows': seq<Row>, key: EventKey)
    requires rows <= rows' && HasKey(rows, key)
    ensures HasKey(rows', key)
  {
    var i :| 0 <= i < |rows| && rows[i].key == key;
    assert rows'[i].key == key;
  }

  ghost predicate TableInv(chain: seq<Raw>, decode: Decoder, t: Table, seen: seq<Decoded>)
  {
    Unique(t.rows, t.nextId) && FromChain(chain, decode, t.rows) && FirstContents(t.rows, seen)
  }

  /** Webhooks are queued for rows, in the order of the rows and once each. */
  ghost predicate QueueInv(rows: seq<Row>, queued: seq<nat>)
  {
    && (forall i, j :: 0 <= i < j < |queued| ==> queued[i] < queued[j])
    && (forall i :: 0 <= i < |queued| ==> IsRowId(rows, queued[i]))
  }

  predicate AllBelow(queued: seq<nat>, id: nat)
  {
    forall i :: 0 <= i < |queued| ==> queued[i] < id
  }

  ghost predicate PollInv(chain: seq<Raw>, decode: Decoder, s: State, p: Poll)
  {
    && p.start <= p.pos <= p.end <= |chain|
    && (s.cursor.Some? ==> p.start == s.cursor.value)
    && Covered(chain, decode, s.table.rows, p.start, p.pos)
    && Balanced(p.summary) && p.summary.scanned == p.pos - p.start
    && (p.toQueue.Some? ==> IsRowId(s.table.rows, p.toQueue.value) && AllBelow(s.queued, p.toQueue.value))
  }

  ghost predicate Inv(chain: seq<Raw>, decode: Decoder, s: State)
  {
    && TableInv(chain, decode, s.table, s.seen)
    && QueueInv(s.table.rows, s.queued)
    && (s.cursor.Some? ==>
          s.base <= s.cursor.value <= |chain| && Covered(chain, decode, s.table.rows, s.base, s.cursor.value))
    && (s.poll.Some? ==> PollInv(chain, decode, s, s.poll.value))
  }

  lemma TableAfter(chain: seq<Raw>, decode: Decoder, t: Table, seen: seq<Decoded>, k: nat, d: Decoded)
    requires TableInv(chain, decode, t, seen) && k < |chain| && decode(chain[k]) == Some(d)
    ensures TableInv(chain, decode, AddEvent(t, d), seen + [d])
  {
    FirstContentsStay(t, seen, d);
    UniqueStays(t, d);
    FromChainStays(chain, decode, t, k, d);
  }

  lemma UniqueStays(t: Table, d: Decoded)
    requires Unique(t.rows, t.nextId)
    ensures Unique(AddEvent(t, d).rows, AddEvent(t, d).nextId)
  {
  }

  lemma FromChainStays(chain: seq<Raw>, decode: Decoder, t: Table, k: nat, d: Decoded)
    requires FromChain(chain, decode, t.rows) && k < |chain| && decode(chain[k]) == Some(d)
    ensures FromChain(chain, decode, AddEvent(t, d).rows)
  {
  }

  lemma CoveredStays(chain: seq<Raw>, decode: Decoder, rows: seq<Row>, rows': seq<Row>, lo: nat, hi: nat)
    requires hi <= |chain| && rows <= rows' && Covered(chain, decode, rows, lo, hi)
    ensures Covered(chain, decode, rows', lo, hi)
  {
    forall i | lo <= i < hi ensures Recorded(rows', decode, chain[i]) {
      KeepsRecorded(rows, rows', decode, chain[i]);
    }
  }

  lemma QueueStays(rows: seq<Row>, rows': seq<Row>, queued: seq<nat>)
    requires rows <= rows' && QueueInv(rows, queued)
    ensures QueueInv(rows', queued)
  {
    forall i | 0 <= i < |queued| ensures IsRowId(rows', queued[i]) {
      assert IsRowId(rows, queued[i]);
      var j :| 0 <= j < |rows| && rows[j].id == queued[i];
      assert rows'[j].id == queued[i];
    }
  }

  lemma QueueBelowNext(rows: seq<Row>, nextId: nat, queued: seq<nat>)
    requires Unique(rows, nextId) && QueueInv(rows, queued)
    ensures AllBelow(queued, nextId)
  {
    forall i | 0 <= i < |queued| ensures queued[i] < nextId {
      assert IsRowId(rows, queued[i]);
    }
  }

  lemma CoveredNext(chain: seq<Raw>, decode: Decoder, t: Table, lo: nat, pos: nat)
    requires pos < |chain| && decode(chain[pos]).Some? && Covered(chain, decode, t.rows, lo, pos)
    ensures Covered(chain, decode, AddEvent(t, decode(chain[pos]).value).rows, lo, pos + 1)
  {
    AddedHasKey(t, decode(chain[pos]).value);
    CoveredStays(chain, decode, t.rows, AddEvent(t, decode(chain[pos]).value).rows, lo, pos);
  }

  lemma RecordKeepsInv(chain: seq<Raw>, decode: Decoder, s: State, p: Poll, d: Decoded)
    requires Inv(chain, decode, s) && s.poll == Some(p) && p.toQueue.None?
    requires p.pos < p.end && decode(chain[p.pos]) == Some(d)
    ensures Inv(chain, decode, IngestOne(s, p, Some(d)))
  {
    var rows' := AddEvent(s.table, d).rows;
    TableAfter(chain, decode, s.table, s.seen, p.pos, d);
    AddedHasKey(s.table, d);
    QueueStays(s.table.rows, rows', s.queued);
    QueueBelowNext(s.table.rows, s.table.nextId, s.queued);
    CoveredNext(chain, decode, s.table, p.start, p.pos);
    if s.cursor.Some? { CoveredStays(chain, decode, s.table.rows, rows', s.base, s.cursor.value); }
  }

  lemma IngestKeepsInv(chain: seq<Raw>, decode: Decoder, s: State)
    requires Inv(chain, decode, s) && Allowed(chain, s, Ingest)
    ensures Inv(chain, decode, Step(chain, decode, s, Ingest))
  {
    var p := s.poll.value;
    if decode(chain[p.pos]).Some? { RecordKeepsInv(chain, decode, s, p, decode(chain[p.pos]).value); }
  }

  lemma QueueKeepsInv(chain: seq<Raw>, decode: Decoder, s: State, a: Action)
    requires Inv(chain, decode, s) && Allowed(chain, s, a) && a.QueueWebhooks?
    ensures Inv(chain, decode, Step(chain, decode, s, a))
  {
    QueueGrows(s.table.rows, s.queued, s.poll.value.toQueue.value);
  }

  lemma QueueGrows(rows: seq<Row>, queued: seq<nat>, id: nat)
    requires QueueInv(rows, queued) && IsRowId(rows, id) && AllBelow(queued, id)
    ensures QueueInv(rows, queued + [id])
  {
  }

  lemma CursorKeepsInv(chain: seq<Raw>, decode: Decoder, s: State, a: Action)
    requires Inv(chain, decode, s) && Allowed(chain, s, a) && !a.Ingest? && !a.QueueWebhooks?
    ensures Inv(chain, decode, Step(chain, decode, s, a))
  {
  }

  lemma StepKeepsInv(chain: seq<Raw>, decode: Decoder, s: State, a: Action)
    requires Inv(chain, decode, s) && Allowed(chain, s, a)
    ensures Inv(chain, decode, Step(chain, decode, s, a))
    ensures s.table.rows <= Step(chain, decode, s, a).table.rows
    ensures s.cursor.Some? ==>
              var s' := Step(chain, decode, s, a);
              s'.cursor.Some? && s.cursor.value <= s'.cursor.value && s'.base == s.base
  {
    match a
    case Ingest => IngestKeepsInv(chain, decode, s);
    case QueueWebhooks(_) => QueueKeepsInv(chain, decode, s, a);
    case _ => CursorKeepsInv(chain, decode, s, a);
  }

  ghost predicate AllowedRun(chain: seq<Raw>, decode: Decoder, s: State, run: seq<Action>)
    decreases |run|
  {
    run == [] || (Allowed(chain, s, run[0]) && AllowedRun(chain, decode, Step(chain, decode, s, run[0]), run[1..]))
  }

  ghost function Run(chain: seq<Raw>, decode: Decoder, s: State, run: seq<Action>): State
    requires AllowedRun(chain, decode, s, run)
    decreases |run|
  {
    if run == [] then s else Run(chain, decode, Step(chain, decode, s, run[0]), run[1..])
  }

  lemma RunCons(chain: seq<Raw>, decode: Decoder, s: State, a: Action, rest: seq<Action>)
    requires Allowed(chain, s, a) && AllowedRun(chain, decode, Step(chain, decode, s, a), rest)
    ensures AllowedRun(chain, decode, s, [a] + rest)
    ensures Run(chain, decode, s, [a] + rest) == Run(chain, decode, Step(chain, decode, s, a), rest)
  {
    assert ([a] + rest)[1..] == rest;
  }

  /** Over every run rows are only ever added, never changed, and the cursor never moves back. */
  lemma {:induction false} RunKeepsInv(chain: seq<Raw>, decode: Decoder, s: State, run: seq<Action>)
    requires Inv(chain, decode, s) && AllowedRun(chain, decode, s, run)
    ensures Inv(chain, decode, Run(chain, decode, s, run))
    ensures s.table.rows <= Run(chain, decode, s, run).table.rows
    ensures s.cursor.Some? ==>
              var s' := Run(chain, decode, s, run);
              s'.cursor.Some? && s.cursor.value <= s'.cursor.value && s'.base == s.base
    decreases |run|
  {
    if run != [] {
      StepKeepsInv(chain, decode, s, run[0]);
      RunKeepsInv(chain, decode, Step(chain, decode, s, run[0]), run[1..]);
    }
  }

  /** The row at position i is the only one with the key. */
  ghost predicate OnlyRow(rows: seq<Row>, key: EventKey, i: nat)
  {
    && i < |rows| && rows[i].key == key
    && (forall j :: 0 <= j < |rows| && rows[j].key == key ==> j == i)
  }

  /** However polls fail, every recognised event from the first saved page up to the saved cursor has exactly
      one row, rows hold the first content ingested under their key, webhooks are queued at most once per row, and
      no batch loses count. */
  lemma EveryRun(chain: seq<Raw>, decode: Decoder, firstId: nat, burns: bool, run: seq<Action>)
    requires AllowedRun(chain, decode, Start(firstId, burns), run)
    ensures var s := Run(chain, decode, Start(firstId, burns), run);
            && (s.cursor.Some? ==> s.base <= s.cursor.value <= |chain|)
            && (forall k :: s.cursor.Some? && s.base <= k < s.cursor.value && decode(chain[k]).Some? ==>
                  exists i :: OnlyRow(s.table.rows, decode(chain[k]).value.key, i))
            && FromChain(chain, decode, s.table.rows) && FirstContents(s.table.rows, s.seen)
            && (forall i, j :: 0 <= i < j < |s.queued| ==> s.queued[i] != s.queued[j])
            && (s.poll.Some? ==> Balanced(s.poll.value.summary))
  {
    RunKeepsInv(chain, decode, Start(firstId, burns), run);
    var s := Run(chain, decode, Start(firstId, burns), run);
    forall k | s.cursor.Some? && s.base <= k < s.cursor.value && decode(chain[k]).Some?
      ensures exists i :: OnlyRow(s.table.rows, decode(chain[k]).value.key, i)
    {
      assert Recorded(s.table.rows, decode, chain[k]);
      var i :| 0 <= i < |s.table.rows| && s.table.rows[i].key == decode(chain[k]).value.key;
      assert OnlyRow(s.table.rows, decode(chain[k]).value.key, i);
    }
  }

  predicate SameKey(decode: Decoder, a: Raw, b: Raw)
  {
    decode(a).Some? && decode(b).Some? && decode(a).value.key == decode(b).value.key
  }

  // ----- which events have a row

  /** The positions of the chain ingested along a run. */
  ghost function Ingested(chain: seq<Raw>, decode: Decoder, s: State, run: seq<Action>): set<nat>
    requires AllowedRun(chain, decode, s, run)
    decreases |run|
  {
    if run == [] then {}
    else (if run[0].Ingest? then {s.poll.value.pos} else {})
         + Ingested(chain, decode, Step(chain, decode, s, run[0]), run[1..])
  }

  /** One of the positions holds an event with the key. */
  ghost predicate KeyAmong(chain: seq<Raw>, decode: Decoder, at: set<nat>, key: EventKey)
  {
    exists j :: j in at && j < |chain| && decode(chain[j]).Some? && decode(chain[j]).value.key == key
  }

  lemma AddedKeys(t: Table, d: Decoded, key: EventKey)
    ensures HasKey(AddEvent(t, d).rows, key) <==> HasKey(t.rows, key) || d.key == key
  {
    AddedHasKey(t, d);
    if HasKey(t.rows, key) { KeyStays(t.rows, AddEvent(t, d).rows, key); }
  }

  lemma StepKeys(chain: seq<Raw>, decode: Decoder, s: State, a: Action, key: EventKey)
    requires Allowed(chain, s, a)
    ensures HasKey(Step(chain, decode, s, a).table.rows, key) <==>
            HasKey(s.table.rows, key)
            || KeyAmong(chain, decode, if a.Ingest? then {s.poll.value.pos} else {}, key)
  {
    if a.Ingest? {
      var p := s.poll.value;
      assert KeyAmong(chain, decode, {p.pos}, key) <==>
             decode(chain[p.pos]).Some? && decode(chain[p.pos]).value.key == key;
      if decode(chain[p.pos]).Some? { AddedKeys(s.table, decode(chain[p.pos]).value, key); }
    }
  }

  lemma {:induction false} RunKeys(chain: seq<Raw>, decode: Decoder, s: State, run: seq<Action>, key: EventKey)
    requires AllowedRun(chain, decode, s, run)
    ensures HasKey(Run(chain, decode, s, run).table.rows, key) <==>
            HasKey(s.table.rows, key) || KeyAmong(chain, decode, Ingested(chain, decode, s, run), key)
    decreases |run|
  {
    if run != [] {
      var s' := Step(chain, decode, s, run[0]);
      StepKeys(chain, decode, s, run[0], key);
      RunKeys(chain, decode, s', run[1..], key);
      KeyAmongUnion(chain, decode, if run[0].Ingest? then {s.poll.value.pos} else {},
                    Ingested(chain, decode, s', run[1..]), key);
    }
  }

  lemma KeyAmongUnion(chain: seq<Raw>, decode: Decoder, a: set<nat>, b: set<nat>, key: EventKey)
    ensures KeyAmong(chain, decode, a + b, key) <==> KeyAmong(chain, decode, a, key) || KeyAmong(chain, decode, b, key)
  {
  }

  predicate Holds(at: set<nat>, lo: nat, hi: nat)
  {
    forall k :: lo <= k < hi ==> k in at
  }

  /** The positions hold everything the cursor and the poll in progress have passed. */
  ghost predicate Passed(s: State, at: set<nat>)
  {
    && (s.cursor.Some? ==> Holds(at, s.base, s.cursor.value))
    && (s.poll.Some? ==> Holds(at, s.poll.value.start, s.poll.value.pos))
  }

  lemma StepPasses(chain: seq<Raw>, decode: Decoder, s: State, a: Action, at: set<nat>)
    requires Inv(chain, decode, s) && Allowed(chain, s, a) && Passed(s, at)
    ensures Passed(Step(chain, decode, s, a), at + if a.Ingest? then {s.poll.value.pos} else {})
  {
  }

  lemma {:induction false} RunPasses(chain: seq<Raw>, decode: Decoder, s: State, run: seq<Action>, at: set<nat>)
    requires Inv(chain, decode, s) && AllowedRun(chain, decode, s, run) && Passed(s, at)
    ensures Passed(Run(chain, decode, s, run), at + Ingested(chain, decode, s, run))
    decreases |run|
  {
    if run == [] {
      assert at + {} == at;
    } else {
      var here := if run[0].Ingest? then {s.poll.value.pos} else {};
      var s' := Step(chain, decode, s, run[0]);
      StepKeepsInv(chain, decode, s, run[0]);
      StepPasses(chain, decode, s, run[0], at);
      RunPasses(chain, decode, s', run[1..], at + here);
      var later := Ingested(chain, decode, s', run[1..]);
      assert at + here + later == at + (here + later);
    }
  }

  /** In every run a recognised event has a row exactly when an event with its key was ingested, and every event from
      the first saved page up to the cursor was. */
  lemma RowIffIngested(chain: seq<Raw>, decode: Decoder, firstId: nat, burns: bool, run: seq<Action>, k: nat)
    requires AllowedRun(chain, decode, Start(firstId, burns), run)
    requires k < |chain| && decode(chain[k]).Some?
    ensures var s := Run(chain, decode, Start(firstId, burns), run);
            var ingested := Ingested(chain, decode, Start(firstId, burns), run);
            && (HasKey(s.table.rows, decode(chain[k]).value.key) <==>
                exists j :: j in ingested && j < |chain| && SameKey(decode, chain[j], chain[k]))
            && (s.cursor.Some? && s.base <= k < s.cursor.value ==> k in ingested)
  {
    var ingested := Ingested(chain, decode, Start(firstId, burns), run);
    RunKeys(chain, decode, Start(firstId, burns), run, decode(chain[k]).value.key);
    RunPasses(chain, decode, Start(firstId, burns), run, {});
    assert {} + ingested == ingested;
  }

  lemma {:induction false} NothingBeforeCursor(chain: seq<Raw>, decode: Decoder, s: State, more: seq<Action>)
    requires Inv(chain, decode, s) && s.cursor.Some? && AllowedRun(chain, decode, s, more)
    ensures forall j :: j in Ingested(chain, decode, s, more) ==> s.cursor.value <= j
    decreases |more|
  {
    if more != [] {
      StepKeepsInv(chain, decode, s, more[0]);
      NothingBeforeCursor(chain, decode, Step(chain, decode, s, more[0]), more[1..]);
    }
  }

  /** Once a cursor is saved, an event before it without a row has none in any continuation, unless its key comes
      again at or after the cursor. */
  lemma LostForGood(chain: seq<Raw>, decode: Decoder, s: State, more: seq<Action>, k: nat)
    requires Inv(chain, decode, s) && s.cursor.Some? && AllowedRun(chain, decode, s, more)
    requires k < |chain| && decode(chain[k]).Some? && !HasKey(s.table.rows, decode(chain[k]).value.key)
    requires forall j :: s.cursor.value <= j < |chain| ==> !SameKey(decode, chain[j], chain[k])
    ensures !HasKey(Run(chain, decode, s, more).table.rows, decode(chain[k]).value.key)
  {
    NothingBeforeCursor(chain, decode, s, more);
    RunKeys(chain, decode, s, more, decode(chain[k]).value.key);
  }

  // ----- where the cursor is

  /** The last poll begun, and the last poll that ended with a saved cursor. */
  ghost predicate LastFetch(run: seq<Action>, i: int)
  {
    0 <= i < |run| && run[i].Fetch? && forall m :: i < m < |run| ==> !run[m].Fetch?
  }

  ghost predicate LastSave(run: seq<Action>, j: int)
  {
    0 <= j < |run| && run[j] == FinishPoll(true) && forall m :: j < m < |run| ==> run[m] != FinishPoll(true)
  }

  lemma {:induction false} RunSnoc(chain: seq<Raw>, decode: Decoder, s: State, run: seq<Action>, a: Action)
    requires AllowedRun(chain, decode, s, run + [a])
    ensures AllowedRun(chain, decode, s, run) && Allowed(chain, Run(chain, decode, s, run), a)
    ensures Run(chain, decode, s, run + [a]) == Step(chain, decode, Run(chain, decode, s, run), a)
    decreases |run|
  {
    if run == [] {
      assert [] + [a] == [a] && [a][1..] == [];
    } else {
      assert (run + [a])[1..] == run[1..] + [a];
      RunSnoc(chain, decode, Step(chain, decode, s, run[0]), run[1..], a);
    }
  }

  ghost predicate CursorSays(run: seq<Action>, s: State)
  {
    && ((forall j :: !LastSave(run, j)) ==> s.cursor == None)
    && (forall j :: LastSave(run, j) ==> exists i :: LastFetch(run[..j], i) && s.cursor == Some(run[i].end))
    && (s.poll.Some? ==>
          exists i :: LastFetch(run, i) && run[i].end == s.poll.value.end && run[i].start == s.poll.value.start)
  }

  lemma SameFetch(run: seq<Action>, a: Action, i: int)
    requires !a.Fetch?
    ensures LastFetch(run + [a], i) <==> LastFetch(run, i)
  {
    var run' := run + [a];
    assert run'[|run|] == a && forall m :: 0 <= m < |run| ==> run'[m] == run[m];
  }

  lemma SameSave(run: seq<Action>, a: Action, j: int)
    requires a != FinishPoll(true)
    ensures LastSave(run + [a], j) <==> LastSave(run, j)
  {
    var run' := run + [a];
    assert run'[|run|] == a && forall m :: 0 <= m < |run| ==> run'[m] == run[m];
  }

  lemma PollStep(chain: seq<Raw>, decode: Decoder, run: seq<Action>, s: State, a: Action)
    requires CursorSays(run, s) && Allowed(chain, s, a)
    ensures var s' := Step(chain, decode, s, a);
            s'.poll.Some? ==> exists i :: LastFetch(run + [a], i) && (run + [a])[i].end == s'.poll.value.end
                                          && (run + [a])[i].start == s'.poll.value.start
  {
    var run' := run + [a];
    assert run'[|run|] == a;
    if a.Fetch? {
      assert LastFetch(run', |run|);
    } else if s.poll.Some? {
      var i :| LastFetch(run, i) && run[i].end == s.poll.value.end && run[i].start == s.poll.value.start;
      SameFetch(run, a, i);
      assert run'[i] == run[i];
    }
  }

  lemma NotSaved(chain: seq<Raw>, decode: Decoder, run: seq<Action>, s: State, a: Action)
    requires CursorSays(run, s) && Allowed(chain, s, a) && a != FinishPoll(true)
    ensures CursorSays(run + [a], Step(chain, decode, s, a))
  {
    PollStep(chain, decode, run, s, a);
    forall j ensures LastSave(run + [a], j) <==> LastSave(run, j) {
      SameSave(run, a, j);
    }
    forall j | LastSave(run + [a], j)
      ensures exists i :: LastFetch((run + [a])[..j], i) && Step(chain, decode, s, a).cursor == Some((run + [a])[i].end)
    {
      var i :| LastFetch(run[..j], i) && s.cursor == Some(run[i].end);
      assert (run + [a])[..j] == run[..j] && (run + [a])[i] == run[i];
    }
  }

  lemma Saved(chain: seq<Raw>, decode: Decoder, run: seq<Action>, s: State)
    requires CursorSays(run, s) && Allowed(chain, s, FinishPoll(true))
    ensures CursorSays(run + [FinishPoll(true)], Step(chain, decode, s, FinishPoll(true)))
  {
    var run' := run + [FinishPoll(true)];
    assert run'[|run|] == FinishPoll(true) && run'[..|run|] == run;
    assert LastSave(run', |run|);
    var k :| LastFetch(run, k) && run[k].end == s.poll.value.end && run[k].start == s.poll.value.start;
    forall j | LastSave(run', j)
      ensures exists i ::
                LastFetch(run'[..j], i) && Step(chain, decode, s, FinishPoll(true)).cursor == Some(run'[i].end)
    {
      assert j == |run| && run'[k] == run[k];
    }
  }

  /** In every run the saved cursor is the end of the page whose poll was the last to end with a save; there is none as
      long as no poll did. */
  lemma {:induction false} CursorFromRun(chain: seq<Raw>, decode: Decoder, firstId: nat, burns: bool, run: seq<Action>)
    requires AllowedRun(chain, decode, Start(firstId, burns), run)
    ensures CursorSays(run, Run(chain, decode, Start(firstId, burns), run))
    decreases |run|
  {
    if run != [] {
      var before, a := run[..|run| - 1], run[|run| - 1];
      assert run == before + [a];
      RunSnoc(chain, decode, Start(firstId, burns), before, a);
      CursorFromRun(chain, decode, firstId, burns, before);
      if a == FinishPoll(true) {
        Saved(chain, decode, before, Run(chain, decode, Start(firstId, burns), before));
      } else {
        NotSaved(chain, decode, before, Run(chain, decode, Start(firstId, burns), before), a);
      }
    }
  }

  /** A first page is fetched, the process dies before ingesting it, and the next poll starts at the newer head. */
  function AbandonedRun(): seq<Action>
  {
    [Fetch(0, 1), Crash, Fetch(1, 2), Ingest, QueueWebhooks(false), FinishPoll(true)]
  }

  /** What a poll of one event with nothing in its way leaves, from a state with no rows and no cursor. */
  lemma FirstEvent(chain: seq<Raw>, decode: Decoder, s: State, at: nat)
    requires s.poll.None? && s.cursor.None? && s.table.rows == [] && at < |chain| && decode(chain[at]).Some?
    ensures var run := [Fetch(at, at + 1), Ingest, QueueWebhooks(false), FinishPoll(true)];
            && AllowedRun(chain, decode, s, run)
            && var s' := Run(chain, decode, s, run);
               s'.cursor == Some(at + 1) && s'.base == at && forall key :: HasKey(s'.table.rows, key) ==>
                 key == decode(chain[at]).value.key
  {
    var s1 := Step(chain, decode, s, Fetch(at, at + 1));
    var s2 := Step(chain, decode, s1, Ingest);
    var s3 := Step(chain, decode, s2, QueueWebhooks(false));
    RunCons(chain, decode, s3, FinishPoll(true), []);
    RunCons(chain, decode, s2, QueueWebhooks(false), [FinishPoll(true)]);
    RunCons(chain, decode, s1, Ingest, [QueueWebhooks(false), FinishPoll(true)]);
    RunCons(chain, decode, s, Fetch(at, at + 1), [Ingest, QueueWebhooks(false), FinishPoll(true)]);
  }

  /** The event of the abandoned page has no row, then or later, though the cursor has passed it. */
  lemma AbandonedFirstPage(chain: seq<Raw>, decode: Decoder, firstId: nat, burns: bool)
    requires |chain| >= 2 && decode(chain[0]).Some? && decode(chain[1]).Some?
    requires forall j :: 1 <= j < |chain| ==> !SameKey(decode, chain[j], chain[0])
    ensures AllowedRun(chain, decode, Start(firstId, burns), AbandonedRun())
    ensures var s := Run(chain, decode, Start(firstId, burns), AbandonedRun());
            && s.cursor == Some(2) && s.base == 1
            && (forall more :: AllowedRun(chain, decode, s, more) ==>
                  !HasKey(Run(chain, decode, s, more).table.rows, decode(chain[0]).value.key))
  {
    var s0 := Start(firstId, burns);
    var s1 := Step(chain, decode, s0, Fetch(0, 1));
    FirstEvent(chain, decode, Step(chain, decode, s1, Crash), 1);
    RunCons(chain, decode, s1, Crash, [Fetch(1, 2), Ingest, QueueWebhooks(false), FinishPoll(true)]);
    RunCons(chain, decode, s0, Fetch(0, 1), [Crash, Fetch(1, 2), Ingest, QueueWebhooks(false), FinishPoll(true)]);
    RunKeepsInv(chain, decode, s0, AbandonedRun());
    NeverRecorded(chain, decode, Run(chain, decode, s0, AbandonedRun()), 0);
  }

  lemma NeverRecorded(chain: seq<Raw>, decode: Decoder, s: State, k: nat)
    requires Inv(chain, decode, s) && s.cursor.Some?
    requires k < |chain| && decode(chain[k]).Some? && !HasKey(s.table.rows, decode(chain[k]).value.key)
    requires forall j :: s.cursor.value <= j < |chain| ==> !SameKey(decode, chain[j], chain[k])
    ensures forall more :: AllowedRun(chain, decode, s, more) ==>
              !HasKey(Run(chain, decode, s, more).table.rows, decode(chain[k]).value.key)
  {
    forall more | AllowedRun(chain, decode, s, more)
      ensures !HasKey(Run(chain, decode, s, more).table.rows, decode(chain[k]).value.key)
    {
      LostForGood(chain, decode, s, more, k);
    }
  }

  // ----- which rows are announced

  ghost function Announced(s: State): set<nat>
  {
    set i | 0 <= i < |s.queued| :: s.queued[i]
  }

  ghost function RowIds(t: Table): set<nat>
  {
    set i | 0 <= i < |t.rows| :: t.rows[i].id
  }

  /** Every row has had its webhooks queued, has missed them, or is waiting for them, and only one of these. */
  ghost predicate Accounted(s: State)
  {
    && RowIds(s.table) == Announced(s) + s.missed + ToQueue(s)
    && Announced(s) !! s.missed && Announced(s) !! ToQueue(s) && s.missed !! ToQueue(s)
    && (forall id :: id in s.missed ==> id < s.table.nextId)
  }

  lemma NewRowId(t: Table, d: Decoded)
    requires AddEvent(t, d).rows != t.rows
    ensures RowIds(AddEvent(t, d)) == RowIds(t) + {t.nextId} && AddEvent(t, d).nextId == t.nextId + 1
  {
    var t' := AddEvent(t, d);
    assert t'.rows[|t.rows|].id == t.nextId;
    forall i | 0 <= i < |t.rows| ensures t.rows[i].id in RowIds(t') {
      assert t'.rows[i] == t.rows[i];
    }
  }

  lemma AnnouncedSnoc(s: State, s': State, id: nat)
    requires s'.queued == s.queued + [id]
    ensures Announced(s') == Announced(s) + {id}
  {
    assert s'.queued[|s.queued|] == id;
    forall i | 0 <= i < |s.queued| ensures s.queued[i] in Announced(s') {
      assert s'.queued[i] == s.queued[i];
    }
  }

  lemma StepKeepsAccounted(chain: seq<Raw>, decode: Decoder, s: State, a: Action)
    requires Inv(chain, decode, s) && Accounted(s) && Allowed(chain, s, a)
    ensures Accounted(Step(chain, decode, s, a)) && s.missed <= Step(chain, decode, s, a).missed
  {
    var s' := Step(chain, decode, s, a);
    match a
    case Ingest =>
      var d := decode(chain[s.poll.value.pos]);
      if d.Some? && AddEvent(s.table, d.value).rows != s.table.rows {
        NewRowId(s.table, d.value);
        QueueBelowNext(s.table.rows, s.table.nextId, s.queued);
        assert Announced(s') == Announced(s);
      }
    case QueueWebhooks(raises) =>
      if !raises { AnnouncedSnoc(s, s', s.poll.value.toQueue.value); }
    case _ =>
  }

  lemma {:induction false} RunKeepsAccounted(chain: seq<Raw>, decode: Decoder, s: State, run: seq<Action>)
    requires Inv(chain, decode, s) && Accounted(s) && AllowedRun(chain, decode, s, run)
    ensures Accounted(Run(chain, decode, s, run)) && s.missed <= Run(chain, decode, s, run).missed
    decreases |run|
  {
    if run != [] {
      StepKeepsInv(chain, decode, s, run[0]);
      StepKeepsAccounted(chain, decode, s, run[0]);
      RunKeepsAccounted(chain, decode, Step(chain, decode, s, run[0]), run[1..]);
    }
  }

  /** Between polls the rows without webhooks are exactly those whose queueing raised or was cut off by a crash,
      and they stay without webhooks in every continuation. */
  lemma MissedForGood(chain: seq<Raw>, decode: Decoder, firstId: nat, burns: bool, run: seq<Action>, more: seq<Action>)
    requires AllowedRun(chain, decode, Start(firstId, burns), run)
    requires AllowedRun(chain, decode, Run(chain, decode, Start(firstId, burns), run), more)
    ensures var s := Run(chain, decode, Start(firstId, burns), run);
            var s' := Run(chain, decode, s, more);
            && (s.poll.None? ==> RowIds(s.table) - Announced(s) == s.missed)
            && s.missed <= s'.missed && s.missed !! Announced(s')
  {
    RunKeepsInv(chain, decode, Start(firstId, burns), run);
    RunKeepsAccounted(chain, decode, Start(firstId, burns), run);
    var s := Run(chain, decode, Start(firstId, burns), run);
    RunKeepsAccounted(chain, decode, s, more);
  }

  /** When the chain never reuses a key with other content, the row of an event holds exactly its content. */
  lemma ContentExact(chain: seq<Raw>, decode: Decoder, s: State, k: nat, i: nat)
    requires Inv(chain, decode, s) && k < |chain| && i < |s.table.rows|
    requires decode(chain[k]).Some? && s.table.rows[i].key == decode(chain[k]).value.key
    requires forall m, n :: 0 <= m < |chain| && 0 <= n < |chain| && SameKey(decode, chain[m], chain[n]) ==>
               decode(chain[m]) == decode(chain[n])
    ensures s.table.rows[i].content == decode(chain[k]).value.content
  {
    var m :| 0 <= m < |chain| && decode(chain[m]) == Some(Decoded(s.table.rows[i].key, s.table.rows[i].content));
    assert SameKey(decode, chain[m], chain[k]);
  }
}
