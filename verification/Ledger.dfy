/** The append-only session ledger and its two readers (src/ledger.ts).
    JSON and dates are the parameter `Json`: an encoder, a parser and the time of a timestamp. */
module Ledger {
  import opened Text
  import opened Wrappers

  datatype LedgerEvent = LedgerEvent(
    sessionId: string, timestamp: string, eventType: string, gateStatus: string, details: string,
    receiptHash: Option<string>, proposalId: Option<string>, proposalDescription: Option<string>)

  /** What JSON.parse makes of a line. */
  datatype Parsed =
    | Unparseable             // it throws
    | NullValue               // null, on which reading a field throws
    | Sessionless             // a value without a session id
    | Event(event: LedgerEvent)

  datatype Json = Json(encode: LedgerEvent -> string, parse: string -> Parsed, time: string -> int)

  /** The encoder writes one line of visible text, which the parser reads back. */
  ghost predicate Faithful(json: Json) {
    forall e: LedgerEvent ::
      '\n' !in json.encode(e) && !Blank(json.encode(e)) && json.parse(json.encode(e)) == Event(e)
  }

  datatype SessionSummary = SessionSummary(
    sessionId: string, lastEvent: string, lastStatus: string, lastTimestamp: string, receiptHash: Option<string>,
    description: Option<string>, eventCount: nat)

  // ----- Reading lines -----

  function NonBlank(lines: seq<string>): seq<string> {
    if lines == [] then []
    else
      var front, last := NonBlank(lines[..|lines| - 1]), lines[|lines| - 1];
      if Blank(last) then front else front + [last]
  }

  function ReadLines(text: string): seq<string> {
    NonBlank(Split(text, '\n'))
  }

  /** The events of the given lines, in order; lines that hold none are skipped. */
  function EventsOf(json: Json, lines: seq<string>): seq<LedgerEvent> {
    if lines == [] then []
    else
      var front, last := EventsOf(json, lines[..|lines| - 1]), json.parse(lines[|lines| - 1]);
      if last.Event? then front + [last.event] else front
  }

  predicate HasNull(json: Json, lines: seq<string>) {
    exists i | 0 <= i < |lines| :: json.parse(lines[i]).NullValue?
  }

  // ----- What a ledger file holds -----

  /** A line of the file: an event that was appended, or any other text. */
  datatype Line = Written(event: LedgerEvent) | Corrupt(text: string)

  function LineText(json: Json, line: Line): string {
    match line
    case Written(event) => json.encode(event)
    case Corrupt(text) => text
  }

  function FileText(json: Json, lines: seq<Line>): string {
    if lines == [] then "" else LineText(json, lines[0]) + ['\n'] + FileText(json, lines[1..])
  }

  function WrittenEvents(lines: seq<Line>): seq<LedgerEvent> {
    if lines == [] then []
    else
      var rest := WrittenEvents(lines[1..]);
      if lines[0].Written? then [lines[0].event] + rest else rest
  }

  /** Corrupt lines are lines, and the parser finds no event in them. */
  predicate WellCorrupted(json: Json, lines: seq<Line>) {
    forall i | 0 <= i < |lines| && lines[i].Corrupt? ::
      '\n' !in lines[i].text && !json.parse(lines[i].text).Event?
  }

  function Texts(json: Json, lines: seq<Line>): seq<string> {
    seq(|lines|, i requires 0 <= i < |lines| => LineText(json, lines[i]))
  }

  lemma TextsHead(json: Json, lines: seq<Line>)
    requires lines != []
    ensures Texts(json, lines) == [LineText(json, lines[0])] + Texts(json, lines[1..])
  {
  }

  lemma {:induction false} SplitFile(json: Json, lines: seq<Line>)
    requires Faithful(json) && WellCorrupted(json, lines)
    ensures Split(FileText(json, lines), '\n') == Texts(json, lines) + [""]
  {
    if lines != [] {
      SplitPrefix(LineText(json, lines[0]), FileText(json, lines[1..]), '\n');
      SplitFile(json, lines[1..]);
      TextsHead(json, lines);
    }
  }

  lemma {:induction false} EventsAppend(json: Json, xs: seq<string>, ys: seq<string>)
    ensures EventsOf(json, NonBlank(xs + ys)) == EventsOf(json, NonBlank(xs)) + EventsOf(json, NonBlank(ys))
  {
    if ys == [] {
      assert xs + ys == xs;
    } else {
      var front, last := ys[..|ys| - 1], ys[|ys| - 1];
      assert (xs + ys)[..|xs + ys| - 1] == xs + front;
      EventsAppend(json, xs, front);
      if !Blank(last) {
        var a, b := NonBlank(xs + front), NonBlank(front);
        assert (a + [last])[..|a|] == a && (b + [last])[..|b|] == b;
      }
    }
  }

  lemma NothingRead(json: Json)
    ensures EventsOf(json, NonBlank(Texts(json, []))) == [] && EventsOf(json, NonBlank([""])) == []
  {
    assert [""][..0] == [];
  }

  lemma SingleLine(json: Json, line: Line)
    requires Faithful(json) && (line.Corrupt? ==> !json.parse(line.text).Event?)
    ensures EventsOf(json, NonBlank([LineText(json, line)])) == WrittenEvents([line])
  {
  }

  lemma {:induction false} LinesReadBack(json: Json, lines: seq<Line>)
    requires Faithful(json) && WellCorrupted(json, lines)
    ensures EventsOf(json, NonBlank(Texts(json, lines))) == WrittenEvents(lines)
  {
    hide NonBlank, EventsOf, Texts;
    if lines == [] {
      NothingRead(json);
    } else {
      LinesReadBack(json, lines[1..]);
      TextsHead(json, lines);
      EventsAppend(json, [LineText(json, lines[0])], Texts(json, lines[1..]));
      SingleLine(json, lines[0]);
    }
  }

  /** Reading a ledger back yields exactly the appended events in order, whatever other lines are corrupted. */
  lemma LedgerReadsBack(json: Json, lines: seq<Line>)
    requires Faithful(json) && WellCorrupted(json, lines)
    ensures EventsOf(json, ReadLines(FileText(json, lines))) == WrittenEvents(lines)
  {
    hide NonBlank, EventsOf, Texts;
    SplitFile(json, lines);
    EventsAppend(json, Texts(json, lines), [""]);
    NothingRead(json);
    LinesReadBack(json, lines);
  }

  // ----- Stable sorting -----

  function InsertBy<T>(key: T -> int, sorted: seq<T>, x: T): seq<T> {
    if sorted == [] || key(sorted[|sorted| - 1]) <= key(x) then sorted + [x]
    else InsertBy(key, sorted[..|sorted| - 1], x) + [sorted[|sorted| - 1]]
  }

  /** Array.prototype.sort by a numeric key: ascending, equal keys keep their order. */
  function SortBy<T>(key: T -> int, xs: seq<T>): (sorted: seq<T>)
  {
    if xs == [] then [] else InsertBy(key, SortBy(key, xs[..|xs| - 1]), xs[|xs| - 1])
  }

  predicate Ascending<T>(key: T -> int, xs: seq<T>) {
    forall i, j | 0 <= i < j < |xs| :: key(xs[i]) <= key(xs[j])
  }

  lemma {:induction false} InsertShape<T>(key: T -> int, sorted: seq<T>, x: T)
    ensures var r := InsertBy(key, sorted, x);
            && |r| == |sorted| + 1
            && r[|sorted|] == (if sorted == [] || key(sorted[|sorted| - 1]) <= key(x) then x
                               else sorted[|sorted| - 1])
  {
    if !(sorted == [] || key(sorted[|sorted| - 1]) <= key(x)) {
      InsertShape(key, sorted[..|sorted| - 1], x);
    }
  }

  lemma {:induction false} InsertPermutes<T>(key: T -> int, sorted: seq<T>, x: T)
    ensures multiset(InsertBy(key, sorted, x)) == multiset(sorted) + multiset{x}
  {
    if !(sorted == [] || key(sorted[|sorted| - 1]) <= key(x)) {
      InsertPermutes(key, sorted[..|sorted| - 1], x);
      assert sorted == sorted[..|sorted| - 1] + [sorted[|sorted| - 1]];
    }
  }

  lemma {:induction false} InsertAscends<T>(key: T -> int, sorted: seq<T>, x: T)
    requires Ascending(key, sorted)
    ensures Ascending(key, InsertBy(key, sorted, x))
  {
    if !(sorted == [] || key(sorted[|sorted| - 1]) <= key(x)) {
      var front, last := sorted[..|sorted| - 1], sorted[|sorted| - 1];
      InsertAscends(key, front, x);
      InsertShape(key, front, x);
      var r := InsertBy(key, front, x);
      forall i | 0 <= i < |r| ensures key(r[i]) <= key(last) {
        assert key(r[i]) <= key(r[|r| - 1]);
      }
    }
  }

  lemma {:induction false} SortByAscends<T>(key: T -> int, xs: seq<T>)
    ensures Ascending(key, SortBy(key, xs)) && |SortBy(key, xs)| == |xs|
  {
    if xs != [] {
      var front, last := xs[..|xs| - 1], xs[|xs| - 1];
      SortByAscends(key, front);
      InsertAscends(key, SortBy(key, front), last);
      InsertShape(key, SortBy(key, front), last);
    }
  }

  lemma {:induction false} SortByPermutes<T>(key: T -> int, xs: seq<T>)
    ensures multiset(SortBy(key, xs)) == multiset(xs)
  {
    if xs != [] {
      SortByPermutes(key, xs[..|xs| - 1]);
      InsertPermutes(key, SortBy(key, xs[..|xs| - 1]), xs[|xs| - 1]);
      assert xs == xs[..|xs| - 1] + [xs[|xs| - 1]];
    }
  }

  /** k is the last of the positions with the greatest key. */
  predicate IsLatest<T>(key: T -> int, xs: seq<T>, k: nat) {
    && k < |xs|
    && (forall i | 0 <= i < |xs| :: key(xs[i]) <= key(xs[k]))
    && (forall i | k < i < |xs| :: key(xs[i]) < key(xs[k]))
  }

  /** The sorted list ends with the latest element: of equal keys, the one that came last. */
  lemma {:induction false} SortEndsWithLatest<T>(key: T -> int, xs: seq<T>) returns (k: nat)
    requires xs != []
    ensures IsLatest(key, xs, k) && |SortBy(key, xs)| == |xs| && SortBy(key, xs)[|xs| - 1] == xs[k]
  {
    hide InsertBy;
    var front, last := xs[..|xs| - 1], xs[|xs| - 1];
    InsertShape(key, SortBy(key, front), last);
    k := |xs| - 1;
    if front != [] {
      k := SortEndsWithLatest(key, front);
      if key(front[k]) <= key(last) { k := |xs| - 1; }
    }
    assert xs == front + [last];
  }

  /** The sorted list takes its elements from the given places, by key, and places of equal keys in order. */
  ghost predicate Placed<T(!new)>(key: T -> int, xs: seq<T>, sorted: seq<T>, at: seq<nat>) {
    && |at| == |sorted|
    && (forall i | 0 <= i < |at| :: at[i] < |xs| && sorted[i] == xs[at[i]])
    && (forall i, j | 0 <= i < j < |at| :: key(sorted[i]) < key(sorted[j])
                                           || (key(sorted[i]) == key(sorted[j]) && at[i] < at[j]))
  }

  lemma PlacedLast<T(!new)>(key: T -> int, xs: seq<T>, sorted: seq<T>, at: seq<nat>, n: nat)
    requires Placed(key, xs, sorted, at) && n < |xs| && forall i | 0 <= i < |at| :: at[i] < n
    requires sorted == [] || key(sorted[|sorted| - 1]) <= key(xs[n])
    ensures Placed(key, xs, sorted + [xs[n]], at + [n])
  {
    if sorted != [] {
      var last := sorted[|sorted| - 1];
      assert forall i | 0 <= i < |sorted| :: key(sorted[i]) <= key(last);
    }
  }

  lemma PlacedPrefix<T(!new)>(key: T -> int, xs: seq<T>, sorted: seq<T>, at: seq<nat>, m: nat)
    requires Placed(key, xs, sorted, at) && m <= |sorted|
    ensures Placed(key, xs, sorted[..m], at[..m])
  {
  }

  lemma PlacedSnoc<T(!new)>(key: T -> int, xs: seq<T>, part: seq<T>, front: seq<nat>, sorted: seq<T>, at: seq<nat>,
                            n: nat)
    requires sorted != [] && Placed(key, xs, sorted, at) && Placed(key, xs, part, front)
    requires n < |xs| && key(xs[n]) < key(sorted[|sorted| - 1])
    requires forall k | k in front :: k in at[..|at| - 1] || k == n
    ensures Placed(key, xs, part + [sorted[|sorted| - 1]], front + [at[|at| - 1]])
  {
    var m := |sorted| - 1;
    forall i | 0 <= i < |front|
      ensures key(part[i]) < key(sorted[m]) || (key(part[i]) == key(sorted[m]) && front[i] < at[m])
    {
      assert front[i] in front && part[i] == xs[front[i]];
      if front[i] != n {
        var j :| 0 <= j < m && at[j] == front[i];
        assert sorted[j] == xs[at[j]];
      }
    }
  }

  lemma {:induction false} InsertPlaced<T(!new)>(key: T -> int, xs: seq<T>, sorted: seq<T>, at: seq<nat>, n: nat)
    returns (at': seq<nat>)
    requires Placed(key, xs, sorted, at) && n < |xs| && forall i | 0 <= i < |at| :: at[i] < n
    ensures Placed(key, xs, InsertBy(key, sorted, xs[n]), at')
    ensures forall k :: k in at' <==> k in at || k == n
  {
    var x := xs[n];
    var size := |at|;
    assert size == |sorted|;
    if sorted == [] || key(sorted[|sorted| - 1]) <= key(x) {
      at' := at + [n];
      PlacedLast(key, xs, sorted, at, n);
    } else {
      var m := |sorted| - 1;
      PlacedPrefix(key, xs, sorted, at, m);
      hide Placed;
      var front := InsertPlaced(key, xs, sorted[..m], at[..m], n);
      at' := front + [at[m]];
      assert at == at[..m] + [at[m]];
      InsertShape(key, sorted[..m], x);
      PlacedSnoc(key, xs, InsertBy(key, sorted[..m], x), front, sorted, at, n);
    }
  }

  /** Sorting is stable: it puts every place of the list somewhere, by key, equal keys in their order. */
  lemma {:induction false} SortByStable<T(!new)>(key: T -> int, xs: seq<T>) returns (at: seq<nat>)
    ensures Placed(key, xs, SortBy(key, xs), at)
    ensures forall k: nat :: k in at <==> k < |xs|
  {
    at := [];
    if xs != [] {
      var n := |xs| - 1;
      var front := SortByStable(key, xs[..n]);
      forall i | 0 <= i < |front| ensures front[i] < n { assert front[i] in front; }
      at := InsertPlaced(key, xs, SortBy(key, xs[..n]), front, n);
    }
  }

  // ----- Sessions -----

  function SessionEvents(events: seq<LedgerEvent>, id: string): seq<LedgerEvent> {
    if events == [] then []
    else
      var front, last := SessionEvents(events[..|events| - 1], id), events[|events| - 1];
      if last.sessionId == id then front + [last] else front
  }

  /** The nonempty session ids, in the order of their first event. */
  function Ids(events: seq<LedgerEvent>): seq<string> {
    if events == [] then []
    else
      var front, id := Ids(events[..|events| - 1]), events[|events| - 1].sessionId;
      if id == "" || id in front then front else front + [id]
  }

  function ByTime(json: Json): LedgerEvent -> int {
    (e: LedgerEvent) => json.time(e.timestamp)
  }

  /** Latest summaries first. */
  function ByRecency(json: Json): SessionSummary -> int {
    (s: SessionSummary) => -json.time(s.lastTimestamp)
  }

  function SummaryOf(id: string, sorted: seq<LedgerEvent>): SessionSummary
    requires sorted != []
  {
    var last := sorted[|sorted| - 1];
    SessionSummary(id, last.eventType, last.gateStatus, last.timestamp, last.receiptHash, last.proposalDescription,
                   |sorted|)
  }

  datatype LedgerError = ReadOfNull

  /** The state of the grouping loop: the sessions seen, in order, with their events. */
  ghost predicate Grouped(events: seq<LedgerEvent>, order: seq<string>, sessions: map<string, seq<LedgerEvent>>) {
    && order == Ids(events)
    && "" !in sessions && (forall id :: id in sessions <==> id in order)
    && (forall id | id in sessions :: sessions[id] == SessionEvents(events, id) && sessions[id] != [])
    && (forall id | id !in sessions && id != "" :: SessionEvents(events, id) == [])
  }

  lemma GroupNone()
    ensures Grouped([], [], map[])
  {
  }

  lemma GroupOne(events: seq<LedgerEvent>, order: seq<string>, sessions: map<string, seq<LedgerEvent>>,
                 event: LedgerEvent)
    requires Grouped(events, order, sessions)
    ensures var id := event.sessionId;
            var old' := if id in sessions then sessions[id] else [];
            Grouped(events + [event],
                    if id == "" || id in sessions then order else order + [id],
                    if id == "" then sessions else sessions[id := old' + [event]])
  {
  }

  /** The first loop of loadRecentSessions: events grouped by nonempty session id, in a map that keeps its order. */
  method GroupLines(json: Json, lines: seq<string>)
    returns (failed: bool, order: seq<string>, sessions: map<string, seq<LedgerEvent>>)
    ensures failed <==> HasNull(json, lines)
    ensures !failed ==> Grouped(EventsOf(json, lines), order, sessions)
  {
    hide Grouped, Ids, SessionEvents;
    failed, order, sessions := false, [], map[];
    GroupNone();
    for n := 0 to |lines|
      invariant forall i | 0 <= i < n :: !json.parse(lines[i]).NullValue?
      invariant Grouped(EventsOf(json, lines[..n]), order, sessions)
    {
      assert lines[..n + 1][..n] == lines[..n];
      match json.parse(lines[n])
      case Unparseable =>
      case NullValue => return true, order, sessions;
      case Sessionless =>
      case Event(event) =>
        GroupOne(EventsOf(json, lines[..n]), order, sessions, event);
        ghost var seen := if event.sessionId in sessions then sessions[event.sessionId] else [];
        ghost var grown := sessions[event.sessionId := seen + [event]];
        if event.sessionId != "" {
          if event.sessionId !in sessions {
            order := order + [event.sessionId];
            sessions := sessions[event.sessionId := []];
          }
          sessions := sessions[event.sessionId := sessions[event.sessionId] + [event]];
          assert sessions == grown;
        }
    }
    assert lines[..|lines|] == lines;
  }

  function Summary(json: Json, events: seq<LedgerEvent>, id: string): Option<SessionSummary> {
    var sorted := SortBy(ByTime(json), SessionEvents(events, id));
    if sorted == [] then None else Some(SummaryOf(id, sorted))
  }

  function Summaries(json: Json, events: seq<LedgerEvent>, ids: seq<string>): seq<SessionSummary> {
    if ids == [] then []
    else
      var front, s := Summaries(json, events, ids[..|ids| - 1]), Summary(json, events, ids[|ids| - 1]);
      if s.None? then front else front + [s.value]
  }

  /** The second loop: one summary for every group. */
  method SummarizeAll(json: Json, ghost events: seq<LedgerEvent>, order: seq<string>,
                      sessions: map<string, seq<LedgerEvent>>)
    returns (summaries: seq<SessionSummary>)
    requires Grouped(events, order, sessions)
    ensures summaries == Summaries(json, events, Ids(events))
  {
    hide SortBy, Ids, SessionEvents, SummaryOf;
    summaries := [];
    for n := 0 to |order|
      invariant summaries == Summaries(json, events, order[..n])
    {
      assert order[..n + 1][..n] == order[..n];
      assert order[n] in sessions;
      SortByAscends(ByTime(json), sessions[order[n]]);
      var sorted := SortBy(ByTime(json), sessions[order[n]]);
      summaries := summaries + [SummaryOf(order[n], sorted)];
    }
    assert order[..|order|] == order;
  }

  function Take<T>(xs: seq<T>, limit: nat): seq<T> {
    if limit < |xs| then xs[..limit] else xs
  }

  function Recent(json: Json, events: seq<LedgerEvent>): seq<SessionSummary> {
    SortBy(ByRecency(json), Summaries(json, events, Ids(events)))
  }

  lemma SessionMore(events: seq<LedgerEvent>, event: LedgerEvent, id: string)
    ensures SessionEvents(events + [event], id)
         == if event.sessionId == id then SessionEvents(events, id) + [event] else SessionEvents(events, id)
  {
    assert (events + [event])[..|events|] == events;
  }

  // ----- What the readers return -----

  /** The listed events are those of the session, each once, by time, and in the order of the log at equal times. */
  ghost predicate InOrder(json: Json, events: seq<LedgerEvent>, id: string, listed: seq<LedgerEvent>, at: seq<nat>) {
    && |at| == |listed|
    && (forall i | 0 <= i < |at| :: at[i] < |events| && events[at[i]].sessionId == id && listed[i] == events[at[i]])
    && (forall p: nat | p < |events| && events[p].sessionId == id :: p in at)
    && (forall i, j | 0 <= i < j < |at| ::
          var s, t := json.time(listed[i].timestamp), json.time(listed[j].timestamp);
          s < t || (s == t && at[i] < at[j]))
  }

  /** The p-th event is the latest of its session, and the last in the log of those at the latest time. */
  predicate LatestAt(json: Json, events: seq<LedgerEvent>, p: nat) {
    && p < |events|
    && forall q | 0 <= q < |events| && events[q].sessionId == events[p].sessionId ::
         var s, t := json.time(events[q].timestamp), json.time(events[p].timestamp);
         s < t || (s == t && q <= p)
  }

  function Positions(events: seq<LedgerEvent>, id: string): set<nat> {
    set p: nat | p < |events| && events[p].sessionId == id
  }

  /** The summary is that of the session of its id: what its latest event says, and how many events it has. */
  ghost predicate Summarizes(json: Json, events: seq<LedgerEvent>, s: SessionSummary) {
    exists p: nat ::
      && LatestAt(json, events, p) && events[p].sessionId == s.sessionId
      && s == SessionSummary(events[p].sessionId, events[p].eventType, events[p].gateStatus, events[p].timestamp,
                             events[p].receiptHash, events[p].proposalDescription, |Positions(events, s.sessionId)|)
  }

  /** The p-th event is the first of its session, which has an id. */
  predicate StartsSession(events: seq<LedgerEvent>, p: nat) {
    && p < |events| && events[p].sessionId != ""
    && forall q | 0 <= q < p :: events[q].sessionId != events[p].sessionId
  }

  function SessionIds(events: seq<LedgerEvent>): set<string> {
    set p | 0 <= p < |events| && events[p].sessionId != "" :: events[p].sessionId
  }

  /** The time of the latest event of a session. */
  ghost predicate LastActive(json: Json, events: seq<LedgerEvent>, id: string, t: int) {
    exists p: nat :: LatestAt(json, events, p) && events[p].sessionId == id && json.time(events[p].timestamp) == t
  }

  /** The listed summaries, the i-th of the session that starts at `start[i]`: latest first, sessions that started
      earlier first among equals; as many as the limit and the log allow; and nothing left out is later than what is
      listed. */
  ghost predicate MostRecent(json: Json, events: seq<LedgerEvent>, limit: nat, listed: seq<SessionSummary>,
                             start: seq<nat>)
  {
    && |listed| == |start| == (if limit < |SessionIds(events)| then limit else |SessionIds(events)|)
    && (forall i | 0 <= i < |start| ::
          && StartsSession(events, start[i]) && listed[i].sessionId == events[start[i]].sessionId
          && Summarizes(json, events, listed[i]))
    && (forall i, j | 0 <= i < j < |start| ::
          var s, t := json.time(listed[i].lastTimestamp), json.time(listed[j].lastTimestamp);
          s > t || (s == t && start[i] < start[j]))
    && (forall p: nat, t, i | p < |events| && StartsSession(events, p) && p !in start && 0 <= i < |start|
                              && LastActive(json, events, events[p].sessionId, t) ::
          var s := json.time(listed[i].lastTimestamp); s > t || (s == t && start[i] < p))
  }

  lemma PositionsMore(events: seq<LedgerEvent>, id: string)
    requires events != []
    ensures var n := |events| - 1;
            && Positions(events, id)
               == Positions(events[..n], id) + (if events[n].sessionId == id then {n} else {})
            && |Positions(events, id)|
               == |Positions(events[..n], id)| + (if events[n].sessionId == id then 1 else 0)
  {
    var n := |events| - 1;
    assert Positions(events, id) == Positions(events[..n], id) + (if events[n].sessionId == id then {n} else {});
    assert n !in Positions(events[..n], id);
  }

  lemma NoPositions(id: string)
    ensures |Positions([], id)| == 0
  {
  }

  lemma {:induction false} SessionPlaces(events: seq<LedgerEvent>, id: string) returns (ps: seq<nat>)
    ensures |ps| == |SessionEvents(events, id)| == |Positions(events, id)|
    ensures forall i | 0 <= i < |ps| :: ps[i] < |events| && events[ps[i]].sessionId == id
                                        && SessionEvents(events, id)[i] == events[ps[i]]
    ensures forall i, j | 0 <= i < j < |ps| :: ps[i] < ps[j]
    ensures forall p: nat | p < |events| && events[p].sessionId == id :: p in ps
  {
    hide Positions;
    ps := [];
    if events == [] {
      NoPositions(id);
    } else {
      var n := |events| - 1;
      ps := SessionPlaces(events[..n], id);
      PositionsMore(events, id);
      if events[n].sessionId == id {
        ps := ps + [n];
      }
    }
  }

  /** The places of the sorted list in the log. */
  function Compose(order: seq<nat>, ps: seq<nat>): (at: seq<nat>)
    requires forall i | 0 <= i < |order| :: order[i] < |ps|
    ensures |at| == |order| && forall i | 0 <= i < |at| :: at[i] == ps[order[i]]
  {
    seq(|order|, i requires 0 <= i < |order| => ps[order[i]])
  }

  lemma ComposeHas(order: seq<nat>, ps: seq<nat>, p: nat)
    requires forall i | 0 <= i < |order| :: order[i] < |ps|
    requires p in ps && forall k: nat | k < |ps| :: k in order
    ensures p in Compose(order, ps)
  {
    var k: nat :| k < |ps| && ps[k] == p;
    assert k in order;
    var i :| 0 <= i < |order| && order[i] == k;
    assert Compose(order, ps)[i] == p;
  }

  /** The session's events sorted by time are in order. */
  lemma SortedInOrder(json: Json, events: seq<LedgerEvent>, id: string) returns (at: seq<nat>)
    ensures InOrder(json, events, id, SortBy(ByTime(json), SessionEvents(events, id)), at)
    ensures |at| == |Positions(events, id)|
  {
    hide SortBy, SessionEvents, Positions, Compose;
    var ps := SessionPlaces(events, id);
    var mine := SessionEvents(events, id);
    var order := SortByStable(ByTime(json), mine);
    SortByAscends(ByTime(json), mine);
    at := Compose(order, ps);
    var sorted := SortBy(ByTime(json), mine);
    forall i | 0 <= i < |at|
      ensures at[i] < |events| && events[at[i]].sessionId == id && sorted[i] == events[at[i]]
    {
      assert at[i] == ps[order[i]] && sorted[i] == mine[order[i]];
    }
    forall p: nat | p < |events| && events[p].sessionId == id ensures p in at {
      ComposeHas(order, ps, p);
    }
    forall i, j | 0 <= i < j < |at|
      ensures var s, t := json.time(sorted[i].timestamp), json.time(sorted[j].timestamp);
              s < t || (s == t && at[i] < at[j])
    {
      assert ByTime(json)(sorted[i]) == json.time(sorted[i].timestamp);
      assert ByTime(json)(sorted[j]) == json.time(sorted[j].timestamp);
    }
  }

  lemma LastIsLatest(json: Json, events: seq<LedgerEvent>, id: string, listed: seq<LedgerEvent>, at: seq<nat>)
    requires InOrder(json, events, id, listed, at) && |at| == |Positions(events, id)| && listed != []
    ensures LatestAt(json, events, at[|at| - 1]) && Summarizes(json, events, SummaryOf(id, listed))
  {
    hide Positions;
    var p := at[|at| - 1];
    forall q: nat | q < |events| && events[q].sessionId == events[p].sessionId
      ensures var s, t := json.time(events[q].timestamp), json.time(events[p].timestamp);
              s < t || (s == t && q <= p)
    {
      assert q in at;
      var i :| 0 <= i < |at| && at[i] == q;
      assert listed[i] == events[q] && listed[|at| - 1] == events[p];
    }
  }

  /** A summary is none exactly for a session without events, and otherwise summarizes it. */
  lemma SummaryMeaning(json: Json, events: seq<LedgerEvent>, id: string)
    ensures var s := Summary(json, events, id);
            && (s.None? <==> forall p | 0 <= p < |events| :: events[p].sessionId != id)
            && (s.Some? ==> s.value.sessionId == id && Summarizes(json, events, s.value))
  {
    hide SortBy, SessionEvents, Summarizes;
    var at := SortedInOrder(json, events, id);
    var sorted := SortBy(ByTime(json), SessionEvents(events, id));
    if sorted == [] {
      forall p: nat | p < |events| ensures events[p].sessionId != id {
        assert events[p].sessionId == id ==> p in at;
      }
    } else {
      assert events[at[0]].sessionId == id;
      LastIsLatest(json, events, id, sorted, at);
    }
  }

  lemma SessionIdsMore(events: seq<LedgerEvent>)
    requires events != []
    ensures var front, id := events[..|events| - 1], events[|events| - 1].sessionId;
            && SessionIds(events) == (if id == "" then SessionIds(front) else SessionIds(front) + {id})
            && |SessionIds(events)| == |SessionIds(front)| + (if id == "" || id in SessionIds(front) then 0 else 1)
  {
    var front := events[..|events| - 1];
    if events[|events| - 1].sessionId in SessionIds(front) {
      assert SessionIds(front) + {events[|events| - 1].sessionId} == SessionIds(front);
    }
    forall id ensures id in SessionIds(events)
                 <==> id in SessionIds(front) || (id != "" && id == events[|events| - 1].sessionId)
    {
      if id in SessionIds(front) {
        var q :| 0 <= q < |front| && front[q].sessionId == id;
        assert events[q].sessionId == id;
      }
    }
  }

  lemma StartsMore(events: seq<LedgerEvent>)
    requires events != []
    ensures var n := |events| - 1;
            && (forall p: nat | p < n :: StartsSession(events, p) <==> StartsSession(events[..n], p))
            && (StartsSession(events, n) <==>
                  events[n].sessionId != "" && events[n].sessionId !in SessionIds(events[..n]))
  {
    var front, n := events[..|events| - 1], |events| - 1;
    if events[n].sessionId in SessionIds(front) {
      var q :| 0 <= q < n && front[q].sessionId == events[n].sessionId;
      assert events[q].sessionId == events[n].sessionId;
    } else {
      forall q | 0 <= q < n ensures events[n].sessionId == "" || events[q].sessionId != events[n].sessionId {
        assert front[q] == events[q];
        assert events[q].sessionId != "" ==> events[q].sessionId in SessionIds(front);
      }
    }
  }

  /** The sessions of the given ids start at the given places, and no others do. */
  ghost predicate StartsAt(events: seq<LedgerEvent>, ids: seq<string>, ps: seq<nat>) {
    && |ps| == |ids|
    && (forall i | 0 <= i < |ps| :: ps[i] < |events| && StartsSession(events, ps[i])
                                    && ids[i] == events[ps[i]].sessionId)
    && (forall i, j | 0 <= i < j < |ps| :: ps[i] < ps[j])
    && (forall p: nat | p < |events| && StartsSession(events, p) :: p in ps)
  }

  lemma StartsAtMore(events: seq<LedgerEvent>, ids: seq<string>, ps: seq<nat>)
    requires events != [] && StartsAt(events[..|events| - 1], ids, ps)
    ensures var n := |events| - 1;
            if StartsSession(events, n) then StartsAt(events, ids + [events[n].sessionId], ps + [n])
            else StartsAt(events, ids, ps)
  {
    hide StartsSession, SessionIds;
    StartsMore(events);
  }

  lemma NoSessions()
    ensures SessionIds([]) == {}
  {
  }

  lemma {:induction false} IdsAreSessionIds(events: seq<LedgerEvent>)
    ensures |Ids(events)| == |SessionIds(events)| && forall id :: id in Ids(events) <==> id in SessionIds(events)
  {
    hide SessionIds;
    if events == [] {
      NoSessions();
    } else {
      IdsAreSessionIds(events[..|events| - 1]);
      SessionIdsMore(events);
    }
  }

  lemma {:induction false} IdPlaces(events: seq<LedgerEvent>) returns (ps: seq<nat>)
    ensures StartsAt(events, Ids(events), ps)
  {
    hide StartsSession, SessionIds;
    ps := [];
    if events != [] {
      hide StartsAt;
      var n := |events| - 1;
      ps := IdPlaces(events[..n]);
      StartsAtMore(events, Ids(events[..n]), ps);
      StartsMore(events);
      IdsAreSessionIds(events[..n]);
      if StartsSession(events, n) {
        ps := ps + [n];
      }
    }
  }

  lemma {:induction false} SummariesAre(json: Json, events: seq<LedgerEvent>, ids: seq<string>)
    requires forall i | 0 <= i < |ids| :: SessionEvents(events, ids[i]) != []
    ensures |Summaries(json, events, ids)| == |ids|
    ensures forall i | 0 <= i < |ids| :: Some(Summaries(json, events, ids)[i]) == Summary(json, events, ids[i])
  {
    if ids != [] {
      SummariesAre(json, events, ids[..|ids| - 1]);
      SortByAscends(ByTime(json), SessionEvents(events, ids[|ids| - 1]));
    }
  }

  lemma {:induction false} IdsAre(events: seq<LedgerEvent>, id: string)
    ensures id in Ids(events) <==> id != "" && SessionEvents(events, id) != []
    ensures forall i, j | 0 <= i < j < |Ids(events)| :: Ids(events)[i] != Ids(events)[j]
  {
    if events != [] {
      IdsAre(events[..|events| - 1], id);
    }
  }

  /** The summaries in the order in which the sessions start. */
  lemma ListedMeaning(json: Json, events: seq<LedgerEvent>)
    ensures var ids, listed := Ids(events), Summaries(json, events, Ids(events));
            && |listed| == |ids|
            && forall i | 0 <= i < |ids| :: listed[i].sessionId == ids[i] && Summarizes(json, events, listed[i])
  {
    hide SortBy, Ids, SessionEvents, Summaries, Summary, Summarizes;
    var ids := Ids(events);
    forall i | 0 <= i < |ids| ensures SessionEvents(events, ids[i]) != [] {
      IdsAre(events, ids[i]);
    }
    SummariesAre(json, events, ids);
    forall i | 0 <= i < |ids|
      ensures var s := Summaries(json, events, ids)[i]; s.sessionId == ids[i] && Summarizes(json, events, s)
    {
      SummaryMeaning(json, events, ids[i]);
    }
  }

  /** All sessions by recency, and where they start. */
  lemma AllByRecency(json: Json, events: seq<LedgerEvent>) returns (start: seq<nat>)
    ensures MostRecent(json, events, |SessionIds(events)|, Recent(json, events), start)
    ensures forall p: nat | p < |events| && StartsSession(events, p) :: p in start
  {
    hide SortBy, Ids, SessionEvents, Summaries, SessionIds, StartsSession, Summarizes, LastActive, Compose;
    var ids, listed, recent := Ids(events), Summaries(json, events, Ids(events)), Recent(json, events);
    var first := IdPlaces(events);
    IdsAreSessionIds(events);
    ListedMeaning(json, events);
    var at := SortByStable(ByRecency(json), listed);
    SortByAscends(ByRecency(json), listed);
    start := Compose(at, first);
    forall i | 0 <= i < |start|
      ensures start[i] < |events| && StartsSession(events, start[i])
      ensures recent[i].sessionId == events[start[i]].sessionId && Summarizes(json, events, recent[i])
    {
      assert start[i] == first[at[i]] && recent[i] == listed[at[i]];
    }
    forall i, j | 0 <= i < j < |start|
      ensures var s, t := json.time(recent[i].lastTimestamp), json.time(recent[j].lastTimestamp);
              s > t || (s == t && start[i] < start[j])
    {
      assert ByRecency(json)(recent[i]) == -json.time(recent[i].lastTimestamp);
      assert ByRecency(json)(recent[j]) == -json.time(recent[j].lastTimestamp);
    }
    forall p: nat | p < |events| && StartsSession(events, p) ensures p in start {
      ComposeHas(at, first, p);
    }
  }

  /** The latest time of a session is the one its summary carries. */
  lemma LastActiveOnce(json: Json, events: seq<LedgerEvent>, s: SessionSummary, t: int)
    requires Summarizes(json, events, s) && LastActive(json, events, s.sessionId, t)
    ensures json.time(s.lastTimestamp) == t
  {
    hide Positions;
  }

  /** What the recent sessions are, for every limit. */
  lemma RecentMeaning(json: Json, events: seq<LedgerEvent>, limit: nat) returns (start: seq<nat>)
    ensures MostRecent(json, events, limit, Take(Recent(json, events), limit), start)
  {
    hide Recent, SessionIds, StartsSession, Summarizes, LastActive;
    var recent := Recent(json, events);
    var all := AllByRecency(json, events);
    start := Take(all, limit);
    forall p: nat, t, i | p < |events| && StartsSession(events, p) && p !in start && 0 <= i < |start|
                          && LastActive(json, events, events[p].sessionId, t)
      ensures var s := json.time(recent[i].lastTimestamp); s > t || (s == t && start[i] < p)
    {
      var j :| 0 <= j < |all| && all[j] == p;
      assert recent[j].sessionId == events[p].sessionId && Summarizes(json, events, recent[j]);
      LastActiveOnce(json, events, recent[j], t);
      assert j >= |start|;
    }
  }

  class LedgerFile {
    /** The text of the file; a missing file reads as empty. */
    var text: string

    method AppendSessionEvent(json: Json, event: LedgerEvent)
      modifies this
      ensures text == old(text) + json.encode(event) + "\n"
    {
      text := text + (json.encode(event) + "\n");
    }

    method LoadSessionEvents(json: Json, id: string) returns (r: Result<seq<LedgerEvent>, LedgerError>)
      ensures r == if HasNull(json, ReadLines(text)) then Err(ReadOfNull)
                   else Ok(SortBy(ByTime(json), SessionEvents(EventsOf(json, ReadLines(text)), id)))
      ensures r.Ok? ==> exists at :: InOrder(json, EventsOf(json, ReadLines(text)), id, r.value, at)
    {
      hide SortBy, ReadLines, InOrder;
      var _ := SortedInOrder(json, EventsOf(json, ReadLines(text)), id);
      var lines := ReadLines(text);
      var events: seq<LedgerEvent> := [];
      for n := 0 to |lines|
        invariant forall i | 0 <= i < n :: !json.parse(lines[i]).NullValue?
        invariant events == SessionEvents(EventsOf(json, lines[..n]), id)
      {
        assert lines[..n + 1][..n] == lines[..n];
        match json.parse(lines[n])
        case Unparseable =>
        case NullValue => return Err(ReadOfNull);
        case Sessionless =>
        case Event(event) =>
          SessionMore(EventsOf(json, lines[..n]), event, id);
          if event.sessionId == id {
            events := events + [event];
          }
      }
      assert lines[..|lines|] == lines;
      return Ok(SortBy(ByTime(json), events));
    }

    method SummarizeSession(json: Json, id: string) returns (r: Result<Option<SessionSummary>, LedgerError>)
      ensures r == if HasNull(json, ReadLines(text)) then Err(ReadOfNull)
                   else Ok(Summary(json, EventsOf(json, ReadLines(text)), id))
      ensures r.Ok? ==>
                var events := EventsOf(json, ReadLines(text));
                && (r.value.None? <==> forall p | 0 <= p < |events| :: events[p].sessionId != id)
                && (r.value.Some? ==> r.value.value.sessionId == id && Summarizes(json, events, r.value.value))
    {
      hide Summarizes, ReadLines, InOrder;
      SummaryMeaning(json, EventsOf(json, ReadLines(text)), id);
      var loaded := LoadSessionEvents(json, id);
      if loaded.Err? {
        return Err(loaded.error);
      }
      SortByAscends(ByTime(json), SessionEvents(EventsOf(json, ReadLines(text)), id));
      if |loaded.value| == 0 {
        return Ok(None);
      }
      return Ok(Some(SummaryOf(id, loaded.value)));
    }

    method LoadRecentSessions(json: Json, limit: nat) returns (r: Result<seq<SessionSummary>, LedgerError>)
      ensures r == if HasNull(json, ReadLines(text)) then Err(ReadOfNull)
                   else Ok(Take(Recent(json, EventsOf(json, ReadLines(text))), limit))
      ensures r.Ok? ==> exists start :: MostRecent(json, EventsOf(json, ReadLines(text)), limit, r.value, start)
    {
      hide MostRecent, ReadLines;
      ghost var start := RecentMeaning(json, EventsOf(json, ReadLines(text)), limit);
      var lines := ReadLines(text);
      var failed, order, sessions := GroupLines(json, lines);
      if failed {
        return Err(ReadOfNull);
      }
      var summaries := SummarizeAll(json, EventsOf(json, lines), order, sessions);
      return Ok(Take(SortBy(ByRecency(json), summaries), limit));
    }
  }

  /** The two readers agree: the recent sessions, unlimited, hold exactly one summary for every nonempty session id
      that has events, and it is the one summarizeSession gives. */
  lemma ReadersAgree(json: Json, events: seq<LedgerEvent>, id: string)
    requires id != ""
    ensures var recent := Recent(json, events);
            && (Summary(json, events, id).Some? <==> exists i :: 0 <= i < |recent| && recent[i].sessionId == id)
            && (forall i | 0 <= i < |recent| && recent[i].sessionId == id ::
                  Summary(json, events, id) == Some(recent[i]))
    ensures multiset(Recent(json, events)) == multiset(Summaries(json, events, Ids(events)))
    ensures var listed := Summaries(json, events, Ids(events));
            forall i, j | 0 <= i < j < |listed| :: listed[i].sessionId != listed[j].sessionId
  {
    hide SortBy, Ids, SessionEvents, Summaries;
    var ids := Ids(events);
    var listed, recent := Summaries(json, events, ids), Recent(json, events);
    forall i | 0 <= i < |ids| ensures SessionEvents(events, ids[i]) != [] {
      IdsAre(events, ids[i]);
    }
    IdsAre(events, id);
    SummariesAre(json, events, ids);
    SortByPermutes(ByRecency(json), listed);
    SortByAscends(ByTime(json), SessionEvents(events, id));
    assert forall i | 0 <= i < |ids| :: listed[i].sessionId == ids[i];
    forall i | 0 <= i < |recent| && recent[i].sessionId == id ensures Summary(json, events, id) == Some(recent[i]) {
      assert recent[i] in multiset(listed);
      var k :| 0 <= k < |listed| && listed[k] == recent[i];
    }
    if id in ids {
      var k :| 0 <= k < |ids| && ids[k] == id;
      assert listed[k] in multiset(recent);
    }
  }

  /** A summary reports the latest event of its session, the last one written among equal times, and counts all. */
  lemma SummaryIsLatest(json: Json, events: seq<LedgerEvent>, id: string) returns (k: nat)
    requires SessionEvents(events, id) != []
    ensures var mine := SessionEvents(events, id);
            && IsLatest(ByTime(json), mine, k)
            && Summary(json, events, id) == Some(SessionSummary(
                 id, mine[k].eventType, mine[k].gateStatus, mine[k].timestamp, mine[k].receiptHash,
                 mine[k].proposalDescription, |mine|))
  {
    k := SortEndsWithLatest(ByTime(json), SessionEvents(events, id));
  }

  lemma EmptyIsBlank()
    ensures Blank("")
  {
  }

  lemma TextsMember(json: Json, lines: seq<Line>, l: string)
    ensures l in Texts(json, lines) <==> exists i :: 0 <= i < |lines| && LineText(json, lines[i]) == l
  {
    if i :| 0 <= i < |lines| && LineText(json, lines[i]) == l {
      assert Texts(json, lines)[i] == l;
    }
  }

  lemma {:induction false} NonBlankMembers(lines: seq<string>)
    ensures forall l :: l in NonBlank(lines) <==> l in lines && !Blank(l)
  {
    if lines != [] {
      NonBlankMembers(lines[..|lines| - 1]);
      assert lines == lines[..|lines| - 1] + [lines[|lines| - 1]];
    }
  }

  /** The lines kept by the reader are the visible lines of the file. */
  lemma FileLines(json: Json, lines: seq<Line>)
    requires Faithful(json) && WellCorrupted(json, lines)
    ensures forall l :: l in ReadLines(FileText(json, lines))
                   <==> !Blank(l) && exists i :: 0 <= i < |lines| && LineText(json, lines[i]) == l
  {
    hide FileText, NonBlank, Split, Blank, LineText;
    SplitFile(json, lines);
    NonBlankMembers(Texts(json, lines) + [""]);
    EmptyIsBlank();
    forall l ensures l in Texts(json, lines) <==> exists i :: 0 <= i < |lines| && LineText(json, lines[i]) == l {
      TextsMember(json, lines, l);
    }
  }

  /** A line that parses to null stops every reader; nothing else does. */
  lemma ReadersFailIffNull(json: Json, lines: seq<Line>)
    requires Faithful(json) && WellCorrupted(json, lines)
    ensures HasNull(json, ReadLines(FileText(json, lines)))
       <==> exists i :: 0 <= i < |lines| && lines[i].Corrupt? && !Blank(lines[i].text)
                        && json.parse(lines[i].text).NullValue?
  {
    hide FileText, ReadLines, Blank;
    FileLines(json, lines);
    var kept := ReadLines(FileText(json, lines));
    if k :| 0 <= k < |kept| && json.parse(kept[k]).NullValue? {
      assert kept[k] in kept;
    }
    if i :| 0 <= i < |lines| && lines[i].Corrupt? && !Blank(lines[i].text) && json.parse(lines[i].text).NullValue? {
      assert LineText(json, lines[i]) in kept;
    }
  }
}
