/** Appending under the lock, read back by the ledger's readers (src/ledger_lock.ts and src/ledger.ts together). */
module LockedLedger {
  import opened LedgerLock
  import Ledger

  /** Every call appends the encoding of its event and a line end. */
  predicate AppendsEvents(cfg: Config, json: Ledger.Json, eventOf: Agent -> Ledger.LedgerEvent, a: Agent) {
    cfg.lineOf(a) == json.encode(eventOf(a)) + ['\n']
  }

  function EventLines(order: seq<Agent>, eventOf: Agent -> Ledger.LedgerEvent): seq<Ledger.Line> {
    seq(|order|, i requires 0 <= i < |order| => Ledger.Written(eventOf(order[i])))
  }

  function EventList(order: seq<Agent>, eventOf: Agent -> Ledger.LedgerEvent): seq<Ledger.LedgerEvent> {
    seq(|order|, i requires 0 <= i < |order| => eventOf(order[i]))
  }

  lemma {:induction false} FileTextSnoc(json: Ledger.Json, lines: seq<Ledger.Line>, line: Ledger.Line)
    ensures Ledger.FileText(json, lines + [line])
         == Ledger.FileText(json, lines) + (Ledger.LineText(json, line) + ['\n'])
  {
    if lines == [] {
      assert [line][1..] == [] && lines + [line] == [line];
    } else {
      assert (lines + [line])[1..] == lines[1..] + [line];
      FileTextSnoc(json, lines[1..], line);
    }
  }

  lemma {:induction false} LinesAreFile(cfg: Config, json: Ledger.Json, eventOf: Agent -> Ledger.LedgerEvent,
                                        order: seq<Agent>)
    requires forall a :: AppendsEvents(cfg, json, eventOf, a)
    ensures Lines(cfg, order) == Ledger.FileText(json, EventLines(order, eventOf))
  {
    if order != [] {
      var front, last := order[..|order| - 1], order[|order| - 1];
      LinesAreFile(cfg, json, eventOf, front);
      assert AppendsEvents(cfg, json, eventOf, last);
      FileTextSnoc(json, EventLines(front, eventOf), Ledger.Written(eventOf(last)));
      assert EventLines(order, eventOf) == EventLines(front, eventOf) + [Ledger.Written(eventOf(last))];
    }
  }

  lemma {:induction false} WrittenAre(order: seq<Agent>, eventOf: Agent -> Ledger.LedgerEvent)
    ensures Ledger.WrittenEvents(EventLines(order, eventOf)) == EventList(order, eventOf)
  {
    if order != [] {
      WrittenAre(order[1..], eventOf);
      assert EventLines(order, eventOf)[1..] == EventLines(order[1..], eventOf);
      assert EventList(order, eventOf) == [eventOf(order[0])] + EventList(order[1..], eventOf);
    }
  }

  /** Concurrent appends under the lock lose, repeat, reorder and mix nothing: whenever no append is under way, reading
      the ledger yields exactly the events of the calls that ever acquired the lock, each once, in the order in which
      they did. */
  lemma ConcurrentAppendsReadBack(cfg: Config, json: Ledger.Json, eventOf: Agent -> Ledger.LedgerEvent,
                                  acts: seq<Action>)
    requires Ledger.Faithful(json) && forall a :: AppendsEvents(cfg, json, eventOf, a)
    requires WritersLive(Run(cfg, acts)) && Run(cfg, acts).broken == {}
    requires forall a :: !PhaseOf(Run(cfg, acts), a).Holding?
    ensures var s := Run(cfg, acts);
            && Ledger.EventsOf(json, Ledger.ReadLines(s.ledger)) == EventList(s.order, eventOf)
            && (forall i, j | 0 <= i < j < |s.order| :: s.order[i] != s.order[j])
            && (forall a :: a in s.order <==> EverAcquired(cfg, acts, a))
            && (forall n: nat | n <= |acts| :: Run(cfg, acts[..n]).order <= s.order)
  {
    hide Run, EverAcquired;
    RunKeepsLedgerInv(cfg, acts);
    OrderIsAcquirers(cfg, acts);
    forall n: nat | n <= |acts| ensures Run(cfg, acts[..n]).order <= Run(cfg, acts).order {
      OrderGrows(cfg, acts, n);
    }
    var s := Run(cfg, acts);
    LedgerIsWholeLines(cfg, acts);
    LinesAreFile(cfg, json, eventOf, s.order);
    Ledger.LedgerReadsBack(json, EventLines(s.order, eventOf));
    WrittenAre(s.order, eventOf);
  }
}
