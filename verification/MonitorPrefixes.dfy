/**
 Prefixes do not interfere in what the monitor emits either, as long as the suppression table they share
 is never cleared: a suppression key carries its prefix, and what one prefix remembers is what it would
 remember alone.
 */
module MonitorPrefixes {
  import opened Monitor
  import opened MonitorRuns
  import opened Suppression

  function EventsNaming(events: seq<Event>, prefix: string): seq<Event> {
    if events == [] then []
    else
      var n := |events| - 1;
      EventsNaming(events[..n], prefix) + if events[n].prefix == prefix then [events[n]] else []
  }

  lemma EventsNamingLast(events: seq<Event>, e: Event, prefix: string)
    ensures EventsNaming(events + [e], prefix)
         == if e.prefix == prefix then EventsNaming(events, prefix) + [e] else EventsNaming(events, prefix)
  {
    assert (events + [e])[..|events|] == events;
  }

  function RequestOf(cfg: Config, x: Raised): Request { Request(KeyOf(cfg, x.event), x.now) }

  lemma RequestsLast(cfg: Config, raised: seq<Raised>, x: Raised)
    ensures Requests(cfg, raised + [x]) == Requests(cfg, raised) + [RequestOf(cfg, x)]
  {
  }

  /** The last detection is kept, or leaves nothing behind. */
  lemma NamingLast(raised: seq<Raised>, x: Raised, prefix: string)
    ensures Naming(raised + [x], prefix)
         == if x.event.prefix == prefix then Naming(raised, prefix) + [x] else Naming(raised, prefix)
  {
    NamingSum(raised, [x], prefix);
    assert [x][1..] == [];
  }

  lemma {:induction false} NamingKeepsOrder(raised: seq<Raised>, prefix: string, start: int)
    requires From(raised, start)
    ensures From(Naming(raised, prefix), start)
    decreases |raised|
  {
    if raised != [] {
      assert From(raised[1..], raised[0].now);
      NamingKeepsOrder(raised[1..], prefix, raised[0].now);
    }
  }

  lemma NamedInOrder(cfg: Config, raised: seq<Raised>, prefix: string)
    requires Ordered(Requests(cfg, raised))
    ensures Ordered(Requests(cfg, Naming(raised, prefix)))
  {
    if raised != [] {
      var reqs := Requests(cfg, raised);
      assert forall i :: 0 <= i < |raised| ==> reqs[i].now == raised[i].now;
      NamingKeepsOrder(raised, prefix, raised[0].now);
    }
  }

  // ---- The table that never forgets, seen by one prefix ----

  ghost predicate PartOf(part: Table, whole: Table, prefix: string) {
    && (forall k :: k in part <==> k in whole && k.prefix == prefix)
    && (forall k :: k in part ==> part[k] == whole[k])
  }

  /** The table after a request, if nothing is ever forgotten. */
  function Added(window: int, table: Table, r: Request): Table {
    if window <= 0 || Repeats(window, table, r.key, r.now) then table else table[r.key := r.now]
  }

  lemma PartGrows(window: int, part: Table, whole: Table, prefix: string, r: Request)
    requires PartOf(part, whole, prefix)
    ensures PartOf(if r.key.prefix == prefix then Added(window, part, r) else part, Added(window, whole, r), prefix)
    ensures r.key.prefix == prefix ==> Repeats(window, part, r.key, r.now) == Repeats(window, whole, r.key, r.now)
  {
  }

  lemma FullTableLast(window: int, reqs: seq<Request>, r: Request)
    ensures FullTable(window, reqs + [r]) == Added(window, FullTable(window, reqs), r)
  {
    assert (reqs + [r])[..|reqs|] == reqs;
  }

  lemma FullLetsThroughLast(cfg: Config, raised: seq<Raised>, x: Raised)
    ensures UnsuppressedByFull(cfg, raised + [x])
         == if Repeats(cfg.windowNs, FullTable(cfg.windowNs, Requests(cfg, raised)), KeyOf(cfg, x.event), x.now)
            then UnsuppressedByFull(cfg, raised) else UnsuppressedByFull(cfg, raised) + [x.event]
  {
    assert (raised + [x])[..|raised|] == raised;
    RequestsPrefix(cfg, raised + [x], |raised|);
  }

  lemma {:induction false} FullTableOfPrefix(cfg: Config, raised: seq<Raised>, prefix: string)
    ensures PartOf(FullTable(cfg.windowNs, Requests(cfg, Naming(raised, prefix))),
                   FullTable(cfg.windowNs, Requests(cfg, raised)), prefix)
  {
    if raised != [] {
      var before, x := raised[..|raised| - 1], raised[|raised| - 1];
      var shared, alone, r := Requests(cfg, before), Requests(cfg, Naming(before, prefix)), RequestOf(cfg, x);
      assert raised == before + [x];
      FullTableOfPrefix(cfg, before, prefix);
      NamingLast(before, x, prefix);
      RequestsLast(cfg, before, x);
      RequestsLast(cfg, Naming(before, prefix), x);
      FullTableLast(cfg.windowNs, shared, r);
      FullTableLast(cfg.windowNs, alone, r);
      PartGrows(cfg.windowNs, FullTable(cfg.windowNs, alone), FullTable(cfg.windowNs, shared), prefix, r);
    }
  }

  lemma {:induction false} FullLetsThroughByPrefix(cfg: Config, raised: seq<Raised>, prefix: string)
    ensures EventsNaming(UnsuppressedByFull(cfg, raised), prefix) == UnsuppressedByFull(cfg, Naming(raised, prefix))
  {
    if raised != [] {
      var before, x := raised[..|raised| - 1], raised[|raised| - 1];
      assert raised == before + [x];
      FullLetsThroughByPrefix(cfg, before, prefix);
      FullTableOfPrefix(cfg, before, prefix);
      NamingLast(before, x, prefix);
      FullLetsThroughLast(cfg, before, x);
      FullLetsThroughLast(cfg, Naming(before, prefix), x);
      PartGrows(cfg.windowNs, FullTable(cfg.windowNs, Requests(cfg, Naming(before, prefix))),
                FullTable(cfg.windowNs, Requests(cfg, before)), prefix, RequestOf(cfg, x));
      EventsNamingLast(UnsuppressedByFull(cfg, before), x.event, prefix);
    }
  }

  // ---- The reduced run cannot clear ----

  /** What a bounded table of the prefix alone still holds at a later time, the shared one holds too. */
  lemma LiveKeysAreShared(window: int, alone: Table, aloneFull: Table, shared: Table, full: Table,
                          prefix: string, aloneLast: int, sharedLast: int, now: int)
    requires Agrees(window, alone, aloneFull, aloneLast) && Agrees(window, shared, full, sharedLast)
    requires PartOf(aloneFull, full, prefix) && aloneLast <= now && sharedLast <= now
    ensures |Live(window, alone, now)| <= |Live(window, shared, now)|
  {
    var a, b := Live(window, alone, now), Live(window, shared, now);
    forall k | k in a ensures k in b {
      assert k in aloneFull && full[k] == alone[k];
    }
    assert a.Keys <= b.Keys;
    SubsetSize(a.Keys, b.Keys);
  }

  lemma LiveIsPart(window: int, table: Table, now: int)
    ensures |Live(window, table, now)| <= |table|
  {
    assert Live(window, table, now).Keys <= table.Keys;
    SubsetSize(Live(window, table, now).Keys, table.Keys);
  }

  /** If the next request cleared the table of the prefix alone, it would clear the shared one. */
  lemma ClearIsShared(window: int, alone: seq<Request>, shared: seq<Request>, r: Request)
    requires Ordered(alone + [r]) && Ordered(shared + [r])
    requires NeverClears(window, alone) && NeverClears(window, shared)
    requires PartOf(FullTable(window, alone), FullTable(window, shared), r.key.prefix)
    requires ClearsAt(window, alone + [r], |alone|)
    ensures ClearsAt(window, shared + [r], |shared|)
  {
    assert (alone + [r])[..|alone|] == alone && (shared + [r])[..|shared|] == shared;
    NextDecidedAlike(window, alone, r);
    NextDecidedAlike(window, shared, r);
    LiveIsPart(window, TableAfter(window, shared), r.now);
    assert alone != [];
    PrefixFacts(window, alone + [r], |alone|);
    PrefixFacts(window, shared + [r], |shared|);
    TablesAgree(window, alone);
    assert (alone + [r])[|alone| - 1] == alone[|alone| - 1];
    var k :| k in TableAfter(window, alone);
    assert k in FullTable(window, shared) && shared != [];
    TablesAgree(window, shared);
    assert (shared + [r])[|shared| - 1] == shared[|shared| - 1];
    LiveKeysAreShared(window, TableAfter(window, alone), FullTable(window, alone),
                      TableAfter(window, shared), FullTable(window, shared),
                      r.key.prefix, alone[|alone| - 1].now, shared[|shared| - 1].now, r.now);
  }

  lemma LastNeverClears(window: int, reqs: seq<Request>, r: Request)
    requires NeverClears(window, reqs) && !ClearsAt(window, reqs + [r], |reqs|)
    ensures NeverClears(window, reqs + [r])
  {
    forall i | 0 <= i < |reqs| ensures !ClearsAt(window, reqs + [r], i) {
      assert (reqs + [r])[..i] == reqs[..i];
      assert !ClearsAt(window, reqs, i);
    }
  }

  lemma {:induction false} PrefixAloneNeverClears(cfg: Config, raised: seq<Raised>, prefix: string)
    requires Ordered(Requests(cfg, raised)) && NeverClears(cfg.windowNs, Requests(cfg, raised))
    ensures NeverClears(cfg.windowNs, Requests(cfg, Naming(raised, prefix)))
  {
    if raised != [] {
      var before, x := raised[..|raised| - 1], raised[|raised| - 1];
      var shared, alone, r := Requests(cfg, before), Requests(cfg, Naming(before, prefix)), RequestOf(cfg, x);
      assert raised == before + [x];
      RequestsLast(cfg, before, x);
      assert (shared + [r])[..|shared|] == shared;
      PrefixFacts(cfg.windowNs, shared + [r], |shared|);
      PrefixAloneNeverClears(cfg, before, prefix);
      NamingLast(before, x, prefix);
      if x.event.prefix == prefix {
        RequestsLast(cfg, Naming(before, prefix), x);
        NamedInOrder(cfg, raised, prefix);
        FullTableOfPrefix(cfg, before, prefix);
        if ClearsAt(cfg.windowNs, alone + [r], |alone|) {
          ClearIsShared(cfg.windowNs, alone, shared, r);
        }
        LastNeverClears(cfg.windowNs, alone, r);
      }
    }
  }

  lemma {:induction false} OnlyMembers(run: seq<Sighting>, prefix: string, s: Sighting)
    requires s in Only(run, prefix)
    ensures s in run
  {
    if run[0] != s { OnlyMembers(run[1..], prefix, s); }
  }

  lemma {:induction false} OnlyKeepsOrder(run: seq<Sighting>, prefix: string)
    requires InOrder(run)
    ensures InOrder(Only(run, prefix))
  {
    if run != [] {
      LaterInOrder(run);
      OnlyKeepsOrder(run[1..], prefix);
      forall s | s in Only(run[1..], prefix) ensures TimeOf(run[0].route, run[0].clock) <= TimeOf(s.route, s.clock) {
        OnlyMembers(run[1..], prefix, s);
      }
    }
  }

  /** A monitor that sees routes in the order of their times, and never clears its table, emits about one
      prefix text exactly what it would emit if it saw no other: whatever else is announced neither adds
      an event, nor hides one, nor changes one. */
  lemma EmittedDoNotInterfere(cfg: Config, run: seq<Sighting>, prefix: string)
    requires InOrder(run) && NeverClears(cfg.windowNs, Requests(cfg, AllRaised(cfg, FRESH, run)))
    ensures EventsNaming(AllEmitted(cfg, FRESH, map[], run), prefix)
         == AllEmitted(cfg, FRESH, map[], Only(run, prefix))
  {
    var raised := AllRaised(cfg, FRESH, run);
    RequestsInOrder(cfg, run);
    BoundedMonitorRefinesFull(cfg, run);
    FullLetsThroughByPrefix(cfg, raised, prefix);
    PrefixesDoNotInterfere(cfg, FRESH, FRESH, run, prefix);
    OnlyKeepsOrder(run, prefix);
    PrefixAloneNeverClears(cfg, raised, prefix);
    BoundedMonitorRefinesFull(cfg, Only(run, prefix));
  }
}
