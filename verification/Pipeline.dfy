/** Feeding routes through the monitor and into an event sink, from a sequence of routes or from a dump. */
module Pipeline {
  import opened Basics
  import opened Wrappers
  import opened Bytes
  import opened Monitor
  import opened MonitorRuns
  import opened MrtSightings
  import MrtReader
  import W = MrtWire

  class Sink {
    var events: seq<Event>

    constructor ()
      ensures events == []
    {
      events := [];
    }

    method Emit(e: Event)
      modifies this
      ensures events == old(events) + [e]
    {
      events := events + [e];
    }
  }

  /** What one sighting emits, and the suppression table after it. */
  function Admitted(cfg: Config, base: Baseline, table: Table, s: Sighting): (seq<Event>, Table) {
    Admit(cfg, table, Raw(cfg, base, s.route), TimeOf(s.route, s.clock))
  }

  /** A run, one sighting at a time. */
  lemma RunStep(cfg: Config, base: Baseline, table: Table, run: seq<Sighting>, i: nat)
    requires i < |run|
    ensures var (kept, after) := Admitted(cfg, base, table, run[i]);
            var next := NextBaseline(cfg, base, run[i].route);
            && AllEmitted(cfg, base, table, run[i..]) == kept + AllEmitted(cfg, next, after, run[i + 1..])
            && EndOf(cfg, base, table, run[i..]) == EndOf(cfg, next, after, run[i + 1..])
            && |AllRaised(cfg, base, run[i..])| == |Raw(cfg, base, run[i].route)| + |AllRaised(cfg, next, run[i + 1..])|
  {
    assert run[i..][0] == run[i] && run[i..][1..] == run[i + 1..];
  }

  /** A whole run: what it emits, how many detections it raises, and the state it leaves. */
  datatype Effect = Effect(emitted: seq<Event>, raised: nat, end: (Baseline, Table))

  function EffectOf(cfg: Config, base: Baseline, table: Table, run: seq<Sighting>): Effect {
    Effect(AllEmitted(cfg, base, table, run), |AllRaised(cfg, base, run)|, EndOf(cfg, base, table, run))
  }

  /** Part of a run is done: what it emitted and what is left make up the whole, and so do the counts. */
  ghost predicate Halfway(cfg: Config, base: Baseline, table: Table, left: seq<Sighting>,
                          done: seq<Event>, repeats: int, whole: Effect)
  {
    && done + AllEmitted(cfg, base, table, left) == whole.emitted
    && |done| + repeats + |AllRaised(cfg, base, left)| == whole.raised
    && EndOf(cfg, base, table, left) == whole.end
  }

  lemma HalfwayStep(cfg: Config, base: Baseline, table: Table, run: seq<Sighting>, i: nat,
                    done: seq<Event>, repeats: int, whole: Effect, more: int)
    requires i < |run| && Halfway(cfg, base, table, run[i..], done, repeats, whole)
    requires |Admitted(cfg, base, table, run[i]).0| + (more - repeats) == |Raw(cfg, base, run[i].route)|
    ensures var (kept, after) := Admitted(cfg, base, table, run[i]);
            Halfway(cfg, NextBaseline(cfg, base, run[i].route), after, run[i + 1..], done + kept, more, whole)
  {
    RunStep(cfg, base, table, run, i);
    var (kept, after) := Admitted(cfg, base, table, run[i]);
    Assoc(done, kept, AllEmitted(cfg, NextBaseline(cfg, base, run[i].route), after, run[i + 1..]));
  }

  class Analyzer {
    const monitor: PrefixMonitor
    const sink: Sink

    constructor (cfg: Config, sink: Sink)
      ensures this.sink == sink && fresh(monitor) && monitor.cfg == cfg
      ensures monitor.Base() == FRESH && monitor.lastEmitted == map[] && monitor.suppressed == 0
    {
      this.monitor := new PrefixMonitor(cfg);
      this.sink := sink;
    }

    /** The sink receives exactly the events the run emits, in order; the count returned is their
        number; every detection is accounted for, as emitted or as suppressed; and the monitor is left
        with the baseline and the table of the run, within its bound. */
    method ProcessRoutes(run: seq<Sighting>) returns (count: nat)
      modifies monitor, sink
      ensures sink.events
           == old(sink.events) + AllEmitted(monitor.cfg, old(monitor.Base()), old(monitor.lastEmitted), run)
      ensures count == |sink.events| - |old(sink.events)|
      ensures count + (monitor.suppressed - old(monitor.suppressed))
           == |AllRaised(monitor.cfg, old(monitor.Base()), run)|
      ensures (monitor.Base(), monitor.lastEmitted)
           == EndOf(monitor.cfg, old(monitor.Base()), old(monitor.lastEmitted), run)
      ensures |old(monitor.lastEmitted)| <= 100_000 ==> |monitor.lastEmitted| <= 100_000
    {
      count := 0;
      ghost var cfg := monitor.cfg;
      ghost var whole := EffectOf(cfg, monitor.Base(), monitor.lastEmitted, run);
      ghost var done: seq<Event> := [];
      assert run[0..] == run && done + whole.emitted == whole.emitted;
      for i := 0 to |run|
        invariant sink.events == old(sink.events) + done && count == |done|
        invariant Halfway(cfg, monitor.Base(), monitor.lastEmitted, run[i..], done,
                          monitor.suppressed - old(monitor.suppressed), whole)
      {
        ghost var base, table := monitor.Base(), monitor.lastEmitted;
        ghost var repeats := monitor.suppressed - old(monitor.suppressed);
        ghost var kept := Admitted(cfg, base, table, run[i]).0;
        count := ProcessRoute(run[i], count);
        HalfwayStep(cfg, base, table, run, i, done, repeats, whole, monitor.suppressed - old(monitor.suppressed));
        Assoc(old(sink.events), done, kept);
        done := done + kept;
      }
      assert run[|run|..] == [] && done + [] == done;
      if |old(monitor.lastEmitted)| <= 100_000 {
        RunStaysBounded(cfg, old(monitor.Base()), old(monitor.lastEmitted), run);
      }
    }

    /** A dump: the sink receives what the run over the routes of its readable part emits.  An error that
        is not confined to one record ends the dump; it is raised after those routes have been processed,
        and there is no count then.  Reading and observing share no state, so the routes are read first. */
    method ProcessMrt(input: bytes, seekable: bool, text: W.Cidr -> string, clock: nat -> int)
      returns (count: Option<nat>)
      modifies monitor, sink
      ensures var src := W.Source(16_777_216, seekable);
              var run := DumpRun(text, clock, src, input);
              && sink.events
                 == old(sink.events) + AllEmitted(monitor.cfg, old(monitor.Base()), old(monitor.lastEmitted), run)
              && (monitor.Base(), monitor.lastEmitted)
                 == EndOf(monitor.cfg, old(monitor.Base()), old(monitor.lastEmitted), run)
              && count == if W.Stream(src, NO_PEERS, input).complete
                          then Some(|sink.events| - |old(sink.events)|) else None
    {
      var reader := new MrtReader.MrtStreamReader(MrtReader.MAX_MRT_RECORD_LENGTH);
      var routes, complete := reader.ReadStream(input, seekable);
      var n := ProcessRoutes(Sightings(text, clock, routes));
      return if complete then Some(n) else None;
    }

    /** One route: observe it and deliver what it emits. */
    method ProcessRoute(s: Sighting, start: nat) returns (count: nat)
      modifies monitor, sink
      ensures var (kept, after) := Admitted(monitor.cfg, old(monitor.Base()), old(monitor.lastEmitted), s);
              sink.events == old(sink.events) + kept && count == start + |kept| && monitor.lastEmitted == after
      ensures monitor.Base() == NextBaseline(monitor.cfg, old(monitor.Base()), s.route)
      ensures count - start + (monitor.suppressed - old(monitor.suppressed))
           == |Raw(monitor.cfg, old(monitor.Base()), s.route)|
    {
      var kept := monitor.Observe(s.route, s.clock);
      count := Deliver(kept, start);
    }

    /** Hands one observation's events to the sink. */
    method Deliver(kept: seq<Event>, start: nat) returns (count: nat)
      modifies sink
      ensures sink.events == old(sink.events) + kept
      ensures count == start + |kept|
    {
      count := start;
      for j := 0 to |kept|
        invariant sink.events == old(sink.events) + kept[..j]
        invariant count == start + j
      {
        sink.Emit(kept[j]);
        count := count + 1;
      }
    }
  }
}
