/**
 The revocation deny-list of a listener: a mandatory first load with a bounded number of attempts,
 periodic snapshots that replace the list, and pushes that add to it as revocations happen.  The step
 system has every interleaving of the boot sequence, the refresh loop, the pushers and whatever
 persists revocations; the classes are the code itself, and the boot code is proved to take steps of
 that system only.
 */
module DenyList {
  import opened Wrappers

  type Id = string

  // ---- The step system ----

  /** Where the start of the transport stands.  Attempt i is about to list the revocations or lists
      them; or it failed and the next one is waited for; or the start was given up; or the list is
      loaded, the push hook is installed, the ticker runs, and the listener serves, in this order. */
  datatype Phase =
    | Trying(attempt: nat)
    | Waiting(attempt: nat)
    | Cancelled
    | Exhausted
    | Loaded
    | Hooked
    | Ticking
    | Serving
  {
    /** The start was refused. */
    predicate Refused() { Cancelled? || Exhausted? }

    /** The first load is behind us. */
    predicate Open() { Loaded? || Hooked? || Ticking? || Serving? }
  }

  /** A snapshot being taken: what was persisted when it began, and what it read, once it has. */
  datatype Reload = Reload(begun: set<Id>, snapshot: Option<set<Id>>) {
    function Seen(): set<Id> { if snapshot.Some? then snapshot.value else {} }
  }

  /** `settled` is the history of everything that was persisted before some load that has since been
      applied began. */
  datatype State = State(
    attempts: int, phase: Phase, persisted: set<Id>, denied: set<Id>, reload: Option<Reload>, settled: set<Id>)

  datatype Step =
    | Persist(id: Id)
    | Push(id: Id)
    | Begin
    | Read
    | Fail
    | Land
    | Elapse
    | Cancel
    | Hook
    | Start
    | Serve

  /** Before attempt i; without a single attempt there is nothing to try. */
  function AttemptPhase(attempts: int, i: nat): Phase { if attempts <= 0 then Exhausted else Trying(i) }

  function Init(attempts: int): State {
    State(attempts, AttemptPhase(attempts, 0), {}, {}, None, {})
  }

  /** One loader runs at a time: the attempts of the start, then the ticker.  A push needs the hook. */
  predicate Enabled(s: State, step: Step) {
    match step
    case Persist(_) => true
    case Push(x) => (s.phase.Hooked? || s.phase.Ticking? || s.phase.Serving?) && x in s.persisted
    case Begin => s.reload.None? && (s.phase.Trying? || s.phase.Ticking? || s.phase.Serving?)
    case Read => s.reload.Some? && s.reload.value.snapshot.None?
    case Fail => s.reload.Some?
    case Land => s.reload.Some? && s.reload.value.snapshot.Some?
    case Elapse => s.phase.Waiting?
    case Cancel => s.phase.Waiting?
    case Hook => s.phase.Loaded?
    case Start => s.phase.Hooked?
    case Serve => s.phase.Ticking?
  }

  /** After a failed attempt: the last one ends the start, the others are waited out. */
  function AfterFailure(phase: Phase, attempts: int): Phase {
    if !phase.Trying? then phase
    else if phase.attempt == attempts - 1 then Exhausted
    else Waiting(phase.attempt)
  }

  function Apply(s: State, step: Step): State
    requires Enabled(s, step)
  {
    match step
    case Persist(x) => s.(persisted := s.persisted + {x})
    case Push(x) => s.(denied := s.denied + {x})
    case Begin => s.(reload := Some(Reload(s.persisted, None)))
    case Read => s.(reload := Some(s.reload.value.(snapshot := Some(s.persisted))))
    case Fail => s.(reload := None, phase := AfterFailure(s.phase, s.attempts))
    case Land =>
      s.(denied := s.reload.value.snapshot.value, reload := None, settled := s.settled + s.reload.value.begun,
         phase := if s.phase.Trying? then Loaded else s.phase)
    case Elapse => s.(phase := Trying(s.phase.attempt + 1))
    case Cancel => s.(phase := Cancelled)
    case Hook => s.(phase := Hooked)
    case Start => s.(phase := Ticking)
    case Serve => s.(phase := Serving)
  }

  function Exec(from: State, run: seq<Step>): Option<State>
    decreases |run|
  {
    if run == [] then Some(from)
    else
      match Exec(from, run[..|run| - 1])
      case None => None
      case Some(s) => if Enabled(s, run[|run| - 1]) then Some(Apply(s, run[|run| - 1])) else None
  }

  predicate Inv(s: State) {
    && s.denied <= s.persisted && s.settled <= s.denied
    && (!s.phase.Open() ==> s.denied == {} && s.settled == {})
    && (s.phase.Trying? ==> s.phase.attempt < s.attempts)
    && (s.phase.Waiting? ==> s.phase.attempt + 1 < s.attempts)
    && (s.reload.Some? ==>
          && (s.phase.Trying? || s.phase.Ticking? || s.phase.Serving?)
          && s.settled <= s.reload.value.begun <= s.persisted
          && (s.reload.value.snapshot.Some? ==>
                s.reload.value.begun <= s.reload.value.snapshot.value <= s.persisted))
  }

  lemma StepKeepsInv(s: State, step: Step)
    requires Inv(s) && Enabled(s, step)
    ensures Inv(Apply(s, step))
    ensures s.settled <= Apply(s, step).settled && s.persisted <= Apply(s, step).persisted
    ensures s.phase.Open() ==> Apply(s, step).phase.Open()
    ensures s.phase.Refused() ==> Apply(s, step).phase == s.phase
  {
  }

  lemma {:induction false} RunsKeepInv(from: State, run: seq<Step>)
    requires Inv(from) && Exec(from, run).Some?
    ensures Inv(Exec(from, run).value)
    ensures from.settled <= Exec(from, run).value.settled
    ensures from.phase.Refused() ==> Exec(from, run).value.phase == from.phase
    decreases |run|
  {
    if run != [] {
      var before := run[..|run| - 1];
      RunsKeepInv(from, before);
      StepKeepsInv(Exec(from, before).value, run[|run| - 1]);
    }
  }

  lemma {:induction false} ExecInPieces(from: State, a: seq<Step>, b: seq<Step>)
    ensures Exec(from, a + b) == match Exec(from, a) case None => None case Some(s) => Exec(s, b)
    decreases |b|
  {
    if b == [] {
      assert a + b == a;
    } else {
      var k := |b| - 1;
      assert (a + b)[..|a + b| - 1] == a + b[..k];
      ExecInPieces(from, a, b[..k]);
    }
  }

  lemma One(s: State, step: Step)
    ensures Exec(s, [step]) == if Enabled(s, step) then Some(Apply(s, step)) else None
  {
    assert [step][..0] == [];
  }

  /** A run that happens has happened up to every point of it. */
  lemma PrefixHappens(from: State, run: seq<Step>, k: nat)
    requires k <= |run| && Exec(from, run).Some?
    ensures Exec(from, run[..k]).Some?
    ensures k < |run| ==> Enabled(Exec(from, run[..k]).value, run[k])
  {
    assert run == run[..k] + run[k..];
    ExecInPieces(from, run[..k], run[k..]);
    if k < |run| {
      assert run[..k + 1][..k] == run[..k];
      assert run == run[..k + 1] + run[k + 1..];
      ExecInPieces(from, run[..k + 1], run[k + 1..]);
    }
  }

  // ---- The start gate ----

  predicate Landed(run: seq<Step>) { exists n :: 0 <= n < |run| && run[n] == Land }

  function Fails(run: seq<Step>): nat {
    if run == [] then 0 else Fails(run[..|run| - 1]) + if run[|run| - 1] == Fail then 1 else 0
  }

  lemma LandedStep(run: seq<Step>)
    requires run != []
    ensures Landed(run) <==> Landed(run[..|run| - 1]) || run[|run| - 1] == Land
  {
    var k := |run| - 1;
    if n :| 0 <= n < |run[..k]| && run[..k][n] == Land { assert run[n] == Land; }
    if n :| 0 <= n < |run| && run[n] == Land {
      if n < k { assert run[..k][n] == Land; }
    }
  }

  lemma CancelStep(run: seq<Step>)
    requires run != []
    ensures Cancel in run <==> Cancel in run[..|run| - 1] || run[|run| - 1] == Cancel
  {
    assert run == run[..|run| - 1] + [run[|run| - 1]];
  }

  /** How the start ends is decided by the run: it is behind the gate exactly when a snapshot has
      landed, exhausted exactly when none has and all attempts failed, cancelled exactly when a wait
      was cut short; until then the attempt under way is the number of failures. */
  lemma {:induction false} StartIsDecided(attempts: int, run: seq<Step>)
    requires Exec(Init(attempts), run).Some?
    ensures var s := Exec(Init(attempts), run).value;
            && s.attempts == attempts && Inv(s)
            && (s.phase.Open() <==> Landed(run))
            && (s.phase.Exhausted? <==> !Landed(run) && Fails(run) >= attempts)
            && (s.phase.Cancelled? <==> Cancel in run)
            && (s.phase.Trying? ==> s.phase.attempt == Fails(run))
            && (s.phase.Waiting? ==> s.phase.attempt + 1 == Fails(run))
            && (s.phase.Cancelled? ==> 0 < Fails(run) < attempts)
  {
    if run != [] {
      var k := |run| - 1;
      StartIsDecided(attempts, run[..k]);
      StepKeepsInv(Exec(Init(attempts), run[..k]).value, run[k]);
      LandedStep(run);
      CancelStep(run);
    }
  }

  /** Nothing is served and no push is taken before a snapshot has landed, and the first one that
      lands is that of an attempt of the start, reached by fewer failures than there are attempts. */
  lemma ServesOnlyAfterLoad(attempts: int, run: seq<Step>, k: nat)
    requires Exec(Init(attempts), run).Some? && k < |run| && (run[k] == Serve || run[k].Push?)
    ensures exists n :: FirstLanding(attempts, run, n) && n < k
  {
    PrefixHappens(Init(attempts), run, k);
    StartIsDecided(attempts, run[..k]);
    var n := FirstLand(run[..k]);
    assert run[..k][..n] == run[..n] && run[n] == Land;
    LandsInTheStart(attempts, run, n);
  }

  lemma FirstLand(run: seq<Step>) returns (n: nat)
    requires Landed(run)
    ensures n < |run| && run[n] == Land && !Landed(run[..n])
  {
    n := 0;
    while run[n] != Land
      invariant n < |run| && !Landed(run[..n])
      invariant exists m :: n <= m < |run| && run[m] == Land
      decreases |run| - n
    {
      assert run[..n + 1][..n] == run[..n];
      LandedStep(run[..n + 1]);
      n := n + 1;
    }
  }

  lemma LandsInTheStart(attempts: int, run: seq<Step>, n: nat)
    requires Exec(Init(attempts), run).Some? && n < |run| && run[n] == Land && !Landed(run[..n])
    ensures FirstLanding(attempts, run, n)
  {
    PrefixHappens(Init(attempts), run, n);
    StartIsDecided(attempts, run[..n]);
  }

  /** At n the first snapshot lands, in an attempt of the start. */
  predicate FirstLanding(attempts: int, run: seq<Step>, n: int) {
    && 0 <= n < |run| && run[n] == Land && !Landed(run[..n])
    && Fails(run[..n]) < attempts
    && Exec(Init(attempts), run[..n]).Some?
    && Exec(Init(attempts), run[..n]).value.phase == Trying(Fails(run[..n]))
  }

  /** A start that was cancelled or has run out of attempts has served nothing, taken no push and loaded
      nothing, and never will, whatever happens afterwards. */
  lemma RefusedStartNeverServes(attempts: int, run: seq<Step>, after: seq<Step>, k: nat)
    requires Exec(Init(attempts), run).Some? && Exec(Init(attempts), run).value.phase.Refused()
    requires Exec(Init(attempts), run + after).Some? && k < |run + after|
    ensures (run + after)[k] != Serve && !(run + after)[k].Push? && (run + after)[k] != Land
    ensures Exec(Init(attempts), run + after).value.denied == {}
  {
    var all := run + after;
    ExecInPieces(Init(attempts), run, after);
    StartIsDecided(attempts, run);
    RunsKeepInv(Exec(Init(attempts), run).value, after);
    StartIsDecided(attempts, all);
    assert (exists n :: FirstLanding(attempts, all, n) && n < k) ==> Landed(all);
    if all[k] == Serve || all[k].Push? {
      ServesOnlyAfterLoad(attempts, all, k);
    }
  }

  lemma RefusedHasNotServed(attempts: int, run: seq<Step>)
    requires Exec(Init(attempts), run).Some? && Exec(Init(attempts), run).value.phase.Refused()
    ensures Serve !in run
  {
    assert run + [] == run;
    forall k | 0 <= k < |run| ensures run[k] != Serve {
      RefusedStartNeverServes(attempts, run, [], k);
    }
  }

  // ---- What a load does ----

  /** No other load begins, lands or fails in this part of a run. */
  predicate OneLoad(run: seq<Step>) {
    forall i :: 0 <= i < |run| ==> run[i] != Begin && run[i] != Land && run[i] != Fail
  }

  function Pushed(run: seq<Step>): set<Id> { set i | 0 <= i < |run| && run[i].Push? :: run[i].id }

  lemma PushedStep(run: seq<Step>)
    requires run != []
    ensures Pushed(run)
         == Pushed(run[..|run| - 1]) + if run[|run| - 1].Push? then {run[|run| - 1].id} else {}
  {
    var k := |run| - 1;
    forall x ensures x in Pushed(run) <==> x in Pushed(run[..k]) || (run[k].Push? && x == run[k].id) {
      if x in Pushed(run[..k]) {
        var i :| 0 <= i < k && run[..k][i].Push? && run[..k][i].id == x;
        assert run[i].Push? && run[i].id == x;
      }
      if x in Pushed(run) {
        var i :| 0 <= i < |run| && run[i].Push? && run[i].id == x;
        if i < k { assert run[..k][i] == run[i]; }
      }
    }
  }

  lemma {:induction false} LoadKeepsItsStart(s: State, run: seq<Step>)
    requires s.reload.Some? && OneLoad(run) && Exec(s, run).Some?
    ensures Exec(s, run).value.reload.Some? && Exec(s, run).value.reload.value.begun == s.reload.value.begun
    ensures Exec(s, run).value.denied == s.denied + Pushed(run)
    decreases |run|
  {
    if run != [] {
      LoadKeepsItsStart(s, run[..|run| - 1]);
      PushedStep(run);
    }
  }

  /** A load that fails, at any point, leaves the list it found, and exactly what was pushed meanwhile. */
  lemma FailedLoadKeepsList(attempts: int, before: seq<Step>, during: seq<Step>)
    requires OneLoad(during) && Exec(Init(attempts), before).Some?
    requires Exec(Init(attempts), before + [Begin] + during + [Fail]).Some?
    ensures Exec(Init(attempts), before + [Begin] + during + [Fail]).value.denied
         == Exec(Init(attempts), before).value.denied + Pushed(during)
  {
    ExecInPieces(Init(attempts), before + [Begin] + during, [Fail]);
    ExecInPieces(Init(attempts), before + [Begin], during);
    ExecInPieces(Init(attempts), before, [Begin]);
    var s := Exec(Init(attempts), before).value;
    One(s, Begin);
    LoadKeepsItsStart(Apply(s, Begin), during);
    One(Exec(Apply(s, Begin), during).value, Fail);
  }

  /** Everything persisted before a load began is denied from the moment that load lands, in every
      continuation: later snapshots and pushes never lose it. */
  lemma PersistedBeforeLoadStaysDenied(
    attempts: int, before: seq<Step>, during: seq<Step>, after: seq<Step>, id: Id)
    requires OneLoad(during)
    requires Exec(Init(attempts), before + [Begin] + during + [Land] + after).Some?
    requires Exec(Init(attempts), before).Some? && id in Exec(Init(attempts), before).value.persisted
    ensures id in Exec(Init(attempts), before + [Begin] + during + [Land] + after).value.denied
  {
    var upTo := before + [Begin] + during;
    ExecInPieces(Init(attempts), upTo + [Land], after);
    ExecInPieces(Init(attempts), upTo, [Land]);
    ExecInPieces(Init(attempts), before + [Begin], during);
    ExecInPieces(Init(attempts), before, [Begin]);
    var s0 := Exec(Init(attempts), before).value;
    One(s0, Begin);
    var s1 := Apply(s0, Begin);
    LoadKeepsItsStart(s1, during);
    var s2 := Exec(s1, during).value;
    One(s2, Land);
    var s3 := Apply(s2, Land);
    assert id in s3.settled;
    RunsKeepInv(Init(attempts), upTo + [Land]);
    RunsKeepInv(s3, after);
  }

  /** The exact condition: when a snapshot lands, an id is on the list if and only if it was persisted
      before that snapshot was read, whatever was pushed in between. */
  lemma LandedListIsWhatWasRead(attempts: int, before: seq<Step>, during: seq<Step>, id: Id)
    requires OneLoad(during) && Exec(Init(attempts), before).Some?
    requires Exec(Init(attempts), before + [Read] + during + [Land]).Some?
    ensures id in Exec(Init(attempts), before + [Read] + during + [Land]).value.denied
       <==> id in Exec(Init(attempts), before).value.persisted
  {
    ExecInPieces(Init(attempts), before + [Read] + during, [Land]);
    ExecInPieces(Init(attempts), before + [Read], during);
    ExecInPieces(Init(attempts), before, [Read]);
    var s0 := Exec(Init(attempts), before).value;
    One(s0, Read);
    ReadKeepsItsSnapshot(Apply(s0, Read), during);
    One(Exec(Apply(s0, Read), during).value, Land);
  }

  lemma {:induction false} ReadKeepsItsSnapshot(s: State, run: seq<Step>)
    requires s.reload.Some? && s.reload.value.snapshot.Some? && OneLoad(run) && Exec(s, run).Some?
    ensures Exec(s, run).value.reload == s.reload
    decreases |run|
  {
    if run != [] { ReadKeepsItsSnapshot(s, run[..|run| - 1]); }
  }

  /** At n a snapshot lands that was read without the id. */
  predicate LandsWithout(s: State, run: seq<Step>, n: int, id: Id) {
    && 0 <= n < |run| && run[n] == Land
    && Exec(s, run[..n]).Some? && Exec(s, run[..n]).value.reload.Some?
    && id !in Exec(s, run[..n]).value.reload.value.Seen()
  }

  lemma LandsEarlier(s: State, run: seq<Step>, k: nat, n: int, id: Id)
    requires k <= |run|
    ensures LandsWithout(s, run[..k], n, id) ==> LandsWithout(s, run, n, id)
  {
    if 0 <= n < k { assert run[..k][..n] == run[..n]; }
  }

  /** A denied id goes only when a snapshot lands that was read before the id was persisted. */
  lemma {:induction false} DeniedUntilOlderSnapshotLands(s: State, run: seq<Step>, id: Id)
    requires id in s.denied && Exec(s, run).Some?
    requires forall n :: !LandsWithout(s, run, n, id)
    ensures id in Exec(s, run).value.denied
    decreases |run|
  {
    if run != [] {
      var k := |run| - 1;
      var before := run[..k];
      forall n ensures !LandsWithout(s, before, n, id) {
        assert !LandsWithout(s, run, n, id);
        LandsEarlier(s, run, k, n, id);
      }
      DeniedUntilOlderSnapshotLands(s, before, id);
      assert !LandsWithout(s, run, k, id);
    }
  }

  /** A run given by the states it goes through. */
  lemma {:induction false} Traced(s: State, run: seq<Step>, states: seq<State>)
    requires |states| == |run| + 1 && states[0] == s
    requires forall i :: 0 <= i < |run| ==> Enabled(states[i], run[i]) && states[i + 1] == Apply(states[i], run[i])
    ensures Exec(s, run) == Some(states[|run|])
    decreases |run|
  {
    if run != [] { Traced(s, run[..|run| - 1], states[..|run|]); }
  }

  /** A push alone is not enough: an in-flight snapshot read before the revocation was persisted takes
      it off the list when it lands, and the next load puts it back. */
  lemma PushCanBeLost(id: Id)
    ensures var race := [Begin, Read, Land, Hook, Start, Serve, Begin, Read, Persist(id), Push(id)];
            && Exec(Init(1), race).Some? && id in Exec(Init(1), race).value.denied
            && Exec(Init(1), race + [Land]).Some? && id !in Exec(Init(1), race + [Land]).value.denied
            && Exec(Init(1), race + [Land]).value.phase == Serving
            && Exec(Init(1), race + [Land] + [Begin, Read, Land]).Some?
            && id in Exec(Init(1), race + [Land] + [Begin, Read, Land]).value.denied
  {
    var none: set<Id> := {};
    assert none + none == none && none + {id} == {id};
    var reading := Some(Reload(none, None));
    var read := Some(Reload(none, Some(none)));
    var race := [Begin, Read, Land, Hook, Start, Serve, Begin, Read, Persist(id), Push(id)];
    var states := [
      State(1, Trying(0), none, none, None, none),
      State(1, Trying(0), none, none, reading, none),
      State(1, Trying(0), none, none, read, none),
      State(1, Loaded, none, none, None, none),
      State(1, Hooked, none, none, None, none),
      State(1, Ticking, none, none, None, none),
      State(1, Serving, none, none, None, none),
      State(1, Serving, none, none, reading, none),
      State(1, Serving, none, none, read, none),
      State(1, Serving, {id}, none, read, none),
      State(1, Serving, {id}, {id}, read, none)];
    Traced(Init(1), race, states);
    var lost := State(1, Serving, {id}, none, None, none);
    ExecInPieces(Init(1), race, [Land]);
    One(states[10], Land);
    assert Exec(Init(1), race + [Land]) == Some(lost);
    ExecInPieces(Init(1), race + [Land], [Begin, Read, Land]);
    Traced(lost, [Begin, Read, Land], [
      lost,
      lost.(reload := Some(Reload({id}, None))),
      lost.(reload := Some(Reload({id}, Some({id})))),
      State(1, Serving, {id}, {id}, None, {id})]);
  }

  // ---- The code that starts the agent transport ----

  /** What the environment does to one attempt: revocations persisted before its read and after it,
      whether the read succeeds, and whether the wait behind it is cut short. */
  datatype Attempt = Attempt(early: seq<Id>, ok: bool, late: seq<Id>, cancelled: bool)

  /** Attempt i reads the persisted list, and the ones before it failed and were not cut short. */
  predicate ReachedAt(tries: seq<Attempt>, attempts: int, i: int) {
    && 0 <= i < |tries| && i < attempts && tries[i].ok
    && forall j :: 0 <= j < i ==> !tries[j].ok && !tries[j].cancelled
  }

  /** The wait after attempt i is cut short, and the start got there. */
  predicate CutShortAt(tries: seq<Attempt>, attempts: int, i: int) {
    && 0 <= i < |tries| && i < attempts - 1 && !tries[i].ok && tries[i].cancelled
    && forall j :: 0 <= j < i ==> !tries[j].ok && !tries[j].cancelled
  }

  /** Some attempt gets the list, or some wait is cut short. */
  ghost predicate Reaches(tries: seq<Attempt>, attempts: int) { exists i :: ReachedAt(tries, attempts, i) }

  ghost predicate CutShort(tries: seq<Attempt>, attempts: int) { exists i :: CutShortAt(tries, attempts, i) }

  /** How attempt i ends the start, or None when another one follows. */
  function EndOf(t: Attempt, i: nat, attempts: int): Option<Boot> {
    if t.ok then Some(Up)
    else if i == attempts - 1 then Some(GaveUp)
    else if t.cancelled then Some(Stopped)
    else None
  }

  lemma AttemptEnds(tries: seq<Attempt>, attempts: int, i: nat, r: Boot)
    requires i < attempts <= |tries| && EndOf(tries[i], i, attempts) == Some(r)
    requires forall j :: 0 <= j < i ==> !tries[j].ok && !tries[j].cancelled
    ensures r == Up <==> Reaches(tries, attempts)
    ensures r == Stopped <==> CutShort(tries, attempts)
    ensures forall k :: ReachedAt(tries, attempts, k) ==> k == i
  {
    assert ReachedAt(tries, attempts, i) || CutShortAt(tries, attempts, i) || i == attempts - 1;
  }

  lemma AllFailed(tries: seq<Attempt>, attempts: int)
    requires attempts <= |tries|
    requires forall j :: 0 <= j < attempts ==> !tries[j].ok && (j < attempts - 1 ==> !tries[j].cancelled)
    ensures !Reaches(tries, attempts) && !CutShort(tries, attempts)
  {
  }

  function Ids(ids: seq<Id>): set<Id> { set x | x in ids }

  /** What is persisted before the reads of the first n attempts. */
  function Early(tries: seq<Attempt>, n: nat): set<Id>
    requires n <= |tries|
  {
    if n == 0 then {} else Early(tries, n - 1) + Ids(tries[n - 1].early)
  }

  datatype Boot = Up | Stopped | GaveUp

  function PhaseOf(r: Boot): Phase { match r case Up => Loaded case Stopped => Cancelled case GaveUp => Exhausted }

  class AgentTransport {
    const attempts: int

    var persisted: set<Id>
    var denied: set<Id>
    ghost var run: seq<Step>

    constructor (attempts: int)
      ensures this.attempts == attempts && denied == {} && run == []
      ensures Stands(AttemptPhase(attempts, 0), None)
    {
      this.attempts := attempts;
      persisted, denied, run := {}, {}, [];
    }

    /** What happened so far is a run of the step system and has led to this phase and this load. */
    ghost predicate Stands(phase: Phase, reload: Option<Reload>)
      reads this
    {
      var s := Exec(Init(attempts), run);
      && s.Some? && s.value.attempts == attempts && s.value.phase == phase && s.value.reload == reload
      && s.value.persisted == persisted && s.value.denied == denied
    }

    ghost function World(): State
      reads this
      requires Exec(Init(attempts), run).Some?
    {
      Exec(Init(attempts), run).value
    }

    lemma Extend(step: Step)
      requires Exec(Init(attempts), run).Some?
      ensures Exec(Init(attempts), run + [step])
           == if Enabled(World(), step) then Some(Apply(World(), step)) else None
    {
      ExecInPieces(Init(attempts), run, [step]);
      One(World(), step);
    }

    /** Revocations that are persisted meanwhile. */
    method Happen(ids: seq<Id>, ghost phase: Phase, ghost reload: Option<Reload>)
      requires Stands(phase, reload)
      modifies this
      ensures Stands(phase, reload) && denied == old(denied)
      ensures persisted == old(persisted) + Ids(ids)
    {
      for i := 0 to |ids|
        invariant Stands(phase, reload) && denied == old(denied)
        invariant persisted == old(persisted) + Ids(ids[..i])
      {
        assert ids[..i + 1] == ids[..i] + [ids[i]];
        Extend(Persist(ids[i]));
        persisted, run := persisted + {ids[i]}, run + [Persist(ids[i])];
      }
      assert ids[..|ids|] == ids;
    }

    /** `ListRevoked`: the list as it is at the read, or an error. */
    method ListRevoked(t: Attempt, ghost phase: Phase) returns (r: Option<set<Id>>, ghost reload: Reload)
      requires Stands(phase, None) && (phase.Trying? || phase.Ticking? || phase.Serving?)
      modifies this
      ensures Stands(phase, Some(reload)) && denied == old(denied)
      ensures r.Some? <==> t.ok
      ensures r.None? ==> persisted == old(persisted) + Ids(t.early)
      ensures r.Some? ==> reload.snapshot == r && r.value == old(persisted) + Ids(t.early) <= persisted
    {
      Extend(Begin);
      reload := Reload(persisted, None);
      run := run + [Begin];
      Happen(t.early, phase, Some(reload));
      if !t.ok { return None, reload; }
      Extend(Read);
      r := Some(persisted);
      reload := reload.(snapshot := r);
      run := run + [Read];
      Happen(t.late, phase, Some(reload));
    }

    /** One load, of the start or of the ticker: the list becomes what was persisted up to the read, or
        the read fails and the list is kept. */
    method Load(t: Attempt, ghost phase: Phase) returns (ok: bool)
      requires Stands(phase, None) && (phase.Trying? || phase.Ticking? || phase.Serving?)
      modifies this
      ensures ok == t.ok
      ensures ok ==>
                && Stands(if phase.Trying? then Loaded else phase, None)
                && denied == old(persisted) + Ids(t.early) <= persisted
      ensures !ok ==>
                && Stands(AfterFailure(phase, attempts), None)
                && denied == old(denied) && persisted == old(persisted) + Ids(t.early)
    {
      var listed;
      ghost var reload;
      listed, reload := ListRevoked(t, phase);
      if listed.None? {
        Extend(Fail);
        run := run + [Fail];
        return false;
      }
      Extend(Land);
      denied, run := listed.value, run + [Land];
      return true;
    }

    /** The backoff between two attempts, or the end of the context. */
    method Wait(cancelled: bool, ghost i: nat) returns (stop: bool)
      requires Stands(Waiting(i), None)
      modifies this
      ensures stop == cancelled && Stands(if stop then Cancelled else Trying(i + 1), None)
      ensures denied == old(denied) && persisted == old(persisted)
    {
      if cancelled {
        Extend(Cancel);
        run := run + [Cancel];
        return true;
      }
      Extend(Elapse);
      run := run + [Elapse];
      return false;
    }

    /** One attempt of the start and the wait behind it: how the start ends, or None to go on. */
    method TryOnce(t: Attempt, i: nat) returns (end: Option<Boot>)
      requires Stands(Trying(i), None) && i < attempts
      modifies this
      ensures end == EndOf(t, i, attempts)
      ensures Stands(if end.Some? then PhaseOf(end.value) else Trying(i + 1), None)
      ensures t.ok ==> denied == old(persisted) + Ids(t.early)
      ensures !t.ok ==> denied == old(denied) && persisted == old(persisted) + Ids(t.early)
    {
      var ok := Load(t, Trying(i));
      if ok { return Some(Up); }
      if i == attempts - 1 { return Some(GaveUp); }
      var stop := Wait(t.cancelled, i);
      return if stop then Some(Stopped) else None;
    }

    /** The mandatory first load.  Its outcome is the phase the step system comes to; the list is
        replaced once, by the first read that succeeds within the attempts and before cancellation, with
        exactly what was persisted up to that read; otherwise it stays empty. */
    method LoadInitial(tries: seq<Attempt>) returns (r: Boot)
      requires Stands(AttemptPhase(attempts, 0), None) && denied == {}
      requires |tries| >= attempts
      modifies this
      ensures Stands(PhaseOf(r), None)
      ensures r == Up <==> Reaches(tries, attempts)
      ensures forall i :: ReachedAt(tries, attempts, i) ==> denied == old(persisted) + Early(tries, i + 1)
      ensures r != Up ==> denied == {}
      ensures r == Stopped <==> CutShort(tries, attempts)
    {
      var i := 0;
      while i < attempts
        invariant 0 <= i && (i < attempts || i == 0)
        invariant Stands(AttemptPhase(attempts, i), None) && denied == {}
        invariant i <= |tries| && persisted == old(persisted) + Early(tries, i)
        invariant forall j :: 0 <= j < i ==> !tries[j].ok && !tries[j].cancelled
        decreases attempts - i
      {
        var end := TryOnce(tries[i], i);
        match end
        case Some(r) =>
          AttemptEnds(tries, attempts, i, r);
          return r;
        case None => i := i + 1;
      }
      AllFailed(tries, attempts);
      return GaveUp;
    }

    /** The start of the transport: it serves if and only if the first load succeeds, and then behind the
        installed hook and the running ticker; otherwise it never comes to them. */
    method StartTransport(tries: seq<Attempt>) returns (served: bool)
      requires Stands(AttemptPhase(attempts, 0), None) && denied == {}
      requires |tries| >= attempts
      modifies this
      ensures served <==> Reaches(tries, attempts)
      ensures served ==> Stands(Serving, None)
      ensures forall i :: ReachedAt(tries, attempts, i) ==> denied == old(persisted) + Early(tries, i + 1)
      ensures !served ==> (Stands(Cancelled, None) || Stands(Exhausted, None)) && denied == {} && Serve !in run
    {
      var boot := LoadInitial(tries);
      if boot != Up {
        RefusedHasNotServed(attempts, run);
        return false;
      }
      Extend(Hook);
      run := run + [Hook];
      Extend(Start);
      run := run + [Start];
      Extend(Serve);
      run := run + [Serve];
      return true;
    }
  }

  // ---- The feed of the BMP listener ----

  /** Tick i is the last that brought a snapshot. */
  predicate LastGood(ticks: seq<Option<set<Id>>>, i: int) {
    && 0 <= i < |ticks| && ticks[i].Some?
    && forall j :: i < j < |ticks| ==> ticks[j].None?
  }

  class RevocationFeed {
    var denied: set<Id>

    constructor ()
      ensures denied == {}
    {
      denied := {};
    }

    /** Reads a snapshot, or fails and leaves the list alone. */
    method Replace(result: Option<set<Id>>) returns (ok: bool)
      modifies this
      ensures ok == result.Some?
      ensures denied == if result.Some? then result.value else old(denied)
    {
      if result.None? { return false; }
      denied := result.value;
      return true;
    }

    /** The refresh loop, one result a tick: the list is always the last complete snapshot. */
    method Run(ticks: seq<Option<set<Id>>>)
      modifies this
      ensures forall i :: LastGood(ticks, i) ==> denied == ticks[i].value
      ensures (forall i :: 0 <= i < |ticks| ==> ticks[i].None?) ==> denied == old(denied)
    {
      for n := 0 to |ticks|
        invariant forall i :: LastGood(ticks[..n], i) ==> denied == ticks[i].value
        invariant (forall i :: 0 <= i < n ==> ticks[i].None?) ==> denied == old(denied)
      {
        ghost var before := denied;
        var ok := Replace(ticks[n]);
        assert ticks[..n + 1][..n] == ticks[..n];
        forall i | LastGood(ticks[..n + 1], i) ensures denied == ticks[i].value {
          assert ticks[..n + 1][n] == ticks[n];
          if i < n {
            assert ticks[n].None?;
            forall j | i < j < n ensures ticks[..n][j].None? { assert ticks[..n + 1][j].None?; }
            assert LastGood(ticks[..n], i);
          }
        }
      }
      assert ticks[..|ticks|] == ticks;
    }

    /** The listener: it binds if and only if the first snapshot is complete; from then on its list is
        the last complete snapshot, that first one included. */
    method Listen(first: Option<set<Id>>, ticks: seq<Option<set<Id>>>) returns (bound: bool)
      modifies this
      ensures bound <==> first.Some?
      ensures !bound ==> denied == old(denied)
      ensures bound ==> forall i :: LastGood([first] + ticks, i) ==> denied == ([first] + ticks)[i].value
    {
      bound := Replace(first);
      if !bound { return; }
      Run(ticks);
      forall i | LastGood([first] + ticks, i) ensures denied == ([first] + ticks)[i].value {
        if i > 0 {
          forall j | i - 1 < j < |ticks| ensures ticks[j].None? { assert ([first] + ticks)[j + 1].None?; }
          assert ([first] + ticks)[i] == ticks[i - 1] && LastGood(ticks, i - 1);
        } else {
          forall j | 0 <= j < |ticks| ensures ticks[j].None? { assert ([first] + ticks)[j + 1].None?; }
        }
      }
    }
  }
}
