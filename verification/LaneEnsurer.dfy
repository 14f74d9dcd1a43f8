/**
 The tenant-lane ensurer as a concurrent system.  Callers check and set the remembered key under the
 lock, call the installed function without it, and take the lock again to forget the key when the
 call failed.  A run is any interleaving of those atomic steps, with re-installs in between.
 */
module LaneEnsurer {
  import opened Wrappers

  /** `strings.Join(namespaces, "\n")`. */
  function Join(names: seq<string>): string {
    if names == [] then ""
    else if |names| == 1 then names[0]
    else names[0] + "\n" + Join(names[1..])
  }

  /** A failed call still has to reset the key; a forgotten one has. */
  datatype Status = InFlight | Succeeded | Failed | Forgotten

  /** One call of an installed function that was started; `bus` identifies the installation. */
  datatype Call = Call(bus: nat, names: seq<string>, status: Status)

  /** `installed`, `last` are the shared variables; `calls`, `writer` and `ensured` are the history of
      calls, the call that last wrote a key, and the lanes known to exist on each bus. */
  datatype State = State(
    installs: nat, installed: bool, last: string, calls: seq<Call>, writer: nat, ensured: set<(nat, string)>)

  datatype Step =
    | Install
    | Enter(names: seq<string>)
    | Return(call: nat, ok: bool, created: set<string>)
    | Forget(call: nat)

  function Init(): State { State(0, false, "", [], 0, {}) }

  /** The installed function: the latest installation. */
  function Current(s: State): nat
    requires s.installs > 0
  {
    s.installs - 1
  }

  /** A caller returns at once: nothing is installed, or the key is the remembered one. */
  predicate Skips(s: State, names: seq<string>) { !s.installed || Join(names) == s.last }

  predicate Enabled(s: State, step: Step) {
    match step
    case Install => true
    case Enter(names) => s.installed ==> s.installs > 0
    case Return(i, ok, created) => i < |s.calls| && s.calls[i].status == InFlight
    case Forget(i) => i < |s.calls| && s.calls[i].status == Failed
  }

  const MAX_NAME := 63

  predicate LowerOrDigit(c: char) { 'a' <= c <= 'z' || '0' <= c <= '9' }

  /** A lower-case letter or digit, then letters, digits and hyphens. */
  predicate Slugged(text: string) {
    && text != "" && LowerOrDigit(text[0])
    && forall i :: 1 <= i < |text| ==> LowerOrDigit(text[i]) || text[i] == '-'
  }

  /** A name that topics can carry as one segment; the empty one stands for the shared lanes. */
  predicate ValidName(name: string) { Slugged(name) && |name| <= MAX_NAME }

  /** Lanes of these namespaces on one bus; a name that no topic can carry has none. */
  function Lanes(bus: nat, names: set<string>): set<(nat, string)> { set n | n in names && ValidName(n) :: (bus, n) }

  function Names(names: seq<string>): set<string> { set n | n in names }

  /** A successful call has ensured all its lanes; a failed one may have created any of them. */
  function Apply(s: State, step: Step): State
    requires Enabled(s, step)
  {
    match step
    case Install => s.(installs := s.installs + 1, installed := true, last := "")
    case Enter(names) =>
      if Skips(s, names) then s
      else s.(last := Join(names), calls := s.calls + [Call(Current(s), names, InFlight)], writer := |s.calls|)
    case Return(i, ok, created) =>
      var c := s.calls[i];
      s.(calls := s.calls[i := c.(status := if ok then Succeeded else Failed)],
         ensured := s.ensured + Lanes(c.bus, if ok then Names(c.names) else created))
    case Forget(i) => s.(calls := s.calls[i := s.calls[i].(status := Forgotten)], last := "")
  }

  /** The state after a run, or None if some step of it cannot happen. */
  function Exec(run: seq<Step>): Option<State> {
    if run == [] then Some(Init())
    else
      match Exec(run[..|run| - 1])
      case None => None
      case Some(s) => if Enabled(s, run[|run| - 1]) then Some(Apply(s, run[|run| - 1])) else None
  }

  /** Whenever a key is remembered, the call that wrote it used the installed function and is still in
      flight (its reset included) or has succeeded. */
  predicate Remembers(s: State) {
    s.last != "" ==>
      && s.installed && s.installs > 0 && s.writer < |s.calls|
      && var w := s.calls[s.writer];
      && Join(w.names) == s.last && w.bus == Current(s) && w.status != Forgotten
  }

  predicate Inv(s: State) {
    && (s.installed <==> s.installs > 0)
    && Remembers(s)
    && (forall i :: 0 <= i < |s.calls| && s.calls[i].status == Succeeded ==>
          Lanes(s.calls[i].bus, Names(s.calls[i].names)) <= s.ensured)
    && forall lane :: lane in s.ensured ==> ValidName(lane.1)
  }

  lemma StepKeepsInv(s: State, step: Step)
    requires Inv(s) && Enabled(s, step)
    ensures Inv(Apply(s, step))
  {
  }

  /** Safety over every interleaving of callers and re-installs. */
  lemma {:induction false} RunsKeepInv(run: seq<Step>)
    requires Exec(run).Some?
    ensures Inv(Exec(run).value)
  {
    if run != [] {
      RunsKeepInv(run[..|run| - 1]);
      StepKeepsInv(Exec(run[..|run| - 1]).value, run[|run| - 1]);
    }
  }

  /** Every call has returned and every failure has been forgotten. */
  predicate Quiet(s: State) {
    forall i :: 0 <= i < |s.calls| ==> s.calls[i].status == Succeeded || s.calls[i].status == Forgotten
  }

  // ---- Keys ----

  predicate OneLine(name: string) { '\n' !in name }

  predicate AllOneLine(names: seq<string>) { forall i :: 0 <= i < |names| ==> OneLine(names[i]) }

  /** The first line break of a joined text is right after its one-line first name. */
  lemma FirstBreak(a: string, x: string)
    requires OneLine(a)
    ensures var k := a + "\n" + x; k[|a|] == '\n' && forall i :: 0 <= i < |a| ==> k[i] != '\n'
  {
    var k := a + "\n" + x;
    forall i | 0 <= i < |a| ensures k[i] != '\n' { assert k[i] == a[i] && a[i] in a; }
  }

  /** Splitting a one-line first name off a joined key is unambiguous. */
  lemma FirstLine(a: string, x: string, b: string, y: string)
    requires OneLine(a) && OneLine(b) && a + "\n" + x == b + "\n" + y
    ensures a == b && x == y
  {
    var k := a + "\n" + x;
    FirstBreak(a, x);
    FirstBreak(b, y);
    assert a == k[..|a|] && b == k[..|b|];
    assert x == k[|a| + 1..] && y == k[|b| + 1..];
  }

  lemma NoLine(a: string, b: string, y: string)
    requires OneLine(a)
    ensures a != b + "\n" + y
  {
    var k := b + "\n" + y;
    assert k[|b|] == '\n' && '\n' in k;
  }

  /** Equal non-empty keys of one-line namespaces come from equal lists. */
  lemma {:induction false} JoinIsInjective(a: seq<string>, b: seq<string>)
    requires AllOneLine(a) && AllOneLine(b) && a != [] && b != [] && Join(a) == Join(b)
    ensures a == b
    decreases |a|
  {
    if |a| == 1 && |b| == 1 {
      assert a == [a[0]] && b == [b[0]];
    } else if |a| == 1 {
      NoLine(a[0], b[0], Join(b[1..]));
    } else if |b| == 1 {
      NoLine(b[0], a[0], Join(a[1..]));
    } else {
      FirstLine(a[0], Join(a[1..]), b[0], Join(b[1..]));
      JoinIsInjective(a[1..], b[1..]);
      assert a == [a[0]] + a[1..] && b == [b[0]] + b[1..];
    }
  }

  /** A key with a line break in a namespace can stand for two lists. */
  lemma LineBreakConfusesKeys()
    ensures Join(["a\nb"]) == Join(["a", "b"]) && ["a\nb"] != ["a", "b"]
  {
    assert Join(["a", "b"]) == "a" + "\n" + Join(["a", "b"][1..]);
    assert ["a", "b"][1..] == ["b"];
    assert "a" + "\n" + "b" == "a\nb";
    assert |["a\nb"]| == 1;
  }

  // ---- What a skipped caller may rely on ----

  /** A caller that is sent away with a non-empty key shares that key with a call of the installed
      function that succeeded or is not finished; when all calls have finished, the lanes of that call's
      list exist.  If no namespace holds a line break, the list is the caller's own: a failed ensure is
      never remembered as done. */
  lemma SkippedCallersAreCovered(run: seq<Step>, names: seq<string>)
    requires Exec(run).Some? && Exec(run).value.installed
    requires Skips(Exec(run).value, names) && Join(names) != ""
    ensures var s := Exec(run).value;
            && s.installs > 0 && s.writer < |s.calls|
            && var w := s.calls[s.writer];
            && Join(w.names) == Join(names) && w.bus == Current(s) && w.status != Forgotten
            && (Quiet(s) ==> w.status == Succeeded && Lanes(Current(s), Names(w.names)) <= s.ensured)
            && (AllOneLine(names) && AllOneLine(w.names) ==> w.names == names)
  {
    RunsKeepInv(run);
    var s := Exec(run).value;
    var w := s.calls[s.writer];
    assert w.names == [] ==> Join(w.names) == "";
    assert names == [] ==> Join(names) == "";
    if AllOneLine(names) && AllOneLine(w.names) { JoinIsInjective(w.names, names); }
  }

  /** The line break matters: after all calls have succeeded, a caller is sent away whose lanes nobody
      has ensured.  (No lane at all: no topic can carry such a name.) */
  lemma LineBreakLeavesLanesOut()
    ensures var run := [Install, Enter(["a\nb"]), Return(0, true, {})];
            && Exec(run).Some? && Quiet(Exec(run).value) && Skips(Exec(run).value, ["a", "b"])
            && ValidName("a") && ValidName("b") && Exec(run).value.ensured == {}
  {
    LineBreakConfusesKeys();
    var r1 := [Install];
    var r2 := r1 + [Enter(["a\nb"])];
    var r3 := r2 + [Return(0, true, {})];
    assert r1[..0] == [] && r2[..1] == r1 && r3[..2] == r2;
    assert r3 == [Install, Enter(["a\nb"]), Return(0, true, {})];
    assert Exec(r1) == Some(Apply(Init(), Install));
    var s2 := Apply(Apply(Init(), Install), Enter(["a\nb"]));
    assert Join(["a\nb"]) == "a\nb" != "";
    assert Exec(r2) == Some(s2) && s2.calls == [Call(0, ["a\nb"], InFlight)];
    assert Exec(r3) == Some(Apply(s2, Return(0, true, {})));
    var long := "a\nb";
    assert long[1] == '\n' && !ValidName(long);
    assert Names([long]) == {long} && Lanes(0, {long}) == {};
  }

  /** After every call has returned, what is remembered is nothing, or a list whose lanes exist on the
      installed bus. */
  lemma QuietMemoryIsTrue(run: seq<Step>)
    requires Exec(run).Some? && Quiet(Exec(run).value)
    ensures var s := Exec(run).value;
            s.last != "" ==>
              && s.installs > 0 && s.writer < |s.calls|
              && s.calls[s.writer].status == Succeeded && Join(s.calls[s.writer].names) == s.last
              && Lanes(Current(s), Names(s.calls[s.writer].names)) <= s.ensured
  {
    RunsKeepInv(run);
  }

  /** While a failed call has not yet reset the key, a caller with the same list is sent away although
      its lanes do not exist; the reset then makes the next caller try again. */
  lemma SkipDuringFailure(name: string)
    requires name != ""
    ensures var run := [Install, Enter([name]), Return(0, false, {})];
            && Exec(run).Some? && Skips(Exec(run).value, [name]) && Exec(run).value.ensured == {}
            && Exec(run + [Forget(0)]).Some? && !Skips(Exec(run + [Forget(0)]).value, [name])
  {
    var r1 := [Install];
    var r2 := r1 + [Enter([name])];
    var r3 := r2 + [Return(0, false, {})];
    var r4 := r3 + [Forget(0)];
    assert r1[..0] == [] && r2[..1] == r1 && r3[..2] == r2 && r4[..3] == r3;
    assert r3 == [Install, Enter([name]), Return(0, false, {})];
    assert Exec(r1) == Some(Apply(Init(), Install));
    var s2 := Apply(Apply(Init(), Install), Enter([name]));
    assert Exec(r2) == Some(s2);
    assert s2.calls == [Call(0, [name], InFlight)];
    assert Exec(r3) == Some(Apply(s2, Return(0, false, {})));
    assert Exec(r4) == Some(Apply(Apply(s2, Return(0, false, {})), Forget(0)));
    assert Lanes(0, {}) == {};
  }

  lemma OneMore(run: seq<Step>, step: Step)
    ensures Exec(run + [step])
         == match Exec(run)
            case None => None
            case Some(s) => if Enabled(s, step) then Some(Apply(s, step)) else None
  {
    assert (run + [step])[..|run|] == run;
  }

  /** Calls are only ever made of installed functions. */
  lemma {:induction false} CallsAreOfInstalls(run: seq<Step>)
    requires Exec(run).Some?
    ensures forall i :: 0 <= i < |Exec(run).value.calls| ==> Exec(run).value.calls[i].bus < Exec(run).value.installs
    decreases |run|
  {
    if run != [] {
      CallsAreOfInstalls(run[..|run| - 1]);
      RunsKeepInv(run[..|run| - 1]);
    }
  }

  lemma ResetForgets(run: seq<Step>, step: Step)
    requires (step.Forget? || step.Install?) && Exec(run + [step]).Some?
    ensures var s := Exec(run + [step]).value; s.last == "" && s.installed && s.installs > 0
  {
    OneMore(run, step);
    RunsKeepInv(run);
    if step.Forget? { CallsAreOfInstalls(run); }
  }

  lemma NewKeyCalls(s: State, names: seq<string>)
    requires s.installed && s.installs > 0 && s.last == "" && Join(names) != ""
    ensures Apply(s, Enter(names)).calls == s.calls + [Call(s.installs - 1, names, InFlight)]
    ensures Apply(s, Enter(names)).last == Join(names)
  {
  }

  /** After every reset by a failed call, whichever call it was, and after every install, the next caller with
      a non-empty key makes a call of the installed function for its own list. */
  lemma RetriedAfterReset(run: seq<Step>, step: Step, names: seq<string>)
    requires (step.Forget? || step.Install?) && Exec(run + [step]).Some? && Join(names) != ""
    ensures var s := Exec(run + [step]).value;
            var next := Exec(run + [step] + [Enter(names)]);
            && s.installs > 0 && next.Some?
            && next.value.calls == s.calls + [Call(s.installs - 1, names, InFlight)]
            && next.value.last == Join(names)
  {
    ResetForgets(run, step);
    NewKeyCalls(Exec(run + [step]).value, names);
    OneMore(run + [step], Enter(names));
  }

  /** A second caller with the same list makes no second call, and changes nothing. */
  lemma SameListCallsOnce(run: seq<Step>, names: seq<string>)
    requires Exec(run).Some?
    ensures Exec(run + [Enter(names)]).Some?
    ensures Exec(run + [Enter(names)] + [Enter(names)]) == Exec(run + [Enter(names)])
  {
    RunsKeepInv(run);
    OneMore(run, Enter(names));
    OneMore(run + [Enter(names)], Enter(names));
  }

  // ---- Lanes of provisioned tenants ----

  const MIN_SLUG := 2
  const MAX_SLUG := 63

  predicate ValidSlug(slug: string) { Slugged(slug) && MIN_SLUG <= |slug| <= MAX_SLUG }

  function NamespaceFor(slug: string): string { "t-" + slug }

  function Namespaces(slugs: seq<string>): (names: seq<string>)
    ensures |names| == |slugs| && forall i :: 0 <= i < |slugs| ==> names[i] == NamespaceFor(slugs[i])
  {
    seq(|slugs|, i requires 0 <= i < |slugs| => NamespaceFor(slugs[i]))
  }

  predicate AllSlugs(slugs: seq<string>) { forall i :: 0 <= i < |slugs| ==> ValidSlug(slugs[i]) }

  /** The namespace of a tenant that can be provisioned is one line; topics can carry it unless its slug
      is one of the two longest lengths, which the prefix pushes over the bound of a name. */
  lemma SlugNameFits(slug: string)
    requires ValidSlug(slug)
    ensures OneLine(NamespaceFor(slug))
    ensures ValidName(NamespaceFor(slug)) <==> |slug| <= 61
  {
    var name := NamespaceFor(slug);
    assert name[0] == 't' && name[1] == '-';
    assert forall i :: 2 <= i < |name| ==> name[i] == slug[i - 2];
  }

  lemma SlugNamesAreLines(slugs: seq<string>)
    requires AllSlugs(slugs)
    ensures AllOneLine(Namespaces(slugs))
  {
    forall i | 0 <= i < |slugs| ensures OneLine(NamespaceFor(slugs[i])) { SlugNameFits(slugs[i]); }
  }

  /** Callers of a run only pass namespaces of tenants that can be provisioned. */
  ghost predicate FromSlugs(run: seq<Step>) {
    forall i :: 0 <= i < |run| && run[i].Enter? ==>
      exists slugs :: AllSlugs(slugs) && run[i].names == Namespaces(slugs)
  }

  lemma {:induction false} CallsHoldLines(run: seq<Step>)
    requires Exec(run).Some? && FromSlugs(run)
    ensures forall i :: 0 <= i < |Exec(run).value.calls| ==> AllOneLine(Exec(run).value.calls[i].names)
  {
    if run != [] {
      var before, step := run[..|run| - 1], run[|run| - 1];
      CallsHoldLines(before);
      if step.Enter? {
        var slugs :| AllSlugs(slugs) && step.names == Namespaces(slugs);
        SlugNamesAreLines(slugs);
      }
    }
  }

  /** In every run over provisioned tenants, once all calls have returned, a caller that is sent away
      finds the lane of each of its tenants in place, exactly if the tenant's slug leaves room for the
      prefix.  The two longest slugs never get a lane. */
  lemma SkippedTenantsHaveLanes(run: seq<Step>, slugs: seq<string>, k: nat)
    requires Exec(run).Some? && FromSlugs(run) && Quiet(Exec(run).value) && Exec(run).value.installed
    requires AllSlugs(slugs) && k < |slugs| && Skips(Exec(run).value, Namespaces(slugs))
    ensures Exec(run).value.installs > 0
    ensures (Current(Exec(run).value), NamespaceFor(slugs[k])) in Exec(run).value.ensured
       <==> |slugs[k]| <= 61
  {
    var s, names := Exec(run).value, Namespaces(slugs);
    RunsKeepInv(run);
    SlugNameFits(slugs[k]);
    SlugNamesAreLines(slugs);
    CallsHoldLines(run);
    assert names[0] != "" && Join(names) != "";
    SkippedCallersAreCovered(run, names);
    assert names[k] in Names(names);
  }

  function LetterRepeated(n: nat): (slug: string)
    ensures |slug| == n && forall i :: 0 <= i < n ==> slug[i] == 'a'
  {
    seq(n, _ => 'a')
  }

  /** A tenant whose slug has 62 or 63 characters, and there are such, is ensured without an error and has
      no lane. */
  lemma LongSlugHasNoLane(slug: string)
    requires |slug| == 62 || |slug| == 63
    ensures ValidSlug(LetterRepeated(|slug|))
    ensures ValidSlug(slug) ==>
              var run := [Install, Enter(Namespaces([slug])), Return(0, true, {})];
              && Exec(run).Some? && Quiet(Exec(run).value)
              && Skips(Exec(run).value, Namespaces([slug])) && Exec(run).value.ensured == {}
  {
    if ValidSlug(slug) { EnsuredWithoutLane(slug, Namespaces([slug])); }
  }

  lemma EnsuredWithoutLane(slug: string, names: seq<string>)
    requires ValidSlug(slug) && |slug| > 61 && names == Namespaces([slug])
    ensures var run := [Install, Enter(names), Return(0, true, {})];
            && Exec(run).Some? && Quiet(Exec(run).value)
            && Skips(Exec(run).value, names) && Exec(run).value.ensured == {}
  {
    assert |names| == 1 && names[0] == NamespaceFor(slug);
    SlugNameFits(slug);
    var r1 := [Install];
    var r2 := r1 + [Enter(names)];
    var r3 := r2 + [Return(0, true, {})];
    assert r1[..0] == [] && r2[..1] == r1 && r3[..2] == r2;
    assert r3 == [Install, Enter(names), Return(0, true, {})];
    assert Exec(r1) == Some(Apply(Init(), Install));
    var s2 := Apply(Apply(Init(), Install), Enter(names));
    assert Join(names) == names[0] != "";
    assert Exec(r2) == Some(s2) && s2.calls == [Call(0, names, InFlight)];
    assert Exec(r3) == Some(Apply(s2, Return(0, true, {})));
    assert Lanes(0, Names(names)) == {};
  }
}
