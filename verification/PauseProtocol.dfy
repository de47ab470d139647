/**
 * How a lifecycle client takes a sandbox out of the broker's hands: a marker file, the broker's decision points, one
 * control request at a time to the runtime, and a published report the client waits for.
 */
module PauseProtocol {
  import opened Bytes

  /** The control request of the job's coroutine: on its way, or already carried out and being answered. */
  datatype Call = Call(pause: bool, applied: bool)

  datatype Report = Report(paused: bool, at: nat)

  datatype State = State(
    clock: nat,
    marker: Option<nat>,      // when the marker was created, while it exists
    suspended: bool,          // what the broker's last scan of the directory saw
    scanning: bool,           // a decision point is between its scan and its report
    desired: bool,            // the broker wants the job paused
    pending: bool,            // a request to pause may be under way
    paused: bool,             // the last sample said paused
    call: Option<Call>,
    strays: multiset<bool>,   // requests given up by the broker that the runtime may still carry out
    runtime: bool,            // the guest is held by the broker's stop
    report: Option<Report>
  )

  datatype Step =
    | CreateMarker
    | RemoveMarker
    | Scan
    | Decide(inDebt: bool, publish: bool)
    | Send
    | Apply
    | Answer
    | Expire
    | GiveUp
    | ApplyStray(pause: bool)

  predicate Initial(s: State) {
    && s.marker == None && !s.suspended && !s.scanning && !s.desired && !s.pending && !s.paused
    && s.call == None && s.strays == multiset{} && !s.runtime && s.report == None
  }

  /**
   * A decision point runs to its end without the coroutine, but not without the client and the runtime. It publishes a
   * report when it has scanned the directory, both at the same interval.
   */
  predicate Enabled(s: State, e: Step) {
    match e
    case CreateMarker => s.marker.None?
    case RemoveMarker => s.marker.Some?
    case Scan => !s.scanning
    case Decide(_, publish) => publish == s.scanning
    case Send => !s.scanning && s.call.None?
    case Apply => s.call.Some? && !s.call.value.applied
    case Answer => !s.scanning && s.call.Some? && s.call.value.applied
    case Expire => s.runtime
    case GiveUp => !s.scanning && s.call.Some?
    case ApplyStray(pause) => pause in s.strays
  }

  function Next(s: State, e: Step): State
    requires Enabled(s, e)
  {
    var t := s.(clock := s.clock + 1);
    match e
    case CreateMarker => t.(marker := Some(s.clock))
    case RemoveMarker => t.(marker := None)
    case Scan => t.(suspended := s.marker.Some?, scanning := true)
    case Decide(inDebt, publish) =>
      t.(scanning := false, desired := !s.suspended && inDebt,
         report := if publish then Some(Report(s.paused || s.pending, s.clock)) else s.report)
    case Send => t.(pending := s.desired, call := Some(Call(s.desired, false)))
    case Apply => t.(runtime := s.call.value.pause, call := Some(s.call.value.(applied := true)))
    case Answer => t.(paused := s.call.value.pause, pending := false, call := None)
    case Expire => t.(runtime := false)
    case GiveUp =>
      t.(desired := false, pending := false, call := None,
         strays := if s.call.value.applied then s.strays else s.strays + multiset{s.call.value.pause})
    case ApplyStray(pause) => t.(runtime := pause, strays := s.strays - multiset{pause})
  }

  predicate Runs(s: State, steps: seq<Step>)
    decreases |steps|
  {
    steps == [] || (Enabled(s, steps[0]) && Runs(Next(s, steps[0]), steps[1..]))
  }

  function After(s: State, steps: seq<Step>): State
    requires Runs(s, steps)
    decreases |steps|
  {
    if steps == [] then s else After(Next(s, steps[0]), steps[1..])
  }

  /** No request was given up. */
  predicate Faultless(steps: seq<Step>) {
    forall i | 0 <= i < |steps| :: !steps[i].GiveUp?
  }

  /** No request to pause was given up; requests to release may be. */
  predicate Careful(s: State, steps: seq<Step>)
    requires Runs(s, steps)
    decreases |steps|
  {
    steps == [] || (
      && (steps[0].GiveUp? ==> !s.call.value.pause)
      && Careful(Next(s, steps[0]), steps[1..]))
  }

  predicate KeepsMarker(steps: seq<Step>) {
    forall i | 0 <= i < |steps| :: !steps[i].RemoveMarker?
  }

  /** Whatever fails, a decision point that saw the marker leaves no wish to pause behind. */
  predicate Obeys(s: State) {
    s.suspended && !s.scanning ==> !s.desired
  }

  lemma StepObeys(s: State, e: Step)
    requires Obeys(s) && Enabled(s, e)
    ensures Obeys(Next(s, e))
  {
  }

  lemma {:induction false} RunObeys(s: State, steps: seq<Step>)
    requires Obeys(s) && Runs(s, steps)
    ensures Obeys(After(s, steps))
    decreases |steps|
  {
    if steps != [] {
      StepObeys(s, steps[0]);
      RunObeys(Next(s, steps[0]), steps[1..]);
    }
  }

  /** The broker's picture covers the runtime: a held guest is known as paused or has its pause on the way. */
  predicate InTouch(s: State) {
    && (s.runtime ==> if s.call.Some? && s.call.value.applied then s.call.value.pause else s.paused)
    && s.pending == (s.call.Some? && s.call.value.pause)
    && Obeys(s)
    && true !in s.strays
    && (s.marker.Some? ==> s.marker.value < s.clock)
  }

  lemma StepInTouch(s: State, e: Step)
    requires InTouch(s) && Enabled(s, e) && (e.GiveUp? ==> !s.call.value.pause)
    ensures InTouch(Next(s, e))
  {
  }

  lemma {:induction false} RunInTouch(s: State, steps: seq<Step>)
    requires InTouch(s) && Runs(s, steps) && Careful(s, steps)
    ensures InTouch(After(s, steps))
    decreases |steps|
  {
    if steps != [] {
      StepInTouch(s, steps[0]);
      RunInTouch(Next(s, steps[0]), steps[1..]);
    }
  }

  /** The guest runs, and no request to hold it is under way. */
  predicate Released(s: State) {
    !s.runtime && !(s.call.Some? && s.call.value.pause)
  }

  /** Released under a marker that the broker has seen, with no request to pause left anywhere. */
  predicate Quiet(s: State) {
    s.marker.Some? && s.suspended && Released(s) && true !in s.strays && Obeys(s)
  }

  lemma StepQuiet(s: State, e: Step)
    requires Quiet(s) && Enabled(s, e) && !e.RemoveMarker?
    ensures Quiet(Next(s, e))
  {
  }

  lemma {:induction false} RunQuiet(s: State, steps: seq<Step>)
    requires Quiet(s) && Runs(s, steps) && KeepsMarker(steps)
    ensures Quiet(After(s, steps))
    decreases |steps|
  {
    if steps != [] {
      StepQuiet(s, steps[0]);
      assert forall i | 0 <= i < |steps[1..]| :: steps[1..][i] == steps[i + 1];
      RunQuiet(Next(s, steps[0]), steps[1..]);
    }
  }

  /** From here on the guest stays free until the marker is removed, whatever else happens or fails. */
  ghost predicate StaysReleased(s: State) {
    forall steps | Runs(s, steps) && KeepsMarker(steps) :: Released(After(s, steps))
  }

  /**
   * Exactly when a guest stays free, after any run with any failed requests: the last scan saw a marker, the guest is
   * free now, and no request to pause that was given up can still be carried out.
   */
  lemma ReleasedForGood(start: State, steps: seq<Step>)
    requires Initial(start) && Runs(start, steps) && After(start, steps).marker.Some?
    ensures
      var s := After(start, steps);
      StaysReleased(s) <==> s.suspended && Released(s) && true !in s.strays
  {
    var s := After(start, steps);
    RunObeys(start, steps);
    if s.suspended && Released(s) && true !in s.strays {
      forall more | Runs(s, more) && KeepsMarker(more) ensures Released(After(s, more)) {
        RunQuiet(s, more);
      }
    } else if !Released(s) {
      NoSteps(s);
      assert !Released(After(s, []));
    } else if true in s.strays {
      NoSteps(Next(s, ApplyStray(true)));
      Then(s, ApplyStray(true), []);
      assert !Released(After(s, [ApplyStray(true)] + []));
    } else if s.scanning {
      var decide := Decide(true, true);
      var more := Interruption(Next(s, decide));
      Then(s, decide, more);
      assert KeepsMarker([decide] + more);
      assert !Released(After(s, [decide] + more));
    } else {
      var more := Interruption(s);
      assert !Released(After(s, more));
    }
  }

  /** A decision point that publishes a report which shows the job not paused. */
  predicate ShowsUnpaused(s: State, e: Step) {
    Enabled(s, e) && e.Decide? && e.publish && Next(s, e).report == Some(Report(false, s.clock))
  }

  /**
   * Exactly when such a report can be relied on while the marker exists, if no request to pause was given up before
   * it: the scan it follows saw a marker. Then the guest runs, no pause is under way and none is sent before the
   * marker is removed, in every interleaving and whatever fails from then on.
   */
  lemma HandOff(start: State, steps: seq<Step>, e: Step)
    requires Initial(start) && Runs(start, steps) && Careful(start, steps)
    requires ShowsUnpaused(After(start, steps), e) && After(start, steps).marker.Some?
    ensures StaysReleased(Next(After(start, steps), e)) <==> After(start, steps).suspended
  {
    var s := After(start, steps);
    RunInTouch(start, steps);
    var t := Next(s, e);
    StepInTouch(s, e);
    if s.suspended {
      forall more | Runs(t, more) && KeepsMarker(more) ensures Released(After(t, more)) {
        RunQuiet(t, more);
      }
    } else {
      var more := Interruption(t);
      assert !Released(After(t, more));
    }
  }

  /** If the scan saw no marker, the next decision point may still send the job into a pause. */
  lemma Interruption(s: State) returns (more: seq<Step>)
    requires !s.suspended && !s.scanning
    ensures Runs(s, more) && Faultless(more) && KeepsMarker(more) && !Released(After(s, more))
  {
    more := [Decide(true, false), Send];
    var a := Next(s, Decide(true, false));
    if s.call.Some? {
      var answer := [Decide(true, false), Answer, Send];
      if s.call.value.applied {
        more := answer;
        Three(s, more);
      } else {
        more := [Apply] + answer;
        var b := Next(s, Apply);
        Three(b, answer);
        assert more[1..] == answer;
      }
    } else {
      assert more[1..] == [Send] && [Send][1..] == [];
      assert Runs(a, [Send]) && After(a, [Send]) == Next(a, Send);
    }
  }

  lemma Three(s: State, steps: seq<Step>)
    requires steps == [Decide(true, false), Answer, Send]
    requires !s.suspended && !s.scanning && s.call.Some? && s.call.value.applied
    ensures Runs(s, steps) && !Released(After(s, steps))
  {
    var a := Next(s, steps[0]);
    var b := Next(a, Answer);
    assert steps[1..] == [Answer, Send] && steps[1..][1..] == [Send] && steps[1..][1..][1..] == [];
    assert Runs(b, [Send]) && After(b, [Send]) == Next(b, Send);
    assert Runs(a, [Answer, Send]) && After(a, [Answer, Send]) == Next(b, Send);
  }

  /** What the client checks: the report is newer than the marker and shows the job not paused. */
  predicate ClientContinues(s: State) {
    s.marker.Some? && s.report.Some? && !s.report.value.paused && s.marker.value < s.report.value.at
  }

  /** No marker is created between the scan and the report of one decision point. */
  predicate Atomic(s: State, steps: seq<Step>)
    requires Runs(s, steps)
    decreases |steps|
  {
    steps == [] || ((steps[0].CreateMarker? ==> !s.scanning) && Atomic(Next(s, steps[0]), steps[1..]))
  }

  /** A report the client accepts means that the guest is released for as long as the marker stays. */
  predicate Dependable(s: State) {
    && (s.scanning && s.marker.Some? ==> s.suspended)
    && (s.report.Some? ==> s.report.value.at < s.clock)
    && (ClientContinues(s) ==> Quiet(s))
  }

  lemma StepDependable(s: State, e: Step)
    requires InTouch(s) && Dependable(s) && Enabled(s, e) && (e.GiveUp? ==> !s.call.value.pause)
    requires e.CreateMarker? ==> !s.scanning
    ensures Dependable(Next(s, e))
  {
    if ClientContinues(s) && !e.RemoveMarker? {
      StepQuiet(s, e);
    }
  }

  lemma {:induction false} RunDependable(s: State, steps: seq<Step>)
    requires InTouch(s) && Dependable(s) && Runs(s, steps) && Careful(s, steps) && Atomic(s, steps)
    ensures InTouch(After(s, steps)) && Dependable(After(s, steps))
    decreases |steps|
  {
    if steps != [] {
      StepInTouch(s, steps[0]);
      StepDependable(s, steps[0]);
      RunDependable(Next(s, steps[0]), steps[1..]);
    }
  }

  /**
   * The client's own check is safe whenever decision points are atomic for the creation of markers and no request to
   * pause was given up, through any number of markers created and removed: whenever it continues the guest runs, and
   * stays so until the marker is removed.
   */
  lemma ClientIsSafe(start: State, steps: seq<Step>)
    requires Initial(start) && Runs(start, steps) && Careful(start, steps) && Atomic(start, steps)
    requires ClientContinues(After(start, steps))
    ensures StaysReleased(After(start, steps))
  {
    RunDependable(start, steps);
    var s := After(start, steps);
    forall more | Runs(s, more) && KeepsMarker(more) ensures Released(After(s, more)) {
      RunQuiet(s, more);
    }
  }

  /**
   * Without that assumption, and exactly: once the client continues, the guest stays free if and only if the last scan
   * saw a marker and the guest is free now.
   */
  lemma ClientExactly(start: State, steps: seq<Step>)
    requires Initial(start) && Runs(start, steps) && Careful(start, steps)
    requires ClientContinues(After(start, steps))
    ensures var s := After(start, steps);
            StaysReleased(s) <==> s.suspended && Released(s)
  {
    hide StaysReleased;
    RunInTouch(start, steps);
    ReleasedForGood(start, steps);
  }

  /**
   * The client's comparison of times does not imply that the scan saw the marker: a marker created between the scan
   * and the report of one decision point passes the check, and the guest can still be paused.
   */
  lemma TimesAreNotEnough(start: State)
    requires Initial(start)
    ensures exists steps ::
              Runs(start, steps) && Faultless(steps) && ClientContinues(After(start, steps))
              && !StaysReleased(After(start, steps))
  {
    var steps := [Scan, CreateMarker, Decide(false, true)];
    var a := Next(start, Scan);
    var b := Next(a, CreateMarker);
    var c := Next(b, Decide(false, true));
    assert steps[1..] == [CreateMarker, Decide(false, true)] && steps[1..][1..] == [Decide(false, true)];
    assert steps[1..][1..][1..] == [];
    assert Runs(b, [Decide(false, true)]) && After(b, [Decide(false, true)]) == c;
    assert Runs(a, [CreateMarker, Decide(false, true)]) && After(a, [CreateMarker, Decide(false, true)]) == c;
    assert Runs(start, steps) && After(start, steps) == c;
    var more := Interruption(c);
    assert !Released(After(c, more));
    assert !StaysReleased(c);
  }

  lemma Then(s: State, e: Step, steps: seq<Step>)
    requires Enabled(s, e) && Runs(Next(s, e), steps)
    ensures Runs(s, [e] + steps) && After(s, [e] + steps) == After(Next(s, e), steps)
    ensures Careful(s, [e] + steps) <==> (e.GiveUp? ==> !s.call.value.pause) && Careful(Next(s, e), steps)
  {
    hide Next;
    assert ([e] + steps)[1..] == steps;
  }

  /** What giving up a request to pause does: it can be carried out later, unknown to the broker, whatever the scan saw. */
  lemma FailuresBreakTheHandOff(start: State)
    requires Initial(start)
    ensures exists steps ::
              Runs(start, steps) && KeepsMarker(steps) && !Careful(start, steps) && ClientContinues(After(start, steps))
              && After(start, steps).suspended && After(start, steps).runtime
  {
    hide Runs, After, Careful;
    var a := Next(start, Decide(true, false));
    var b := Next(Next(a, Send), GiveUp);
    var c := Next(Next(b, CreateMarker), Scan);
    var d := Next(c, Decide(false, true));
    var end := Next(d, ApplyStray(true));
    NoSteps(end);
    Then(d, ApplyStray(true), []);
    Then(c, Decide(false, true), [ApplyStray(true)] + []);
    var later := [Decide(false, true)] + ([ApplyStray(true)] + []);
    Then(Next(b, CreateMarker), Scan, later);
    Then(b, CreateMarker, [Scan] + later);
    var marked := [CreateMarker] + ([Scan] + later);
    Then(Next(a, Send), GiveUp, marked);
    Then(a, Send, [GiveUp] + marked);
    Then(start, Decide(true, false), [Send] + ([GiveUp] + marked));
    assert After(start, [Decide(true, false)] + ([Send] + ([GiveUp] + marked))) == end;
  }

  lemma NoSteps(s: State)
    ensures Runs(s, []) && After(s, []) == s
  {
  }
}
