/** The simulated compilation run of the builder view (`simulateBuild` and the
    "Restart Compilation" action in `views/Builder.tsx`).

    A session is the four pieces of view state the run touches. The timed loop
    is a left fold of a single-step transition over an ordered step table; the
    per-step delays only decide WHEN each state is observed, never WHAT it is. */
module Build {
  import opened AppTypes
  import opened Text

  datatype Session = Session(logs: seq<string>, progress: int, building: bool, completed: bool)

  /** The state of a builder that has never compiled anything. */
  const IdleSession: Session := Session([], 0, false, false)

  /** One entry of the step table: the line it logs, how long the run waits
      before logging it (milliseconds), and the progress it reports. */
  datatype Step = Step(msg: string, delay: nat, progress: int)

  const SystemLine: string := "[SYSTEM] Cloud Build Instance initialized by SMA Systems Engine..."

  const BuildSteps: seq<Step> := [
    Step("[SDK] Resolving Gradle dependencies (Android 14 API 34)...", 800, 10),
    Step("[ASSETS] Vectorizing launcher icon for multiple DPIs...", 1000, 25),
    Step("[BRIDGE] Injecting WebView Javascript Interface v4.0...", 700, 40),
    Step("[CONFIG] Generating R.java and ProGuard mapping files...", 1200, 55),
    Step("[NATIVE] Compiling ARM64-v8a and X86_64 binary modules...", 1500, 75),
    Step("[SECURITY] Signing APK with Production Keystore (v2 Scheme)...", 1800, 90),
    Step("[COMPRESS] Optimizing resources for 0-install deployment...", 900, 100),
    Step(SuccessMessage, 500, 100)
  ]

  /** The word that marks a successful run in the log. */
  const SuccessWord: string := "SUCCESS"

  /** `[SUCCESS] APK Build Compiled by Sayed Mohsin Ali.` */
  const SuccessMessage: string := "[" + SuccessWord + "] APK Build Compiled by Sayed Mohsin Ali."

  // ---------------------------------------------------------------------------
  // Step tables
  // ---------------------------------------------------------------------------

  /** A table a run can report faithfully: progress values are percentages,
      never go down, and the last one is 100. */
  predicate ValidTable(steps: seq<Step>) {
    && |steps| > 0
    && (forall i :: 0 <= i < |steps| ==> 0 <= steps[i].progress <= 100)
    && (forall i, j :: 0 <= i <= j < |steps| ==> steps[i].progress <= steps[j].progress)
    && steps[|steps| - 1].progress == 100
  }

  function Messages(steps: seq<Step>): (r: seq<string>)
    ensures |r| == |steps|
    ensures forall i :: 0 <= i < |steps| ==> r[i] == steps[i].msg
  {
    seq(|steps|, i requires 0 <= i < |steps| => steps[i].msg)
  }

  /** The builder's own table is valid; its last two steps both report 100,
      and only the last one announces success. */
  lemma BuildStepsValid()
    ensures ValidTable(BuildSteps)
    ensures |BuildSteps| == 8
    ensures BuildSteps[6].progress == BuildSteps[7].progress == 100
    ensures OccursAt(BuildSteps[7].msg, SuccessWord, 1)
  {
    TableProgress();
    ValidByProgress(BuildSteps, [10, 25, 40, 55, 75, 90, 100, 100]);
    SuccessLine();
  }

  function Progresses(steps: seq<Step>): (r: seq<int>)
    ensures |r| == |steps|
    ensures forall i :: 0 <= i < |steps| ==> r[i] == steps[i].progress
  {
    seq(|steps|, i requires 0 <= i < |steps| => steps[i].progress)
  }

  /** A table is valid when its progress list is a run of percentages, each
      at least the one before, ending at 100. */
  lemma ValidByProgress(steps: seq<Step>, ps: seq<int>)
    requires Progresses(steps) == ps
    requires |ps| > 0 && ps[|ps| - 1] == 100
    requires forall i :: 0 <= i < |ps| ==> 0 <= ps[i] <= 100
    requires forall i :: 0 < i < |ps| ==> ps[i - 1] <= ps[i]
    ensures ValidTable(steps)
  {
    Chained(ps);
  }

  /** Adjacent order gives order between any two positions. */
  lemma {:induction false} Chained(ps: seq<int>)
    requires forall i :: 0 < i < |ps| ==> ps[i - 1] <= ps[i]
    ensures forall i, j :: 0 <= i <= j < |ps| ==> ps[i] <= ps[j]
    decreases |ps|
  {
    if |ps| > 1 {
      var tl := ps[1..];
      Chained(tl);
      forall i, j | 0 <= i <= j < |ps| ensures ps[i] <= ps[j] {
        if i > 0 {
          assert ps[i] == tl[i - 1] && ps[j] == tl[j - 1];
        } else if j > 0 {
          assert ps[1] == tl[0] && ps[j] == tl[j - 1];
        }
      }
    }
  }

  /** The last message opens with the bracketed tag `[SUCCESS]`. */
  lemma SuccessLine()
    ensures OccursAt(SuccessMessage, SuccessWord, 1)
    ensures SuccessMessage[0] == '[' && SuccessMessage[|SuccessWord| + 1] == ']'
  {
    var head := "[" + SuccessWord;
    assert SuccessMessage == head + "] APK Build Compiled by Sayed Mohsin Ali.";
    assert SuccessMessage[0] == head[0] && SuccessMessage[|head|] == ']';
    assert SuccessMessage[1..1 + |SuccessWord|] == SuccessWord;
  }

  lemma TableProgress()
    ensures Progresses(BuildSteps) == [10, 25, 40, 55, 75, 90, 100, 100]
  {
  }

  // ---------------------------------------------------------------------------
  // Transitions
  // ---------------------------------------------------------------------------

  /** Both the URL and the name must be non-empty. The compile button is
      disabled exactly when this fails, and `simulateBuild` returns at once. */
  predicate CanStart(c: AppConfig) {
    c.url != "" && c.name != ""
  }

  /** A fresh builder has neither URL nor name, so nothing can be compiled
      until the user has supplied both; the other defaults play no part. */
  lemma FreshBuilderCannotStart(s: Session, url: string, name: string)
    ensures !CanStart(InitialConfig) && SimulateBuild(InitialConfig, s) == s
    ensures CanStart(InitialConfig.(url := url, name := name)) <==> url != "" && name != ""
  {
  }

  /** The session right after a build starts, whatever came before it. */
  const Started: Session := Session([SystemLine], 0, true, false)

  /** One iteration of the step loop: log the step's line and report its progress. */
  function ApplyStep(s: Session, step: Step): (r: Session)
    ensures |r.logs| == |s.logs| + 1 && r.logs[|s.logs|] == step.msg
    ensures r.logs[..|s.logs|] == s.logs
    ensures r.progress == step.progress
    ensures r.building == s.building && r.completed == s.completed
  {
    s.(logs := s.logs + [step.msg], progress := step.progress)
  }

  /** The step loop, applied in table order. */
  function Run(s: Session, steps: seq<Step>): (r: Session)
    ensures r.building == s.building && r.completed == s.completed
    decreases |steps|
  {
    if |steps| == 0 then s else Run(ApplyStep(s, steps[0]), steps[1..])
  }

  /** The two updates after the loop. */
  function Finish(s: Session): (r: Session)
    ensures r.completed && !r.building
    ensures r.logs == s.logs && r.progress == s.progress
  {
    s.(completed := true, building := false)
  }

  /** The whole `simulateBuild` call, from the session it is invoked on. */
  function SimulateBuild(c: AppConfig, s: Session): (r: Session)
    ensures !CanStart(c) ==> r == s
    ensures CanStart(c) ==> r.completed && !r.building
    ensures CanStart(c) ==> r.progress == 100
    ensures CanStart(c) ==> r.logs == [SystemLine] + Messages(BuildSteps)
    ensures CanStart(c) ==> OccursAt(r.logs[|r.logs| - 1], SuccessWord, 1)
  {
    if !CanStart(c) then s
    else
      BuildStepsValid();
      RunLogsAndProgress(Started, BuildSteps);
      Finish(Run(Started, BuildSteps))
  }

  /** "Restart Compilation": only the completed flag changes. */
  function Restart(s: Session): (r: Session)
    ensures !r.completed
    ensures r.(completed := s.completed) == s
  {
    s.(completed := false)
  }

  // ---------------------------------------------------------------------------
  // Properties of the run
  // ---------------------------------------------------------------------------

  /** Running a table appends exactly its messages, in order, and leaves the
      progress of the last step (or the old progress for an empty table); the
      flags are untouched until `Finish`. */
  lemma {:induction false} RunLogsAndProgress(s: Session, steps: seq<Step>)
    ensures Run(s, steps).logs == s.logs + Messages(steps)
    ensures Run(s, steps).progress == (if |steps| == 0 then s.progress else steps[|steps| - 1].progress)
    ensures Run(s, steps).building == s.building && Run(s, steps).completed == s.completed
    decreases |steps|
  {
    if |steps| > 0 {
      RunLogsAndProgress(ApplyStep(s, steps[0]), steps[1..]);
      assert [steps[0].msg] + Messages(steps[1..]) == Messages(steps);
    }
  }

  /** The state observed after the first `k` steps of a run started by `simulateBuild`. */
  function Observed(steps: seq<Step>, k: nat): Session
    requires k <= |steps|
  {
    Run(Started, steps[..k])
  }

  /** What the log panel and progress bar show while a valid table runs: after
      step k the log has 1 + k lines (the system line, then the first k
      messages), and progress is a percentage, 0 before the first step. */
  lemma ObservedState(steps: seq<Step>, k: nat)
    requires ValidTable(steps) && k <= |steps|
    ensures Observed(steps, k).logs == [SystemLine] + Messages(steps[..k])
    ensures |Observed(steps, k).logs| == 1 + k
    ensures 0 <= Observed(steps, k).progress <= 100
    ensures k == 0 ==> Observed(steps, k).progress == 0
    ensures k == |steps| ==> Observed(steps, k).progress == 100
    ensures Observed(steps, k).building && !Observed(steps, k).completed
  {
    RunLogsAndProgress(Started, steps[..k]);
    if k == |steps| {
      assert steps[..k] == steps;
    }
  }

  /** Observers of one run see an append-only log and non-decreasing progress:
      an earlier state's log is a prefix of any later state's log. */
  lemma ObservedMonotone(steps: seq<Step>, k: nat, k': nat)
    requires ValidTable(steps) && k <= k' <= |steps|
    ensures |Observed(steps, k').logs| == 1 + k'
    ensures Observed(steps, k).logs == Observed(steps, k').logs[..1 + k]
    ensures Observed(steps, k).progress <= Observed(steps, k').progress
  {
    ObservedState(steps, k);
    ObservedState(steps, k');
    RunLogsAndProgress(Started, steps[..k]);
    RunLogsAndProgress(Started, steps[..k']);
    assert Messages(steps[..k]) == Messages(steps[..k'])[..k];
  }

  /** Each recorded state is one step of the table on from the one before. */
  predicate Stepwise(steps: seq<Step>, seen: seq<Session>) {
    forall i :: 0 < i < |seen| && i <= |steps| ==> seen[i] == ApplyStep(seen[i - 1], steps[i - 1])
  }

  /** Every recorded log extends the one before it: nothing is ever removed or rewritten. */
  predicate LogsGrow(seen: seq<Session>) {
    forall i :: 0 < i < |seen| ==> seen[i - 1].logs <= seen[i].logs
  }

  /** The progress bar never moves backwards between two recorded states. */
  predicate ProgressRises(seen: seq<Session>) {
    forall i :: 0 < i < |seen| ==> seen[i - 1].progress <= seen[i].progress
  }

  /** The step loop as written, over any table, with the states an observer
      sees: the started session, then one per `setLogs` / `setBuildProgress`
      pair. The run ends with the system line and every message in table
      order, at the last step's progress, still building. Each recorded state
      is one step on from the one before, so the log only grows; on a valid
      table the progress never goes down either. */
  method RunTable(steps: seq<Step>) returns (r: Session, seen: seq<Session>)
    ensures r.logs == [SystemLine] + Messages(steps)
    ensures r.progress == (if |steps| == 0 then 0 else steps[|steps| - 1].progress)
    ensures r.building && !r.completed
    ensures |seen| == |steps| + 1 && seen[0] == Started && seen[|steps|] == r
    ensures Stepwise(steps, seen) && LogsGrow(seen)
    ensures ValidTable(steps) ==> ProgressRises(seen)
  {
    var cur := Started;
    var trace := [cur];
    var k := 0;
    while k < |steps|
      invariant 0 <= k <= |steps|
      invariant cur == Run(Started, steps[..k])
      invariant |trace| == k + 1 && trace[0] == Started && trace[k] == cur
      invariant forall i :: 0 < i < |trace| ==> trace[i] == ApplyStep(trace[i - 1], steps[i - 1])
    {
      TraceStep(steps, k, cur, trace);
      cur := ApplyStep(cur, steps[k]);
      trace := trace + [cur];
      k := k + 1;
    }
    assert steps[..k] == steps;
    TraceEnd(steps, cur, trace);
    r, seen := cur, trace;
  }

  /** One more iteration of the loop keeps its invariant: the next state is
      the run over one more step, and it extends the trace by one step. */
  lemma {:induction false} TraceStep(steps: seq<Step>, k: nat, cur: Session, trace: seq<Session>)
    requires k < |steps| && cur == Run(Started, steps[..k])
    requires |trace| == k + 1 && trace[k] == cur
    requires forall i :: 0 < i < |trace| ==> trace[i] == ApplyStep(trace[i - 1], steps[i - 1])
    ensures ApplyStep(cur, steps[k]) == Run(Started, steps[..k + 1])
    ensures forall i :: 0 < i < |trace| + 1 ==>
      (trace + [ApplyStep(cur, steps[k])])[i] == ApplyStep((trace + [ApplyStep(cur, steps[k])])[i - 1], steps[i - 1])
  {
    assert steps[..k + 1] == steps[..k] + [steps[k]];
    RunSnoc(Started, steps[..k], steps[k]);
  }

  /** What the finished loop has built: the run over the whole table and the
      trace of every state it passed through. */
  lemma {:induction false} TraceEnd(steps: seq<Step>, r: Session, seen: seq<Session>)
    requires r == Run(Started, steps)
    requires |seen| == |steps| + 1 && seen[0] == Started
    requires forall i :: 0 < i < |seen| ==> seen[i] == ApplyStep(seen[i - 1], steps[i - 1])
    ensures r.logs == [SystemLine] + Messages(steps)
    ensures r.progress == (if |steps| == 0 then 0 else steps[|steps| - 1].progress)
    ensures r.building && !r.completed
    ensures Stepwise(steps, seen) && LogsGrow(seen)
    ensures ValidTable(steps) ==> ProgressRises(seen)
  {
    RunLogsAndProgress(Started, steps);
    TraceGrows(steps, seen);
  }

  /** A trace in which every state is one step on from the one before, starting
      at zero progress, has an append-only log; on a valid table its progress
      never goes down either. */
  lemma {:induction false} TraceGrows(steps: seq<Step>, trace: seq<Session>)
    requires |trace| == |steps| + 1 && trace[0].progress == 0
    requires forall i :: 0 < i < |trace| ==> trace[i] == ApplyStep(trace[i - 1], steps[i - 1])
    ensures LogsGrow(trace)
    ensures ValidTable(steps) ==> ProgressRises(trace)
  {
    forall i | 0 < i < |trace| ensures trace[i - 1].logs <= trace[i].logs {
      assert trace[i].logs == trace[i - 1].logs + [steps[i - 1].msg];
    }
    if ValidTable(steps) {
      forall i | 0 < i < |trace| ensures trace[i - 1].progress <= trace[i].progress {
        if i > 1 {
          assert trace[i - 1] == ApplyStep(trace[i - 2], steps[i - 2]);
          assert steps[i - 2].progress <= steps[i - 1].progress;
        }
      }
    }
  }

  /** `simulateBuild` as written: the guard, the reset, the loop, the two final
      updates. The observed states grow the log and never lower the progress. */
  method RunBuild(c: AppConfig, s: Session) returns (r: Session, seen: seq<Session>)
    ensures r == SimulateBuild(c, s)
    ensures !CanStart(c) ==> seen == []
    ensures CanStart(c) ==> |seen| == |BuildSteps| + 2 && seen[0] == Started && seen[|seen| - 1] == r
    ensures ProgressRises(seen) && LogsGrow(seen)
  {
    if !CanStart(c) {
      return s, [];
    }
    BuildStepsValid();
    var last;
    last, seen := RunTable(BuildSteps);
    r := Finish(last);
    seen := seen + [r];
  }

  /** Running one more step is one more `ApplyStep`. */
  lemma {:induction false} RunSnoc(s: Session, steps: seq<Step>, step: Step)
    ensures Run(s, steps + [step]) == ApplyStep(Run(s, steps), step)
    decreases |steps|
  {
    if |steps| == 0 {
      assert steps + [step] == [step];
    } else {
      assert (steps + [step])[1..] == steps[1..] + [step];
      RunSnoc(ApplyStep(s, steps[0]), steps[1..], step);
    }
  }

  // ---------------------------------------------------------------------------
  // The three-phase view
  // ---------------------------------------------------------------------------

  datatype Phase = Idle | Building | Completed

  function PhaseOf(s: Session): Phase {
    if s.building then Building else if s.completed then Completed else Idle
  }

  /** The building and completed flags are never both set. */
  predicate Exclusive(s: Session) {
    !(s.building && s.completed)
  }

  /** A build that starts goes Building -> Completed; one that cannot start
      changes nothing; every transition keeps the flags exclusive. */
  lemma PhaseTransitions(c: AppConfig, s: Session)
    requires Exclusive(s)
    ensures PhaseOf(Started) == Building
    ensures CanStart(c) ==> PhaseOf(SimulateBuild(c, s)) == Completed
    ensures !CanStart(c) ==> PhaseOf(SimulateBuild(c, s)) == PhaseOf(s)
    ensures Exclusive(SimulateBuild(c, s)) && Exclusive(Restart(s))
    ensures PhaseOf(s) == Completed ==> PhaseOf(Restart(s)) == Idle
    ensures PhaseOf(s) != Completed ==> PhaseOf(Restart(s)) == PhaseOf(s)
  {
  }

  /** Restart changes only the completed flag: the old log and progress stay on
      screen, and the next build discards them, so a rebuild after a restart
      ends exactly as a rebuild from any other session. */
  lemma RestartKeepsRun(c: AppConfig, s: Session)
    ensures Restart(s).logs == s.logs && Restart(s).progress == s.progress
    ensures Restart(s).building == s.building && !Restart(s).completed
    ensures CanStart(c) ==> SimulateBuild(c, Restart(s)) == SimulateBuild(c, IdleSession)
  {
  }
}
