/**
 * Concurrent logger-sync emitters on one directory. Every file operation of an emitter is a step of its own, and the
 * sweep's stat and unlink are two steps, so any other emitter may act in between.
 */
module SweepProtocol {
  import opened Basics
  import opened LoggerSync
  import opened MetricText

  /** The tmp name of an emitter is determined by its process id. */
  type Pid = nat

  /** A sweep's verdict: the stat found target's file this old. */
  datatype Verdict = Verdict(target: Pid, mtime: int)

  datatype Phase =
    | Begun(nowUnix: int, exitCode: int, duration: Duration)
    | Loaded(body: string)
    | Sweeping(body: string, now: int, verdict: Option<Verdict>)
    | Writing(body: string, openedAt: int)
    | Ready(body: string, openedAt: int)

  /** clock in microseconds; procs are the live emitters. */
  datatype State = State(clock: int, output: Option<string>, tmp: map<Pid, TmpFile>, procs: map<Pid, Phase>)

  datatype Action =
    | Tick(d: nat)
    | Begin(pid: Pid, exitCode: int, duration: Duration)
    | ReadPrev(pid: Pid)
    | StartSweep(pid: Pid)
    | Stat(pid: Pid, target: Pid)
    | Unlink(pid: Pid)
    | OpenTmp(pid: Pid, partial: string)
    | FinishWrite(pid: Pid)
    | Replace(pid: Pid)
    | ReplaceDenied(pid: Pid)
    | Crash(pid: Pid)

  predicate Enabled(s: State, a: Action) {
    match a
    case Tick(_) => true
    case Begin(pid, _, _) => pid !in s.procs
    case ReadPrev(pid) => pid in s.procs && s.procs[pid].Begun?
    case StartSweep(pid) => pid in s.procs && s.procs[pid].Loaded?
    case Stat(pid, target) => pid in s.procs && s.procs[pid].Sweeping? && s.procs[pid].verdict.None? && target in s.tmp
    case Unlink(pid) => pid in s.procs && s.procs[pid].Sweeping? && s.procs[pid].verdict.Some?
    case OpenTmp(pid, _) => pid in s.procs && s.procs[pid].Sweeping? && s.procs[pid].verdict.None?
    case FinishWrite(pid) => pid in s.procs && s.procs[pid].Writing?
    case Replace(pid) => pid in s.procs && s.procs[pid].Ready?
    case ReplaceDenied(pid) => pid in s.procs && s.procs[pid].Ready?
    case Crash(pid) => pid in s.procs
  }

  function SetPhase(s: State, pid: Pid, q: Phase): State { s.(procs := s.procs[pid := q]) }

  function Exit(s: State, pid: Pid): State { s.(procs := s.procs - {pid}) }

  /** One step. The reader is f; a reader error ends the emitter. */
  function Next(f: FloatReader, s: State, a: Action): State
    requires Enabled(s, a)
  {
    match a
    case Tick(d) => s.(clock := s.clock + d)
    case Begin(pid, code, d) =>
      SetPhase(s, pid, Begun(NowUnix(Emit(s.clock, code, d, pid, Killed)), code, d))
    case ReadPrev(pid) =>
      var q := s.procs[pid];
      (match ReadLastSuccess(f, s.output)
       case Prev(n) =>
         var lastSuccess := if IsSuccess(q.exitCode) then q.nowUnix else n;
         SetPhase(s, pid, Loaded(Body(lastSuccess, q.exitCode, q.duration)))
       case _ => Exit(s, pid))
    case StartSweep(pid) => SetPhase(s, pid, Sweeping(s.procs[pid].body, s.clock, None))
    case Stat(pid, target) =>
      var q := s.procs[pid];
      if q.now - s.tmp[target].mtime < STALE_TMP_AGE then s
      else SetPhase(s, pid, q.(verdict := Some(Verdict(target, s.tmp[target].mtime))))
    case Unlink(pid) =>
      var q := s.procs[pid];
      SetPhase(s.(tmp := s.tmp - {q.verdict.value.target}), pid, q.(verdict := None))
    case OpenTmp(pid, partial) =>
      SetPhase(s.(tmp := s.tmp[pid := TmpFile(partial, s.clock)]), pid, Writing(s.procs[pid].body, s.clock))
    case FinishWrite(pid) =>
      var q := s.procs[pid];
      // A name that was unlinked meanwhile does not come back.
      var tmp := if pid in s.tmp then s.tmp[pid := TmpFile(q.body, s.clock)] else s.tmp;
      SetPhase(s.(tmp := tmp), pid, Ready(q.body, q.openedAt))
    case Replace(pid) =>
      // A missing tmp file raises FileNotFoundError, which is not retried.
      if pid in s.tmp then Exit(s.(output := Some(s.tmp[pid].text), tmp := s.tmp - {pid}), pid) else Exit(s, pid)
    case ReplaceDenied(pid) => s
    case Crash(pid) => Exit(s, pid)
  }

  /** An empty directory without emitters. */
  predicate Initial(s: State) { s.output == None && s.tmp == map[] && s.procs == map[] }

  /** actions[i] leads from trace[i] to trace[i + 1]. */
  ghost predicate IsPath(f: FloatReader, trace: seq<State>, actions: seq<Action>) {
    && |trace| == |actions| + 1
    && forall i :: 0 <= i < |actions| ==> Enabled(trace[i], actions[i]) && trace[i + 1] == Next(f, trace[i], actions[i])
  }

  ghost predicate IsRun(f: FloatReader, trace: seq<State>, actions: seq<Action>) {
    IsPath(f, trace, actions) && Initial(trace[0])
  }

  // ----- the output is never torn -----

  /** In step j an emitter of the run read the output and rendered this text from what it read. */
  ghost predicate Renders(f: FloatReader, trace: seq<State>, actions: seq<Action>, j: int, text: string) {
    && 0 <= j < |actions| && j < |trace| && actions[j].ReadPrev? && Enabled(trace[j], actions[j])
    && var q := trace[j].procs[actions[j].pid]; var r := ReadLastSuccess(f, trace[j].output);
       r.Prev? && text == Body(if IsSuccess(q.exitCode) then q.nowUnix else r.n, q.exitCode, q.duration)
  }

  ghost predicate RenderedBefore(f: FloatReader, trace: seq<State>, actions: seq<Action>, i: nat, text: string) {
    exists j :: 0 <= j < i && Renders(f, trace, actions, j, text)
  }

  /** The bodies that the emitters of the run have rendered before step i. */
  ghost function Rendered(f: FloatReader, trace: seq<State>, actions: seq<Action>, i: nat): iset<string> {
    iset text: string | RenderedBefore(f, trace, actions, i, text)
  }

  predicate HasBody(q: Phase) { !q.Begun? }

  /** The output and every emitter's body are among these texts, and a finished tmp file holds its writer's body. */
  ghost predicate Whole(s: State, rendered: iset<string>) {
    && (s.output.Some? ==> s.output.value in rendered)
    && (forall p :: p in s.procs && HasBody(s.procs[p]) ==> s.procs[p].body in rendered)
    && (forall p :: p in s.procs && s.procs[p].Ready? && p in s.tmp ==> s.tmp[p].text == s.procs[p].body)
  }

  lemma StepKeepsWhole(f: FloatReader, s: State, a: Action, rendered: iset<string>)
    requires Whole(s, rendered) && Enabled(s, a)
    requires a.ReadPrev? ==>
      var t := Next(f, s, a); a.pid in t.procs ==> t.procs[a.pid].Loaded? && t.procs[a.pid].body in rendered
    ensures Whole(Next(f, s, a), rendered)
  {
    hide Body, ReadLastSuccess;
  }

  lemma ReadGivesBody(f: FloatReader, s: State, pid: Pid)
    requires Enabled(s, ReadPrev(pid))
    ensures var t := Next(f, s, ReadPrev(pid)); pid in t.procs ==> t.procs[pid].Loaded?
  {
    hide ReadLastSuccess, Body;
  }

  lemma ReadRenders(f: FloatReader, trace: seq<State>, actions: seq<Action>, j: nat)
    requires j < |actions| && j < |trace| && actions[j].ReadPrev? && Enabled(trace[j], actions[j])
    ensures var (t, pid) := (Next(f, trace[j], actions[j]), actions[j].pid);
      pid in t.procs ==> t.procs[pid].Loaded? && Renders(f, trace, actions, j, t.procs[pid].body)
  {
    hide ReadLastSuccess, Body;
  }

  lemma WholeOverMore(s: State, rendered: iset<string>, more: iset<string>)
    requires Whole(s, rendered) && rendered <= more
    ensures Whole(s, more)
  {
  }

  /**
   * In every interleaving, with crashes anywhere and process ids reused at will, the output is absent or the complete
   * body that some emitter of the run rendered.
   */
  lemma {:induction false} OutputNeverTorn(f: FloatReader, trace: seq<State>, actions: seq<Action>, i: nat)
    requires IsRun(f, trace, actions) && i < |trace|
    ensures Whole(trace[i], Rendered(f, trace, actions, i))
  {
    hide Whole, Next, Enabled, Renders;
    if i == 0 {
      InitialIsWhole(trace[0], Rendered(f, trace, actions, 0));
    } else {
      OutputNeverTorn(f, trace, actions, i - 1);
      var rendered := Rendered(f, trace, actions, i);
      WholeOverMore(trace[i - 1], Rendered(f, trace, actions, i - 1), rendered);
      if actions[i - 1].ReadPrev? {
        ReadRenders(f, trace, actions, i - 1);
      }
      StepKeepsWhole(f, trace[i - 1], actions[i - 1], rendered);
    }
  }

  lemma InitialIsWhole(s: State, rendered: iset<string>)
    requires Initial(s)
    ensures Whole(s, rendered)
  {
  }

  // ----- a young tmp file is not swept away -----

  predicate Writes(q: Phase) { q.Writing? || q.Ready? }

  predicate Condemns(q: Phase, target: Pid) { q.Sweeping? && q.verdict.Some? && q.verdict.value.target == target }

  /** Some live sweep has found target's tmp file stale and not unlinked it yet. */
  ghost predicate Condemned(s: State, target: Pid) {
    exists p :: p in s.procs && Condemns(s.procs[p], target)
  }

  /** Opening a tmp file under a name that a pending unlink will hit. */
  ghost predicate Careless(s: State, a: Action) { a.OpenTmp? && Condemned(s, a.pid) }

  predicate Opens(a: Action, t: Pid) { a.OpenTmp? && a.pid == t }

  /** No sweep runs ahead of the clock. */
  ghost predicate SweepsInPast(s: State) {
    forall p :: p in s.procs && s.procs[p].Sweeping? ==> s.procs[p].now <= s.clock
  }

  /** While t writes: a verdict against it dates from 300 seconds after its opening, and a younger file is there. */
  ghost predicate Guarded(s: State, t: Pid) {
    SweepsInPast(s) &&
    (t in s.procs && Writes(s.procs[t]) ==>
       && s.procs[t].openedAt <= s.clock
       && (forall p :: p in s.procs && Condemns(s.procs[p], t) ==>
             s.procs[p].now >= s.procs[t].openedAt + STALE_TMP_AGE)
       && (t in s.tmp ==> s.tmp[t].mtime >= s.procs[t].openedAt)
       && (s.clock < s.procs[t].openedAt + STALE_TMP_AGE ==> t in s.tmp))
  }

  predicate TouchesTmp(a: Action) { a.Stat? || a.Unlink? || a.OpenTmp? || a.FinishWrite? }

  lemma StatKeepsGuarded(f: FloatReader, s: State, pid: Pid, target: Pid, t: Pid)
    requires Guarded(s, t) && Enabled(s, Stat(pid, target))
    ensures Guarded(Next(f, s, Stat(pid, target)), t)
  {
  }

  lemma UnlinkKeepsGuarded(f: FloatReader, s: State, pid: Pid, t: Pid)
    requires Guarded(s, t) && Enabled(s, Unlink(pid))
    ensures Guarded(Next(f, s, Unlink(pid)), t)
  {
  }

  lemma WriteStepKeepsGuarded(f: FloatReader, s: State, a: Action, t: Pid)
    requires Guarded(s, t) && Enabled(s, a) && !Opens(a, t) && (a.OpenTmp? || a.FinishWrite?)
    ensures Guarded(Next(f, s, a), t)
  {
  }

  lemma ExitStepKeepsGuarded(f: FloatReader, s: State, a: Action, t: Pid)
    requires Guarded(s, t) && Enabled(s, a) && (a.Replace? || a.Crash? || a.ReplaceDenied? || a.Tick?)
    ensures Guarded(Next(f, s, a), t)
  {
    hide Body, ReadLastSuccess;
  }

  lemma StartStepKeepsGuarded(f: FloatReader, s: State, a: Action, t: Pid)
    requires Guarded(s, t) && Enabled(s, a) && (a.Begin? || a.ReadPrev? || a.StartSweep?)
    ensures Guarded(Next(f, s, a), t)
  {
    hide Body, ReadLastSuccess;
    if a.ReadPrev? {
      ReadGivesBody(f, s, a.pid);
    }
  }

  /** Every step but t's own opening keeps t guarded. */
  lemma StepKeepsGuarded(f: FloatReader, s: State, a: Action, t: Pid)
    requires Guarded(s, t) && Enabled(s, a) && !Opens(a, t)
    ensures Guarded(Next(f, s, a), t)
  {
    hide Guarded, Enabled, Opens, Next;
    if a.Stat? {
      StatKeepsGuarded(f, s, a.pid, a.target, t);
    } else if a.Unlink? {
      UnlinkKeepsGuarded(f, s, a.pid, t);
    } else if TouchesTmp(a) {
      WriteStepKeepsGuarded(f, s, a, t);
    } else if a.Begin? || a.ReadPrev? || a.StartSweep? {
      StartStepKeepsGuarded(f, s, a, t);
    } else {
      ExitStepKeepsGuarded(f, s, a, t);
    }
  }

  /** Opening a name that is not condemned guards it, whatever happened to it before. */
  lemma OpenGuards(f: FloatReader, s: State, t: Pid, partial: string)
    requires SweepsInPast(s) && Enabled(s, OpenTmp(t, partial)) && !Condemned(s, t)
    ensures Guarded(Next(f, s, OpenTmp(t, partial)), t)
  {
  }

  /** t does not open its tmp file in steps i to k - 1. */
  ghost predicate NotReopened(actions: seq<Action>, i: int, k: int, t: Pid) {
    forall j :: 0 <= i <= j < k <= |actions| ==> !Opens(actions[j], t)
  }

  lemma {:induction false} PathKeepsGuarded(
      f: FloatReader, trace: seq<State>, actions: seq<Action>, i: nat, k: nat, t: Pid)
    requires IsPath(f, trace, actions) && i <= k < |trace| && Guarded(trace[i], t) && NotReopened(actions, i, k, t)
    ensures Guarded(trace[k], t)
    decreases k
  {
    hide Guarded, Next, Enabled, Opens;
    if i < k {
      PathKeepsGuarded(f, trace, actions, i, k - 1, t);
      StepKeepsGuarded(f, trace[k - 1], actions[k - 1], t);
    }
  }

  lemma StepKeepsSweepsInPast(f: FloatReader, s: State, a: Action)
    requires SweepsInPast(s) && Enabled(s, a)
    ensures SweepsInPast(Next(f, s, a))
  {
    hide Body, ReadLastSuccess;
    if a.ReadPrev? {
      ReadGivesBody(f, s, a.pid);
    }
  }

  lemma {:induction false} RunSweepsInPast(f: FloatReader, trace: seq<State>, actions: seq<Action>, i: nat)
    requires IsRun(f, trace, actions) && i < |trace|
    ensures SweepsInPast(trace[i])
  {
    hide Next, Enabled;
    if i > 0 {
      RunSweepsInPast(f, trace, actions, i - 1);
      StepKeepsSweepsInPast(f, trace[i - 1], actions[i - 1]);
    }
  }

  /** Step j is the opening by which t came to write in trace[i]. */
  ghost predicate OpenedIn(actions: seq<Action>, j: int, i: int, t: Pid) {
    0 <= j < i <= |actions| && Opens(actions[j], t) && NotReopened(actions, j + 1, i, t)
  }

  lemma OpenKeepsTime(f: FloatReader, s: State, a: Action, t: Pid)
    requires Enabled(s, a)
    requires var s' := Next(f, s, a); t in s'.procs && Writes(s'.procs[t])
    ensures var openedAt := Next(f, s, a).procs[t].openedAt;
      if Opens(a, t) then s.clock == openedAt
      else t in s.procs && Writes(s.procs[t]) && s.procs[t].openedAt == openedAt
  {
    hide Body, ReadLastSuccess;
    if a.ReadPrev? {
      ReadGivesBody(f, s, a.pid);
    }
  }

  /** Every writer of a run opened its tmp file in one of its steps, at the time it says. */
  lemma {:induction false} WriterOpened(f: FloatReader, trace: seq<State>, actions: seq<Action>, i: nat, t: Pid)
    returns (j: nat)
    requires IsRun(f, trace, actions) && i < |trace| && t in trace[i].procs && Writes(trace[i].procs[t])
    ensures OpenedIn(actions, j, i, t) && trace[j].clock == trace[i].procs[t].openedAt
  {
    hide Next, Enabled, Opens, Writes;
    if Opens(actions[i - 1], t) {
      j := i - 1;
      OpenKeepsTime(f, trace[i - 1], actions[i - 1], t);
    } else {
      OpenKeepsTime(f, trace[i - 1], actions[i - 1], t);
      j := WriterOpened(f, trace, actions, i - 1, t);
    }
  }

  /**
   * Whatever the other emitters do, reused ids and condemned names of their own included: if the name was not condemned
   * when t opened its tmp file, t still has the file as long as it is younger than 300 seconds.
   */
  lemma YoungTmpSurvives(f: FloatReader, trace: seq<State>, actions: seq<Action>, j: nat, i: nat, t: Pid)
    requires IsRun(f, trace, actions) && OpenedIn(actions, j, i, t) && !Condemned(trace[j], t)
    ensures Guarded(trace[i], t)
  {
    hide Guarded, Next, Enabled, Condemned, NotReopened, SweepsInPast;
    RunSweepsInPast(f, trace, actions, j);
    OpenGuards(f, trace[j], t, actions[j].partial);
    PathKeepsGuarded(f, trace, actions, j + 1, i, t);
  }

  /** So an emitter that renames within 300 seconds of such an opening publishes its own complete body. */
  lemma PromptRenamePublishes(f: FloatReader, trace: seq<State>, actions: seq<Action>, j: nat, i: nat)
    requires IsRun(f, trace, actions) && i < |actions| && actions[i].Replace?
    requires OpenedIn(actions, j, i, actions[i].pid) && !Condemned(trace[j], actions[i].pid)
    requires trace[i].clock < trace[i].procs[actions[i].pid].openedAt + STALE_TMP_AGE
    ensures trace[i + 1].output == Some(trace[i].procs[actions[i].pid].body)
  {
    hide Guarded, Condemned, OpenedIn, Whole, Rendered;
    YoungTmpSurvives(f, trace, actions, j, i, actions[i].pid);
    OutputNeverTorn(f, trace, actions, i);
    RenamePublishes(f, trace[i], actions[i].pid, Rendered(f, trace, actions, i));
  }

  lemma RenamePublishes(f: FloatReader, s: State, pid: Pid, rendered: iset<string>)
    requires Guarded(s, pid) && Whole(s, rendered) && Enabled(s, Replace(pid))
    requires s.clock < s.procs[pid].openedAt + STALE_TMP_AGE
    ensures Next(f, s, Replace(pid)).output == Some(s.procs[pid].body)
  {
  }

  // ----- and that condition is exact -----

  /** In trace[k], t is still at the opening it had in trace[0] and younger than 300 seconds, but its file is gone. */
  ghost predicate SweptAt(f: FloatReader, trace: seq<State>, actions: seq<Action>, k: int, t: Pid) {
    && IsPath(f, trace, actions) && 0 <= k < |trace| && NotReopened(actions, 0, k, t)
    && t in trace[k].procs && Writes(trace[k].procs[t])
    && trace[k].clock < trace[k].procs[t].openedAt + STALE_TMP_AGE && t !in trace[k].tmp
  }

  /** However the run goes on from s, t's file is there as long as t writes and is young. */
  ghost predicate NeverSwept(f: FloatReader, s: State, t: Pid) {
    forall trace, actions, k :: SweptAt(f, trace, actions, k, t) ==> trace[0] != s
  }

  /** t can open its tmp file safely exactly when no live sweep has condemned the name. */
  lemma OpenIsSafeExactly(f: FloatReader, s: State, t: Pid, partial: string)
    requires SweepsInPast(s) && Enabled(s, OpenTmp(t, partial))
    ensures !Condemned(s, t) <==> NeverSwept(f, Next(f, s, OpenTmp(t, partial)), t)
  {
    var s1 := Next(f, s, OpenTmp(t, partial));
    if Condemned(s, t) {
      var p :| p in s.procs && Condemns(s.procs[p], t);
      CondemnedIsSwept(f, s, t, partial, p);
    } else {
      hide Next, Enabled, Guarded, Condemned;
      OpenGuards(f, s, t, partial);
      forall trace, actions, k | SweptAt(f, trace, actions, k, t) ensures trace[0] != s1 {
        if trace[0] == s1 {
          PathKeepsGuarded(f, trace, actions, 0, k, t);
          GuardedIsNotSwept(f, trace, actions, k, t);
        }
      }
    }
  }

  lemma GuardedIsNotSwept(f: FloatReader, trace: seq<State>, actions: seq<Action>, k: nat, t: Pid)
    requires k < |trace| && Guarded(trace[k], t)
    ensures !SweptAt(f, trace, actions, k, t)
  {
    hide IsPath, NotReopened;
  }

  lemma CondemnedIsSwept(f: FloatReader, s: State, t: Pid, partial: string, sweeper: Pid)
    requires Enabled(s, OpenTmp(t, partial)) && sweeper in s.procs && Condemns(s.procs[sweeper], t)
    ensures !NeverSwept(f, Next(f, s, OpenTmp(t, partial)), t)
  {
    CarelessOpenLosesFile(f, s, t, partial, sweeper);
    var s1 := Next(f, s, OpenTmp(t, partial));
    var s2 := Next(f, s1, Unlink(sweeper));
    assert SweptAt(f, [s1, s2], [Unlink(sweeper)], 1, t);
  }

  // ----- never reusing a process id is enough; reusing one is not safe -----

  /** No emitter starts under a process id that an earlier emitter of the run had. */
  ghost predicate FreshPids(actions: seq<Action>) {
    forall i, j :: 0 <= i < j < |actions| && actions[i].Begin? && actions[j].Begin? ==> actions[i].pid != actions[j].pid
  }

  ghost predicate BegunBefore(actions: seq<Action>, i: nat, p: Pid)
    requires i <= |actions|
  {
    exists j :: 0 <= j < i && actions[j].Begin? && actions[j].pid == p
  }

  /** The ids under which an emitter has begun before step i. */
  ghost function Started(actions: seq<Action>, i: nat): iset<Pid>
    requires i <= |actions|
  {
    iset p: Pid | BegunBefore(actions, i, p)
  }

  /** With fresh ids: live emitters have started, and only emitters past opening leave a tmp file. */
  ghost predicate Tidy(s: State, started: iset<Pid>) {
    && (forall p :: p in s.procs ==> p in started)
    && (forall p :: p in s.tmp ==> p in started)
    && (forall p :: p in s.procs && p in s.tmp ==> Writes(s.procs[p]))
    && (forall p, t :: p in s.procs && t in s.procs && Condemns(s.procs[p], t) ==> Writes(s.procs[t]))
    && (forall p :: p in s.procs && s.procs[p].Sweeping? && s.procs[p].verdict.Some? ==>
          s.procs[p].verdict.value.target in started)
  }

  lemma TmpStepKeepsTidy(f: FloatReader, s: State, a: Action, started: iset<Pid>)
    requires Tidy(s, started) && Enabled(s, a) && TouchesTmp(a)
    ensures Tidy(Next(f, s, a), started)
  {
  }

  lemma OtherStepKeepsTidy(f: FloatReader, s: State, a: Action, started: iset<Pid>)
    requires Tidy(s, started) && Enabled(s, a) && !TouchesTmp(a)
    requires a.Begin? ==> a.pid !in started
    ensures Tidy(Next(f, s, a), if a.Begin? then started + iset{a.pid} else started)
  {
    hide Body, ReadLastSuccess;
    if a.ReadPrev? {
      ReadGivesBody(f, s, a.pid);
    }
  }

  lemma StepKeepsTidy(f: FloatReader, s: State, actions: seq<Action>, i: nat)
    requires i < |actions| && FreshPids(actions) && Tidy(s, Started(actions, i)) && Enabled(s, actions[i])
    ensures Tidy(Next(f, s, actions[i]), Started(actions, i + 1))
  {
    hide Next, Enabled, Tidy;
    var (a, started) := (actions[i], Started(actions, i));
    assert Started(actions, i + 1) == if a.Begin? then started + iset{a.pid} else started;
    if TouchesTmp(a) {
      TmpStepKeepsTidy(f, s, a, started);
    } else {
      OtherStepKeepsTidy(f, s, a, started);
    }
  }

  lemma {:induction false} FreshRunsAreTidy(f: FloatReader, trace: seq<State>, actions: seq<Action>, i: nat)
    requires IsRun(f, trace, actions) && FreshPids(actions) && i < |trace|
    ensures Tidy(trace[i], Started(actions, i))
  {
    hide Tidy, Next, Enabled, FreshPids, Started;
    if i == 0 {
      InitialIsTidy(trace[0], Started(actions, 0));
    } else {
      FreshRunsAreTidy(f, trace, actions, i - 1);
      StepKeepsTidy(f, trace[i - 1], actions, i - 1);
    }
  }

  lemma InitialIsTidy(s: State, started: iset<Pid>)
    requires Initial(s)
    ensures Tidy(s, started)
  {
  }

  /** Runs that never reuse a process id never open a condemned name. */
  lemma FreshPidsAreSafe(f: FloatReader, trace: seq<State>, actions: seq<Action>)
    requires IsRun(f, trace, actions) && FreshPids(actions)
    ensures forall j :: 0 <= j < |actions| ==> !Careless(trace[j], actions[j])
  {
    forall j | 0 <= j < |actions| ensures !Careless(trace[j], actions[j]) {
      FreshRunsAreTidy(f, trace, actions, j);
      TidyIsCareful(trace[j], actions[j], Started(actions, j));
    }
  }

  /** With fresh ids every prompt rename publishes. */
  lemma FreshPidsPublish(f: FloatReader, trace: seq<State>, actions: seq<Action>, i: nat)
    requires IsRun(f, trace, actions) && FreshPids(actions) && i < |actions| && actions[i].Replace?
    requires trace[i].clock < trace[i].procs[actions[i].pid].openedAt + STALE_TMP_AGE
    ensures trace[i + 1].output == Some(trace[i].procs[actions[i].pid].body)
  {
    hide Condemned, Opens, NotReopened, FreshPids, Next;
    var j := WriterOpened(f, trace, actions, i, actions[i].pid);
    FreshPidsAreSafe(f, trace, actions);
    OpenWasCareful(trace[j], actions, j, i, actions[i].pid);
    PromptRenamePublishes(f, trace, actions, j, i);
  }

  lemma OpenWasCareful(s: State, actions: seq<Action>, j: nat, i: nat, t: Pid)
    requires OpenedIn(actions, j, i, t) && !Careless(s, actions[j])
    ensures !Condemned(s, t)
  {
  }

  lemma TidyIsCareful(s: State, a: Action, started: iset<Pid>)
    requires Tidy(s, started) && Enabled(s, a)
    ensures !Careless(s, a)
  {
  }

  /** Whenever a name is opened while condemned, one unlink later its file of age zero is gone and the rename fails. */
  lemma CarelessOpenLosesFile(f: FloatReader, s: State, pid: Pid, partial: string, sweeper: Pid)
    requires Enabled(s, OpenTmp(pid, partial))
    requires sweeper in s.procs && Condemns(s.procs[sweeper], pid)
    ensures var s1 := Next(f, s, OpenTmp(pid, partial));
      && Enabled(s1, Unlink(sweeper))
      && var s2 := Next(f, s1, Unlink(sweeper));
      && s2.clock == s2.procs[pid].openedAt && pid !in s2.tmp
      && Enabled(s2, FinishWrite(pid))
      && var s3 := Next(f, s2, FinishWrite(pid));
      && Enabled(s3, Replace(pid)) && s3.clock == s3.procs[pid].openedAt
      && Next(f, s3, Replace(pid)).output == s.output
  {
  }

  ghost predicate Reachable(f: FloatReader, s: State) {
    exists trace, actions :: EndsAt(f, trace, actions, s)
  }

  ghost predicate EndsAt(f: FloatReader, trace: seq<State>, actions: seq<Action>, s: State) {
    IsRun(f, trace, actions) && trace[|actions|] == s
  }

  lemma ReachableStep(f: FloatReader, s: State, a: Action) returns (t: State)
    requires Reachable(f, s) && Enabled(s, a)
    ensures t == Next(f, s, a) && Reachable(f, t)
  {
    hide Next, Enabled;
    t := Next(f, s, a);
    var trace, actions := RunThrough(f, s, a);
    assert EndsAt(f, trace, actions, t);
  }

  /** Emitter pid begins on a directory without output and gets as far as its sweep. */
  lemma ReachSweep(f: FloatReader, s: State, pid: Pid) returns (t: State)
    requires Reachable(f, s) && pid !in s.procs && s.output == None
    ensures Reachable(f, t) && t.output == None && t.tmp == s.tmp && t.clock == s.clock
    ensures t.procs.Keys == s.procs.Keys + {pid} && t.procs[pid].Sweeping?
    ensures t.procs[pid].now == s.clock && t.procs[pid].verdict == None
    ensures forall p :: p in s.procs ==> t.procs[p] == s.procs[p]
  {
    hide Reachable, Body;
    assert ReadLastSuccess(f, None) == Prev(0);
    t := ReachableStep(f, s, Begin(pid, 0, NotFinite));
    t := ReachableStep(f, t, ReadPrev(pid));
    t := ReachableStep(f, t, StartSweep(pid));
  }

  /**
   * A reused process id does reach the bad case: emitter 1 crashes with its tmp file open, 300 seconds later emitter 2
   * finds the file stale, and a new emitter 1 is about to open it before emitter 2 unlinks it.
   */
  lemma ReusedPidIsCondemned(f: FloatReader) returns (s: State)
    ensures Reachable(f, s) && Enabled(s, OpenTmp(1, "")) && 2 in s.procs && Condemns(s.procs[2], 1) && s.output == None
  {
    hide Reachable;
    s := State(0, None, map[], map[]);
    assert Reachable(f, s) by {
      InitialIsReachable(f, s);
    }
    s := ReachSweep(f, s, 1);
    s := ReachableStep(f, s, OpenTmp(1, ""));
    s := ReachableStep(f, s, Crash(1));
    s := ReachableStep(f, s, Tick(STALE_TMP_AGE));
    s := ReachSweep(f, s, 2);
    s := ReachableStep(f, s, Stat(2, 1));
    s := ReachSweep(f, s, 1);
  }

  /** One whole run in which an emitter renames at the very instant it opened its tmp file, and publishes nothing. */
  lemma PromptRenameCanFail(f: FloatReader) returns (trace: seq<State>, actions: seq<Action>)
    ensures IsRun(f, trace, actions) && actions != [] && actions[|actions| - 1] == Replace(1)
    ensures var s := trace[|actions| - 1];
      1 in s.procs && s.procs[1].Ready? && s.clock == s.procs[1].openedAt && trace[|actions|].output == None
  {
    hide Reachable, Next, Enabled;
    var s := ReusedPidIsCondemned(f);
    CarelessOpenLosesFile(f, s, 1, "", 2);
    s := ReachableStep(f, s, OpenTmp(1, ""));
    s := ReachableStep(f, s, Unlink(2));
    s := ReachableStep(f, s, FinishWrite(1));
    trace, actions := RunThrough(f, s, Replace(1));
  }

  /** A run that ends with this step from this state. */
  lemma RunThrough(f: FloatReader, s: State, a: Action) returns (trace: seq<State>, actions: seq<Action>)
    requires Reachable(f, s) && Enabled(s, a)
    ensures IsRun(f, trace, actions) && actions != [] && actions[|actions| - 1] == a
    ensures trace[|actions| - 1] == s && trace[|actions|] == Next(f, s, a)
  {
    hide Next, Enabled;
    var before, first :| EndsAt(f, before, first, s);
    trace, actions := before + [Next(f, s, a)], first + [a];
    forall i | 0 <= i < |actions|
      ensures Enabled(trace[i], actions[i]) && trace[i + 1] == Next(f, trace[i], actions[i])
    {
      if i < |first| {
        assert trace[i] == before[i] && trace[i + 1] == before[i + 1] && actions[i] == first[i];
      }
    }
  }

  lemma InitialIsReachable(f: FloatReader, s: State)
    requires Initial(s)
    ensures Reachable(f, s)
  {
    assert EndsAt(f, [s], [], s);
  }

  /** A stat condemns a file exactly when it is at least 300 seconds old for the sweep; the unlink then removes it. */
  lemma StatCondemnsExactly(f: FloatReader, s: State, pid: Pid, target: Pid)
    requires Enabled(s, Stat(pid, target))
    ensures var t := Next(f, s, Stat(pid, target));
      && (Condemns(t.procs[pid], target) <==> s.procs[pid].now - s.tmp[target].mtime >= 300 * 1_000_000)
      && t.tmp == s.tmp
      && (Condemns(t.procs[pid], target) ==>
            Enabled(t, Unlink(pid)) && Next(f, t, Unlink(pid)).tmp == s.tmp - {target})
  {
  }

  // ----- alone, the steps of an emitter are one sequential emit -----

  /** The steps of an emitter that finds nothing stale. */
  function LoneSteps(pid: Pid, exitCode: int, duration: Duration, partial: string): seq<Action> {
    [Begin(pid, exitCode, duration), ReadPrev(pid), StartSweep(pid),
     OpenTmp(pid, partial), FinishWrite(pid), Replace(pid)]
  }

  /** Up to its sweep. */
  lemma LoneReads(f: FloatReader, s: State, pid: Pid, exitCode: int, duration: Duration)
    returns (s1: State, s2: State, s3: State)
    requires pid !in s.procs && ReadLastSuccess(f, s.output).Prev?
    ensures s1 == Next(f, s, Begin(pid, exitCode, duration))
    ensures Enabled(s1, ReadPrev(pid)) && s2 == Next(f, s1, ReadPrev(pid))
    ensures Enabled(s2, StartSweep(pid)) && s3 == Next(f, s2, StartSweep(pid))
    ensures var e := Emit(s.clock, exitCode, duration, pid, Denied(0));
      var body := Body(NextLastSuccess(e, ReadLastSuccess(f, s.output).n), exitCode, duration);
      s3 == s.(procs := s.procs[pid := Sweeping(body, s.clock, None)])
  {
    hide ReadLastSuccess, Body;
    s1 := Next(f, s, Begin(pid, exitCode, duration));
    s2 := Next(f, s1, ReadPrev(pid));
    s3 := Next(f, s2, StartSweep(pid));
  }

  /** From its sweep to the rename. */
  lemma LoneWrites(f: FloatReader, s: State, pid: Pid, partial: string) returns (s1: State, s2: State, s3: State)
    requires pid in s.procs && s.procs[pid].Sweeping? && s.procs[pid].verdict.None?
    ensures Enabled(s, OpenTmp(pid, partial)) && s1 == Next(f, s, OpenTmp(pid, partial))
    ensures Enabled(s1, FinishWrite(pid)) && s2 == Next(f, s1, FinishWrite(pid))
    ensures Enabled(s2, Replace(pid)) && s3 == Next(f, s2, Replace(pid))
    ensures s3 == State(s.clock, Some(s.procs[pid].body), s.tmp - {pid}, s.procs - {pid})
  {
    s1 := Next(f, s, OpenTmp(pid, partial));
    s2 := Next(f, s1, FinishWrite(pid));
    s3 := Next(f, s2, Replace(pid));
  }

  /** Taken one after the other by an emitter alone, they leave what the sequential emit leaves. */
  lemma LoneEmitterIsEmit(f: FloatReader, s: State, pid: Pid, exitCode: int, duration: Duration, partial: string)
    returns (trace: seq<State>)
    requires pid !in s.procs && ReadLastSuccess(f, s.output).Prev?
    ensures var actions := LoneSteps(pid, exitCode, duration, partial);
      && IsPath(f, trace, actions) && trace[0] == s
      && var (e, t) := (Emit(s.clock, exitCode, duration, pid, Denied(0)), trace[6]);
         && t.output == ApplyEmit(f, s.output, e)
         && t.tmp == s.tmp - {pid} && t.procs == s.procs && t.clock == s.clock
  {
    hide ReadLastSuccess, Body, Next;
    var s1, s2, s3 := LoneReads(f, s, pid, exitCode, duration);
    var s4, s5, s6 := LoneWrites(f, s3, pid, partial);
    trace := [s, s1, s2, s3, s4, s5, s6];
    assert s3.procs - {pid} == s.procs;
  }

  /**
   * The steps that do not get an emitter further: a denied rename stays, a crash leaves the files, a reader error ends
   * it.
   */
  lemma OtherStepsSpelled(f: FloatReader, s: State, a: Action)
    requires Enabled(s, a)
    ensures a.ReplaceDenied? ==> Next(f, s, a) == s
    ensures a.Crash? ==> Next(f, s, a) == s.(procs := s.procs - {a.pid})
    ensures a.Tick? ==> Next(f, s, a) == s.(clock := s.clock + a.d)
    ensures a.ReadPrev? && !ReadLastSuccess(f, s.output).Prev? ==> Next(f, s, a) == s.(procs := s.procs - {a.pid})
    ensures a.Replace? && a.pid !in s.tmp ==> Next(f, s, a) == s.(procs := s.procs - {a.pid})
    ensures a.FinishWrite? && a.pid !in s.tmp ==> Next(f, s, a).tmp == s.tmp
  {
    hide ReadLastSuccess, Body;
  }
}
