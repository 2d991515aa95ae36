/** The readonly-mount controller over an executor that may raise at any call. */
module ReadonlyMount {
  import opened Basics

  type FilePath = string

  /** An exception; a raising chattr call may or may not have changed the bit first. */
  datatype Fault = Fault(tookEffect: bool, excType: string, excText: string)

  datatype Call = SetImmutable(path: FilePath) | ClearImmutable(path: FilePath)

  /** The executor's world: immutable bits, the fate of its next calls, and the chattr calls made so far. */
  datatype World = World(bits: map<FilePath, bool>, script: seq<Option<Fault>>, calls: seq<Call>)

  /** An absent bit reads as clear. */
  function Bit(bits: map<FilePath, bool>, p: FilePath): bool { p in bits && bits[p] }

  /** The fate of the next call; past the end of the script every call succeeds. */
  function NextFault(w: World): Option<Fault> { if w.script == [] then None else w.script[0] }

  function Consume(w: World): World { if w.script == [] then w else w.(script := w.script[1..]) }

  function FaultsLeft(script: seq<Option<Fault>>): nat {
    if script == [] then 0 else (if script[0].Some? then 1 else 0) + FaultsLeft(script[1..])
  }

  function Chattr(w: World, p: FilePath, target: bool): World {
    var call := if target then SetImmutable(p) else ClearImmutable(p);
    var w' := Consume(w).(calls := w.calls + [call]);
    match NextFault(w)
    case Some(f) => if f.tookEffect then w'.(bits := w.bits[p := target]) else w'
    case None => w'.(bits := w.bits[p := target])
  }

  // ----- the controller, as functions of the world -----

  datatype MountState = Locked | Unlocked | Partial

  function ClassifyState(immutableCount: nat, total: nat): MountState {
    if immutableCount == 0 then Unlocked else if immutableCount == total then Locked else Partial
  }

  datatype Probed<T> = Got(value: T) | Raised(fault: Fault)

  /** status(): probe every path; the first raising probe aborts it. */
  function CountImmutable(w: World, paths: seq<FilePath>, n: nat): (World, Probed<nat>)
    requires n <= |paths|
  {
    if n == 0 then (w, Got(0))
    else
      var (w1, c) := CountImmutable(w, paths, n - 1);
      match c
      case Raised(_) => (w1, c)
      case Got(k) =>
        (Consume(w1), match NextFault(w1)
                      case Some(f) => Raised(f)
                      case None => Got(if Bit(w1.bits, paths[n - 1]) then k + 1 else k))
  }

  function StatusOf(w: World, paths: seq<FilePath>): (World, Probed<MountState>) {
    var (w', c) := CountImmutable(w, paths, |paths|);
    (w', match c case Got(k) => Got(ClassifyState(k, |paths|)) case Raised(f) => Raised(f))
  }

  datatype PerFileResult = Ok | Already | Error

  function ErrorMessage(p: FilePath, f: Fault): string { p + ": " + f.excType + ": " + f.excText }

  /** What the path loop has done: the world, the results, the first error. */
  datatype LoopState = LoopState(world: World, perFile: map<FilePath, PerFileResult>, firstError: Option<string>)

  function Record(s: LoopState, p: FilePath, r: PerFileResult, w: World): LoopState {
    s.(world := w, perFile := s.perFile[p := r])
  }

  function RecordError(s: LoopState, p: FilePath, f: Fault, w: World): LoopState {
    LoopState(w, s.perFile[p := Error], if s.firstError.None? then Some(ErrorMessage(p, f)) else s.firstError)
  }

  /** The loop body for one path. */
  function TransitionPath(s: LoopState, p: FilePath, target: bool): LoopState {
    var w := Consume(s.world);
    match NextFault(s.world)
    case Some(f) => RecordError(s, p, f, w)
    case None =>
      if Bit(w.bits, p) == target then Record(s, p, Already, w)
      else match NextFault(w)
        case Some(f) => RecordError(s, p, f, Chattr(w, p, target))
        case None => Record(s, p, Ok, Chattr(w, p, target))
  }

  function TransitionPaths(w: World, paths: seq<FilePath>, target: bool, n: nat): LoopState
    requires n <= |paths|
  {
    if n == 0 then LoopState(w, map[], None)
    else TransitionPath(TransitionPaths(w, paths, target, n - 1), paths[n - 1], target)
  }

  datatype LockTransition = LockTransition(
    targetPaths: seq<FilePath>,
    previousState: MountState,
    newState: MountState,
    perFile: map<FilePath, PerFileResult>,
    errorMessage: Option<string>)

  /** lock() and unlock(): status, path loop, status; a status that raises ends the call. */
  function TransitionOf(w: World, paths: seq<FilePath>, target: bool): (World, Probed<LockTransition>) {
    var (w1, previous) := StatusOf(w, paths);
    match previous
    case Raised(f) => (w1, Raised(f))
    case Got(before) =>
      var s := TransitionPaths(w1, paths, target, |paths|);
      var (w2, status) := StatusOf(s.world, paths);
      match status
      case Raised(f) => (w2, Raised(f))
      case Got(after) => (w2, Got(LockTransition(paths, before, after, s.perFile, s.firstError)))
  }

  // ----- the classes -----

  class Executor {
    var bits: map<FilePath, bool>
    var script: seq<Option<Fault>>
    var calls: seq<Call>

    ghost function State(): World
      reads this
    {
      World(bits, script, calls)
    }

    constructor (bits: map<FilePath, bool>, script: seq<Option<Fault>>)
      ensures State() == World(bits, script, [])
    {
      this.bits, this.script, this.calls := bits, script, [];
    }

    method TakeFate() returns (f: Option<Fault>)
      modifies this`script
      ensures f == NextFault(old(State())) && State() == Consume(old(State()))
    {
      if script == [] {
        return None;
      }
      f := script[0];
      script := script[1..];
    }

    method IsImmutable(p: FilePath) returns (r: Probed<bool>)
      modifies this`script
      ensures State() == Consume(old(State()))
      ensures r == match NextFault(old(State())) case Some(f) => Raised(f) case None => Got(Bit(old(bits), p))
    {
      var f := TakeFate();
      r := match f case Some(e) => Raised(e) case None => Got(Bit(bits, p));
    }

    /** chattr +i or -i; None when it did not raise. */
    method Write(p: FilePath, target: bool) returns (f: Option<Fault>)
      modifies this
      ensures f == NextFault(old(State())) && State() == Chattr(old(State()), p, target)
    {
      calls := calls + [if target then SetImmutable(p) else ClearImmutable(p)];
      f := TakeFate();
      if f.None? || f.value.tookEffect {
        bits := bits[p := target];
      }
    }
  }

  class Controller {
    const executor: Executor
    const protectedPaths: seq<FilePath>

    constructor (executor: Executor, protectedPaths: seq<FilePath>)
      requires protectedPaths != []
      ensures this.executor == executor && this.protectedPaths == protectedPaths
    {
      this.executor, this.protectedPaths := executor, protectedPaths;
    }

    method Status() returns (r: Probed<MountState>)
      modifies executor
      ensures (executor.State(), r) == StatusOf(old(executor.State()), protectedPaths)
    {
      var count := 0;
      for i := 0 to |protectedPaths|
        invariant (executor.State(), Got(count)) == CountImmutable(old(executor.State()), protectedPaths, i)
      {
        var probe := executor.IsImmutable(protectedPaths[i]);
        match probe
        case Raised(f) =>
          CountStops(old(executor.State()), protectedPaths, i + 1, |protectedPaths|);
          return Raised(f);
        case Got(b) =>
          count := if b then count + 1 else count;
      }
      return Got(ClassifyState(count, |protectedPaths|));
    }

    method Transition(targetImmutable: bool) returns (r: Probed<LockTransition>)
      modifies executor
      ensures (executor.State(), r) == TransitionOf(old(executor.State()), protectedPaths, targetImmutable)
    {
      var previous := Status();
      if previous.Raised? {
        return Raised(previous.fault);
      }
      ghost var w1 := executor.State();
      var perFile: map<FilePath, PerFileResult> := map[];
      var firstError: Option<string> := None;
      for i := 0 to |protectedPaths|
        invariant LoopState(executor.State(), perFile, firstError)
               == TransitionPaths(w1, protectedPaths, targetImmutable, i)
      {
        var path := protectedPaths[i];
        var outcome := ApplyTo(path, targetImmutable);
        match outcome
        case Got(result) =>
          perFile := perFile[path := result];
        case Raised(f) =>
          perFile := perFile[path := Error];
          if firstError == None {
            firstError := Some(ErrorMessage(path, f));
          }
      }
      var newState := Status();
      if newState.Raised? {
        return Raised(newState.fault);
      }
      return Got(LockTransition(protectedPaths, previous.value, newState.value, perFile, firstError));
    }

    /** The guarded part of the loop body: probe, then chattr if the bit differs. */
    method ApplyTo(path: FilePath, target: bool) returns (r: Probed<PerFileResult>)
      modifies executor
      ensures r.Got? ==> forall m, e ::
        TransitionPath(LoopState(old(executor.State()), m, e), path, target)
          == LoopState(executor.State(), m[path := r.value], e)
      ensures r.Raised? ==> forall m, e ::
        TransitionPath(LoopState(old(executor.State()), m, e), path, target)
        == RecordError(LoopState(old(executor.State()), m, e), path, r.fault, executor.State())
    {
      var probe := executor.IsImmutable(path);
      if probe.Raised? {
        return Raised(probe.fault);
      }
      if probe.value == target {
        return Got(Already);
      }
      var f := executor.Write(path, target);
      if f.Some? {
        return Raised(f.value);
      }
      return Got(Ok);
    }

    method Lock() returns (r: Probed<LockTransition>)
      modifies executor
      ensures (executor.State(), r) == TransitionOf(old(executor.State()), protectedPaths, true)
    {
      r := Transition(true);
    }

    method Unlock() returns (r: Probed<LockTransition>)
      modifies executor
      ensures (executor.State(), r) == TransitionOf(old(executor.State()), protectedPaths, false)
    {
      r := Transition(false);
    }
  }

  lemma {:induction false} CountStops(w: World, paths: seq<FilePath>, m: nat, n: nat)
    requires m <= n <= |paths| && CountImmutable(w, paths, m).1.Raised?
    ensures CountImmutable(w, paths, n) == CountImmutable(w, paths, m)
    decreases n
  {
    if m < n {
      CountStops(w, paths, m, n - 1);
    }
  }

  // ----- one transition under arbitrary faults -----

  /** Bits only move towards target, and only on the given paths. */
  ghost predicate MovesTowards(w: World, w': World, paths: seq<FilePath>, target: bool) {
    forall p :: Bit(w'.bits, p) == Bit(w.bits, p) || (p in paths && Bit(w'.bits, p) == target)
  }

  lemma {:induction false} StatusKeepsWorld(w: World, paths: seq<FilePath>, n: nat)
    requires n <= |paths|
    ensures var (w', c) := CountImmutable(w, paths, n);
      && w'.bits == w.bits && w'.calls == w.calls
      && FaultsLeft(w'.script) <= FaultsLeft(w.script)
      && (c.Raised? ==> FaultsLeft(w'.script) < FaultsLeft(w.script))
      && (c.Got? ==> c.value == CountSet(w.bits, paths, n))
  {
    if n > 0 {
      StatusKeepsWorld(w, paths, n - 1);
    }
  }

  /** A status call reads only; it raises only by using up a fault. */
  lemma StatusFacts(w: World, paths: seq<FilePath>)
    ensures var (w', r) := StatusOf(w, paths);
      && w'.bits == w.bits && w'.calls == w.calls
      && FaultsLeft(w'.script) <= FaultsLeft(w.script)
      && (r.Raised? ==> FaultsLeft(w'.script) < FaultsLeft(w.script))
      && (r.Got? ==> r.value == ClassifyState(CountSet(w.bits, paths, |paths|), |paths|))
  {
    hide FaultsLeft, CountImmutable, ClassifyState;
    StatusKeepsWorld(w, paths, |paths|);
    var c := CountImmutable(w, paths, |paths|).1;
    assert c.Raised? <==> StatusOf(w, paths).1.Raised?;
  }

  /** One of the next n calls raises. */
  predicate FaultWithin(script: seq<Option<Fault>>, n: nat) {
    exists i :: 0 <= i < n && i < |script| && script[i].Some?
  }

  lemma {:induction false} CountRaisesExactly(w: World, paths: seq<FilePath>, n: nat)
    requires n <= |paths|
    ensures var (w', c) := CountImmutable(w, paths, n);
      && (c.Raised? <==> FaultWithin(w.script, n))
      && (c.Got? ==> w'.script == if n <= |w.script| then w.script[n..] else [])
  {
    if n > 0 {
      CountRaisesExactly(w, paths, n - 1);
      assert FaultWithin(w.script, n) <==>
        FaultWithin(w.script, n - 1) || (n - 1 < |w.script| && w.script[n - 1].Some?);
    }
  }

  /** A status call raises exactly when one of its probes does. */
  lemma StatusRaisesExactly(w: World, paths: seq<FilePath>)
    ensures StatusOf(w, paths).1.Raised? <==> FaultWithin(w.script, |paths|)
  {
    CountRaisesExactly(w, paths, |paths|);
  }

  /**
   * A transition raises exactly when a probe of its first or of its last status does; faults in between are recorded.
   */
  lemma TransitionRaisesExactly(w: World, paths: seq<FilePath>, target: bool)
    ensures var s := TransitionPaths(StatusOf(w, paths).0, paths, target, |paths|);
      TransitionOf(w, paths, target).1.Raised? <==>
        FaultWithin(w.script, |paths|) || FaultWithin(s.world.script, |paths|)
  {
    hide StatusOf, TransitionPaths, FaultWithin;
    var s := TransitionPaths(StatusOf(w, paths).0, paths, target, |paths|);
    TransitionCases(w, paths, target);
    StatusRaisesExactly(w, paths);
    StatusRaisesExactly(s.world, paths);
  }

  /** How many of the first n paths have their bit set. */
  function CountSet(bits: map<FilePath, bool>, paths: seq<FilePath>, n: nat): (c: nat)
    requires n <= |paths|
    ensures c <= n
  {
    if n == 0 then 0 else CountSet(bits, paths, n - 1) + (if Bit(bits, paths[n - 1]) then 1 else 0)
  }

  /** The loop after n paths: what each result and the error message say. */
  ghost predicate LoopFacts(w: World, paths: seq<FilePath>, target: bool, n: nat, s: LoopState)
    requires n <= |paths|
  {
    && MovesTowards(w, s.world, paths[..n], target)
    && (forall p :: p in s.perFile <==> p in paths[..n])
    && (forall p :: p in s.perFile && s.perFile[p] != Error ==> Bit(s.world.bits, p) == target)
    && (s.firstError.None? <==> FaultsLeft(s.world.script) == FaultsLeft(w.script))
    && FaultsLeft(s.world.script) <= FaultsLeft(w.script)
    && (s.firstError.None? ==> forall p :: p in paths[..n] ==> Bit(s.world.bits, p) == target)
  }

  lemma ConsumeCounts(w: World)
    ensures FaultsLeft(Consume(w).script) == FaultsLeft(w.script) - (if NextFault(w).Some? then 1 else 0)
  {
  }

  lemma PathFacts(s: LoopState, p: FilePath, target: bool)
    ensures var s' := TransitionPath(s, p, target);
      && MovesTowards(s.world, s'.world, [p], target)
      && s'.perFile.Keys == s.perFile.Keys + {p}
      && (forall q :: q in s.perFile && q != p ==> s'.perFile[q] == s.perFile[q])
      && (s'.perFile[p] != Error ==> Bit(s'.world.bits, p) == target && s'.firstError == s.firstError)
      && (s'.perFile[p] == Error ==> s'.firstError.Some? && (s.firstError.Some? ==> s'.firstError == s.firstError))
      && FaultsLeft(s'.world.script) <= FaultsLeft(s.world.script)
      && (s'.perFile[p] != Error <==> FaultsLeft(s'.world.script) == FaultsLeft(s.world.script))
  {
    hide ErrorMessage, FaultsLeft;
    var w := Consume(s.world);
    ConsumeCounts(s.world);
    ConsumeCounts(w);
  }

  lemma {:induction false} LoopHasFacts(w: World, paths: seq<FilePath>, target: bool, n: nat)
    requires n <= |paths|
    ensures LoopFacts(w, paths, target, n, TransitionPaths(w, paths, target, n))
  {
    hide TransitionPath, FaultsLeft;
    if n > 0 {
      LoopHasFacts(w, paths, target, n - 1);
      PathFacts(TransitionPaths(w, paths, target, n - 1), paths[n - 1], target);
      assert paths[..n] == paths[..n - 1] + [paths[n - 1]];
    }
  }

  /**
   * Whatever the executor does, a transition leaves other bits alone, moves bits only to the target, and reports
   * truthfully.
   */
  lemma TransitionUnderFaults(w: World, paths: seq<FilePath>, target: bool)
    ensures var (w', r) := TransitionOf(w, paths, target);
      && MovesTowards(w, w', paths, target)
      && FaultsLeft(w'.script) <= FaultsLeft(w.script)
      && (r.Raised? ==> FaultsLeft(w'.script) < FaultsLeft(w.script))
      && (r.Got? ==>
            && (forall p :: p in r.value.perFile <==> p in paths)
            && (forall p :: p in paths && r.value.perFile[p] != Error ==> Bit(w'.bits, p) == target)
            && r.value.previousState == ClassifyState(CountSet(w.bits, paths, |paths|), |paths|)
            && r.value.newState == ClassifyState(CountSet(w'.bits, paths, |paths|), |paths|))
  {
    hide ClassifyState, StatusOf;
    StatusFacts(w, paths);
    var w1 := StatusOf(w, paths).0;
    LoopHasFacts(w1, paths, target, |paths|);
    var s := TransitionPaths(w1, paths, target, |paths|);
    StatusFacts(s.world, paths);
    assert paths[..|paths|] == paths;
    TransitionCases(w, paths, target);
  }

  /** The three ways a call can go. */
  lemma TransitionCases(w: World, paths: seq<FilePath>, target: bool)
    ensures var (w1, before) := StatusOf(w, paths);
      var s := TransitionPaths(w1, paths, target, |paths|);
      var (w2, after) := StatusOf(s.world, paths);
      var (w', r) := TransitionOf(w, paths, target);
      if before.Raised? then w' == w1 && r.Raised?
      else w' == w2 && (r.Raised? <==> after.Raised?)
  {
    hide StatusOf;
    var (w1, before) := StatusOf(w, paths);
    if before.Got? {
      var s := TransitionPaths(w1, paths, target, |paths|);
      var (w2, after) := StatusOf(s.world, paths);
      assert TransitionOf(w, paths, target).0 == w2;
    }
  }

  // ----- the error message names the first failing path -----

  /** The fault that path i of the loop met, if any. */
  function FaultAt(w: World, paths: seq<FilePath>, target: bool, i: nat): Option<Fault>
    requires i < |paths|
  {
    var s := TransitionPaths(w, paths, target, i);
    if NextFault(s.world).Some? then NextFault(s.world)
    else if Bit(s.world.bits, paths[i]) == target then None
    else NextFault(Consume(s.world))
  }

  /** The first of the first n paths that met a fault. */
  function FirstFault(w: World, paths: seq<FilePath>, target: bool, n: nat): (r: Option<nat>)
    requires n <= |paths|
    ensures r.Some? ==> r.value < n && FaultAt(w, paths, target, r.value).Some?
    ensures forall j :: 0 <= j < (if r.Some? then r.value else n) ==> FaultAt(w, paths, target, j).None?
  {
    if n == 0 then None
    else
      var r := FirstFault(w, paths, target, n - 1);
      if r.Some? then r else if FaultAt(w, paths, target, n - 1).Some? then Some(n - 1) else None
  }

  /** The message is that of the first path that met a fault, and absent exactly when none did. */
  lemma {:induction false} ErrorIsFirst(w: World, paths: seq<FilePath>, target: bool, n: nat)
    requires n <= |paths|
    ensures var i := FirstFault(w, paths, target, n);
      TransitionPaths(w, paths, target, n).firstError ==
        if i.None? then None else Some(ErrorMessage(paths[i.value], FaultAt(w, paths, target, i.value).value))
  {
    hide FaultAt, ErrorMessage, TransitionPath;
    if n > 0 {
      ErrorIsFirst(w, paths, target, n - 1);
      FaultDecides(w, paths, target, n - 1);
    }
  }

  /** With distinct paths, a path's result is an error exactly when it met a fault. */
  lemma {:induction false} ErrorsAreFaults(w: World, paths: seq<FilePath>, target: bool, n: nat, i: nat)
    requires i < n <= |paths| && Distinct(paths)
    ensures var s := TransitionPaths(w, paths, target, n);
      paths[i] in s.perFile && (s.perFile[paths[i]] == Error <==> FaultAt(w, paths, target, i).Some?)
  {
    hide FaultAt, ErrorMessage, TransitionPath;
    FaultDecides(w, paths, target, n - 1);
    if i < n - 1 {
      ErrorsAreFaults(w, paths, target, n - 1, i);
    }
  }

  /**
   * The report of a whole call: the message is the first faulting path's, and with distinct paths the errors are the
   * faults.
   */
  lemma ReportNamesFirstFault(w: World, paths: seq<FilePath>, target: bool)
    requires TransitionOf(w, paths, target).1.Got?
    ensures var w1 := StatusOf(w, paths).0;
      var r := TransitionOf(w, paths, target).1.value;
      var i := FirstFault(w1, paths, target, |paths|);
      && r.errorMessage
         == (if i.None? then None else Some(ErrorMessage(paths[i.value], FaultAt(w1, paths, target, i.value).value)))
      && (Distinct(paths) ==> forall k :: 0 <= k < |paths| ==>
            paths[k] in r.perFile && (r.perFile[paths[k]] == Error <==> FaultAt(w1, paths, target, k).Some?))
  {
    hide StatusOf, FaultAt, ErrorMessage;
    var w1 := StatusOf(w, paths).0;
    ErrorIsFirst(w1, paths, target, |paths|);
    if Distinct(paths) {
      forall k | 0 <= k < |paths|
        ensures var s := TransitionPaths(w1, paths, target, |paths|);
          paths[k] in s.perFile && (s.perFile[paths[k]] == Error <==> FaultAt(w1, paths, target, k).Some?)
      {
        ErrorsAreFaults(w1, paths, target, |paths|, k);
      }
    }
  }

  lemma FaultDecides(w: World, paths: seq<FilePath>, target: bool, i: nat)
    requires i < |paths|
    ensures var s := TransitionPaths(w, paths, target, i);
      var s' := TransitionPath(s, paths[i], target);
      var f := FaultAt(w, paths, target, i);
      && paths[i] in s'.perFile && s'.perFile == s.perFile[paths[i] := s'.perFile[paths[i]]]
      && (s'.perFile[paths[i]] == Error <==> f.Some?)
      && s'.firstError == if f.Some? && s.firstError.None? then Some(ErrorMessage(paths[i], f.value)) else s.firstError
  {
    hide TransitionPaths, ErrorMessage;
  }

  // ----- a fault-free call does exactly the work that is needed -----

  function CallFor(p: FilePath, target: bool): Call {
    if target then SetImmutable(p) else ClearImmutable(p)
  }

  /** One call for each path whose bit differs from the target, in order. */
  function NeededCalls(bits: map<FilePath, bool>, paths: seq<FilePath>, target: bool, n: nat): seq<Call>
    requires n <= |paths|
  {
    if n == 0 then []
    else
      NeededCalls(bits, paths, target, n - 1)
      + (if Bit(bits, paths[n - 1]) == target then [] else [CallFor(paths[n - 1], target)])
  }

  lemma PathCalls(s: LoopState, p: FilePath, target: bool)
    requires FaultsLeft(TransitionPath(s, p, target).world.script) == FaultsLeft(s.world.script)
    ensures var needed := if Bit(s.world.bits, p) == target then [] else [CallFor(p, target)];
      TransitionPath(s, p, target).world.calls == s.world.calls + needed
  {
    hide FaultsLeft, ErrorMessage;
    ConsumeCounts(s.world);
    ConsumeCounts(Consume(s.world));
  }

  lemma {:induction false} LoopCalls(w: World, paths: seq<FilePath>, target: bool, n: nat)
    requires n <= |paths| && Distinct(paths)
    requires FaultsLeft(TransitionPaths(w, paths, target, n).world.script) == FaultsLeft(w.script)
    ensures TransitionPaths(w, paths, target, n).world.calls == w.calls + NeededCalls(w.bits, paths, target, n)
  {
    hide FaultsLeft, TransitionPath, CallFor;
    if n > 0 {
      var s := TransitionPaths(w, paths, target, n - 1);
      var p := paths[n - 1];
      LoopHasFacts(w, paths, target, n - 1);
      PathFacts(s, p, target);
      LoopCalls(w, paths, target, n - 1);
      assert p !in paths[..n - 1];
      PathCalls(s, p, target);
    }
  }

  lemma {:induction false} AllSetCount(bits: map<FilePath, bool>, paths: seq<FilePath>, target: bool, n: nat)
    requires n <= |paths| && forall i :: 0 <= i < n ==> Bit(bits, paths[i]) == target
    ensures CountSet(bits, paths, n) == if target then n else 0
  {
    if n > 0 {
      AllSetCount(bits, paths, target, n - 1);
    }
  }

  /**
   * A call that meets no fault reaches the target state, reports no error and makes one chattr call per path whose bit
   * differed.
   */
  lemma FaultFreeTransition(w: World, paths: seq<FilePath>, target: bool)
    requires paths != [] && FaultsLeft(TransitionOf(w, paths, target).0.script) == FaultsLeft(w.script)
    ensures var (w', r) := TransitionOf(w, paths, target);
      && r.Got? && r.value.newState == (if target then Locked else Unlocked)
      && r.value.errorMessage == None
      && (forall p :: p in paths ==> Bit(w'.bits, p) == target)
      && (Distinct(paths) ==> w'.calls == w.calls + NeededCalls(w.bits, paths, target, |paths|))
  {
    hide StatusOf;
    var n := |paths|;
    StatusFacts(w, paths);
    var w1 := StatusOf(w, paths).0;
    LoopHasFacts(w1, paths, target, n);
    var s := TransitionPaths(w1, paths, target, n);
    StatusFacts(s.world, paths);
    assert paths[..n] == paths;
    TransitionCases(w, paths, target);
    assert FaultsLeft(s.world.script) == FaultsLeft(w1.script);
    forall i | 0 <= i < n ensures Bit(s.world.bits, paths[i]) == target {
      assert paths[i] in paths;
    }
    AllSetCount(s.world.bits, paths, target, n);
    if Distinct(paths) {
      LoopCalls(w1, paths, target, n);
    }
  }

  lemma {:induction false} CountMeans(bits: map<FilePath, bool>, paths: seq<FilePath>, n: nat)
    requires n <= |paths|
    ensures CountSet(bits, paths, n) == 0 <==> forall i :: 0 <= i < n ==> !Bit(bits, paths[i])
    ensures CountSet(bits, paths, n) == n <==> forall i :: 0 <= i < n ==> Bit(bits, paths[i])
  {
    if n > 0 {
      CountMeans(bits, paths, n - 1);
    }
  }

  /**
   * A status that returns says LOCKED exactly when every bit is set, UNLOCKED exactly when none is, PARTIAL otherwise.
   */
  lemma StatusMeans(w: World, paths: seq<FilePath>)
    requires paths != [] && StatusOf(w, paths).1.Got?
    ensures var state := StatusOf(w, paths).1.value;
      && (state.Locked? <==> forall i :: 0 <= i < |paths| ==> Bit(w.bits, paths[i]))
      && (state.Unlocked? <==> forall i :: 0 <= i < |paths| ==> !Bit(w.bits, paths[i]))
  {
    hide StatusOf;
    StatusFacts(w, paths);
    CountMeans(w.bits, paths, |paths|);
  }

  /**
   * With or without errors, a transition that returns reports PARTIAL exactly when it left one bit set and one clear.
   */
  lemma PartialExactly(w: World, paths: seq<FilePath>, target: bool)
    requires paths != [] && TransitionOf(w, paths, target).1.Got?
    ensures var (w', r) := TransitionOf(w, paths, target);
      r.value.newState.Partial? <==>
        && (exists i :: 0 <= i < |paths| && Bit(w'.bits, paths[i]))
        && (exists i :: 0 <= i < |paths| && !Bit(w'.bits, paths[i]))
  {
    hide TransitionOf, Bit;
    TransitionUnderFaults(w, paths, target);
    CountMeans(TransitionOf(w, paths, target).0.bits, paths, |paths|);
  }

  /** One fault is not always PARTIAL: a chattr call that raises after it took effect ends in LOCKED, with an error. */
  lemma EffectiveFaultIsLocked(p: FilePath, q: FilePath, fault: Fault)
    requires p != q && fault.tookEffect
    ensures var w := World(map[], [None, None, None, Some(fault)], []);
      var (w', r) := TransitionOf(w, [p, q], true);
      && r.Got? && r.value.newState.Locked? && r.value.errorMessage == Some(ErrorMessage(p, fault))
      && r.value.perFile == map[p := Error, q := Ok]
  {
    hide ErrorMessage;
    var paths := [p, q];
    var w := World(map[], [None, None, None, Some(fault)], []);
    var w1 := World(map[], [None, Some(fault)], []);
    assert StatusOf(w, paths) == (w1, Got(Unlocked)) by {
      assert CountImmutable(w, paths, 1) == (World(map[], [None, None, Some(fault)], []), Got(0));
      assert CountImmutable(w, paths, 2) == (w1, Got(0));
    }
    var s1 := LoopState(World(map[p := true], [], [SetImmutable(p)]), map[p := Error], Some(ErrorMessage(p, fault)));
    assert TransitionPaths(w1, paths, true, 1) == s1;
    var w2 := World(map[p := true, q := true], [], [SetImmutable(p), SetImmutable(q)]);
    var s2 := LoopState(w2, map[p := Error, q := Ok], Some(ErrorMessage(p, fault)));
    assert TransitionPaths(w1, paths, true, 2) == TransitionPath(s1, q, true) == s2;
    assert StatusOf(w2, paths) == (w2, Got(Locked)) by {
      assert CountImmutable(w2, paths, 1) == (w2, Got(1));
      assert CountImmutable(w2, paths, 2) == (w2, Got(2));
    }
  }

  // ----- what a path's result says -----

  /**
   * With distinct paths, a path without a fault is "already" exactly when its bit was at the target before the call,
   * and "ok" exactly when it was not.
   */
  lemma {:induction false} ResultsSpelled(w: World, paths: seq<FilePath>, target: bool, n: nat, i: nat)
    requires i < n <= |paths| && Distinct(paths)
    ensures var s := TransitionPaths(w, paths, target, n);
      && paths[i] in s.perFile
      && (s.perFile[paths[i]] == Already <==> FaultAt(w, paths, target, i).None? && Bit(w.bits, paths[i]) == target)
      && (s.perFile[paths[i]] == Ok <==> FaultAt(w, paths, target, i).None? && Bit(w.bits, paths[i]) != target)
  {
    hide ErrorMessage, TransitionPath, FaultAt, MovesTowards;
    FaultDecides(w, paths, target, n - 1);
    if i < n - 1 {
      ResultsSpelled(w, paths, target, n - 1, i);
    } else {
      LoopHasFacts(w, paths, target, i);
      BitBefore(w, paths, target, i);
      OwnResult(TransitionPaths(w, paths, target, i), paths[i], target);
    }
  }

  /** The loop has not touched a path it has not come to. */
  lemma BitBefore(w: World, paths: seq<FilePath>, target: bool, i: nat)
    requires i < |paths| && Distinct(paths)
    ensures Bit(TransitionPaths(w, paths, target, i).world.bits, paths[i]) == Bit(w.bits, paths[i])
  {
    LoopHasFacts(w, paths, target, i);
    assert paths[i] !in paths[..i];
  }

  lemma OwnResult(s: LoopState, p: FilePath, target: bool)
    ensures var s' := TransitionPath(s, p, target);
      p in s'.perFile && s'.perFile[p] != Error ==> (s'.perFile[p] == Already <==> Bit(s.world.bits, p) == target)
  {
    hide ErrorMessage;
  }

  /** The same of a whole call, with the error message as it reads. */
  lemma ReportSpelled(w: World, paths: seq<FilePath>, target: bool, i: nat)
    requires TransitionOf(w, paths, target).1.Got? && Distinct(paths) && i < |paths|
    ensures var (w1, r) := (StatusOf(w, paths).0, TransitionOf(w, paths, target).1.value);
      var fault := FaultAt(w1, paths, target, i);
      && paths[i] in r.perFile
      && r.perFile[paths[i]]
         == (if fault.Some? then Error else if Bit(w.bits, paths[i]) == target then Already else Ok)
      && (fault.Some? && (forall j :: 0 <= j < i ==> FaultAt(w1, paths, target, j).None?) ==>
            r.errorMessage == Some(paths[i] + ": " + fault.value.excType + ": " + fault.value.excText))
      && r.targetPaths == paths
  {
    hide StatusOf, FaultAt;
    var w1 := StatusOf(w, paths).0;
    StatusFacts(w, paths);
    ResultsSpelled(w1, paths, target, |paths|, i);
    ErrorIsFirst(w1, paths, target, |paths|);
    var k := FirstFault(w1, paths, target, |paths|);
    if FaultAt(w1, paths, target, i).Some? && forall j :: 0 <= j < i ==> FaultAt(w1, paths, target, j).None? {
      assert k.Some? && k.value == i;
    }
  }

  /** A chattr call is recorded and uses up its fate; it sets the bit unless it raises without effect. */
  lemma ChattrSpelled(w: World, p: FilePath, target: bool)
    ensures var w' := Chattr(w, p, target);
      && w'.calls == w.calls + [if target then SetImmutable(p) else ClearImmutable(p)]
      && w'.script == (if w.script == [] then [] else w.script[1..])
      && (Bit(w'.bits, p) == target <==>
            Bit(w.bits, p) == target || w.script == [] || w.script[0].None? || w.script[0].value.tookEffect)
      && forall q :: q != p ==> Bit(w'.bits, q) == Bit(w.bits, q)
  {
  }

  lemma QuietStatus(w: World, p: FilePath)
    requires w.script == []
    ensures StatusOf(w, [p]) == (w, Got(if Bit(w.bits, p) then Locked else Unlocked))
  {
    assert CountImmutable(w, [p], 1) == (w, Got(if Bit(w.bits, p) then 1 else 0));
  }

  /**
   * On one path, without faults: lock() sets a clear bit by one chattr +i, unlock() clears a set one by one chattr -i.
   */
  lemma CallsSpelled(w: World, p: FilePath, target: bool)
    requires w.script == [] && Bit(w.bits, p) != target
    ensures var (w', r) := TransitionOf(w, [p], target);
      && w'.calls == w.calls + [if target then SetImmutable(p) else ClearImmutable(p)]
      && Bit(w'.bits, p) == target && r.Got? && r.value.newState == if target then Locked else Unlocked
  {
    hide StatusOf;
    var s := LoopState(w, map[], None);
    QuietStatus(w, p);
    assert TransitionPaths(w, [p], target, 1) == TransitionPath(s, p, target);
    QuietStatus(TransitionPath(s, p, target).world, p);
  }

  // ----- recovery by retrying -----

  /** The world after n calls. */
  function Retry(w: World, paths: seq<FilePath>, target: bool, n: nat): World {
    if n == 0 then w else TransitionOf(Retry(w, paths, target, n - 1), paths, target).0
  }

  /** Protected paths whose bit is not yet the target. */
  function Pending(bits: map<FilePath, bool>, paths: seq<FilePath>, target: bool, n: nat): nat
    requires n <= |paths|
  {
    if n == 0 then 0 else Pending(bits, paths, target, n - 1) + (if Bit(bits, paths[n - 1]) == target then 0 else 1)
  }

  lemma {:induction false} PendingCounts(bits: map<FilePath, bool>, paths: seq<FilePath>, target: bool, n: nat)
    requires n <= |paths|
    ensures Pending(bits, paths, target, n) == |set i | 0 <= i < n && Bit(bits, paths[i]) != target|
  {
    hide Bit;
    var s := set i | 0 <= i < n && Bit(bits, paths[i]) != target;
    if n > 0 {
      PendingCounts(bits, paths, target, n - 1);
      var r := set i | 0 <= i < n - 1 && Bit(bits, paths[i]) != target;
      assert s == if Bit(bits, paths[n - 1]) == target then r else r + {n - 1};
    } else {
      assert s == {};
    }
  }

  lemma {:induction false} PendingFalls(w: World, w': World, paths: seq<FilePath>, target: bool, n: nat)
    requires n <= |paths| && MovesTowards(w, w', paths, target)
    ensures Pending(w'.bits, paths, target, n) <= Pending(w.bits, paths, target, n)
  {
    if n > 0 {
      PendingFalls(w, w', paths, target, n - 1);
    }
  }

  /** The number of paths not at the target never rises from call to call. */
  lemma RetryNeverLosesGround(w: World, paths: seq<FilePath>, target: bool, n: nat)
    ensures Pending(Retry(w, paths, target, n + 1).bits, paths, target, |paths|)
         <= Pending(Retry(w, paths, target, n).bits, paths, target, |paths|)
  {
    hide TransitionOf, MovesTowards, Pending, FaultsLeft, ClassifyState;
    var v := Retry(w, paths, target, n);
    TransitionUnderFaults(v, paths, target);
    PendingFalls(v, TransitionOf(v, paths, target).0, paths, target, |paths|);
  }

  lemma {:induction false} RetryProgress(w: World, paths: seq<FilePath>, target: bool, n: nat)
    requires paths != []
    ensures var w' := Retry(w, paths, target, n);
      || (forall p :: p in paths ==> Bit(w'.bits, p) == target)
      || FaultsLeft(w'.script) + n <= FaultsLeft(w.script)
  {
    hide TransitionOf, FaultsLeft, ClassifyState, NeededCalls;
    if n > 0 {
      var v := Retry(w, paths, target, n - 1);
      RetryProgress(w, paths, target, n - 1);
      TransitionUnderFaults(v, paths, target);
      if FaultsLeft(TransitionOf(v, paths, target).0.script) == FaultsLeft(v.script) {
        FaultFreeTransition(v, paths, target);
      }
    }
  }

  /** Recovery: an executor that raises at most f times in all is overcome by f + 1 calls, whatever its faults did. */
  lemma RetryConverges(w: World, paths: seq<FilePath>, target: bool, f: nat)
    requires paths != [] && FaultsLeft(w.script) <= f
    ensures forall p :: p in paths ==> Bit(Retry(w, paths, target, f + 1).bits, p) == target
  {
    hide Retry, FaultsLeft;
    RetryProgress(w, paths, target, f + 1);
  }
}
