/** The readonly-mount metric file: each emit parses the previous file, updates it and renders it again. */
module ReadonlyMetric {
  import opened Basics
  import opened Encoding
  import opened MetricText
  import opened ReadonlyMount

  const PREFIX := "athena_readonly_mount_"
  const STATE := PREFIX + "state"
  const LAST_TRANSITION := PREFIX + "last_transition_timestamp_seconds"
  const LAST_LOCK := PREFIX + "last_lock_success_timestamp_seconds"
  const LAST_UNLOCK := PREFIX + "last_unlock_success_timestamp_seconds"

  const STATE_HELP := " Current state of /var/lib/athena/policy."
  const TRANSITION_HELP := " Unix ts of last transition."
  const LOCK_HELP := " Unix ts of last lock."
  const UNLOCK_HELP := " Unix ts of last unlock."

  const REPLACE_RETRIES := 10

  function StateName(s: MountState): string {
    match s
    case Locked => "LOCKED"
    case Unlocked => "UNLOCKED"
    case Partial => "PARTIAL"
  }

  /** for member in MountState */
  const MEMBERS: seq<MountState> := [Locked, Unlocked, Partial]

  function StateLine(member: MountState, state: MountState): string {
    STATE + ("{state=\"" + StateName(member) + "\"} " + (if member == state then "1" else "0"))
  }

  datatype Gauges = Gauges(state: MountState, lastTransition: int, lastLock: int, lastUnlock: int)

  function HeadLines(): seq<string> {
    [Help(STATE, STATE_HELP), TypeLine(STATE)]
  }

  function StateLines(state: MountState): seq<string> {
    [StateLine(Locked, state), StateLine(Unlocked, state), StateLine(Partial, state)]
  }

  function TimeLines(g: Gauges): seq<string> {
    [Help(LAST_TRANSITION, TRANSITION_HELP), TypeLine(LAST_TRANSITION), Gauge(LAST_TRANSITION, Str(g.lastTransition)),
     Help(LAST_LOCK, LOCK_HELP), TypeLine(LAST_LOCK), Gauge(LAST_LOCK, Str(g.lastLock)),
     Help(LAST_UNLOCK, UNLOCK_HELP), TypeLine(LAST_UNLOCK), Gauge(LAST_UNLOCK, Str(g.lastUnlock))]
  }

  function BodyLines(g: Gauges): seq<string> { HeadLines() + StateLines(g.state) + TimeLines(g) }

  /** The rendered file. */
  function Body(g: Gauges): string { Unlines(BodyLines(g)) }

  /** _render_body */
  method RenderBody(g: Gauges) returns (body: string)
    ensures body == Body(g)
  {
    hide Unlines, Help, TypeLine, Gauge, StateLine;
    var stateLines := [];
    for i := 0 to |MEMBERS|
      invariant stateLines == StateLines(g.state)[..i]
    {
      stateLines := stateLines + [StateLine(MEMBERS[i], g.state)];
    }
    UnlinesConcat(HeadLines(), stateLines);
    UnlinesConcat(HeadLines() + stateLines, TimeLines(g));
    assert stateLines == StateLines(g.state);
    return Unlines(HeadLines()) + Unlines(stateLines) + Unlines(TimeLines(g));
  }

  // ----- reading -----

  /** A value, or the one error the reader does not catch. */
  datatype Reading = Value(n: int) | Overflow

  /** The first line from i on that carries the metric and a value. */
  function Scan(f: FloatReader, lines: seq<string>, name: string, i: nat): Reading
    requires i <= |lines|
    decreases |lines| - i
  {
    if i == |lines| then Value(0)
    else if StartsWith(lines[i], name + " ") && |SplitWords(lines[i])| >= 2 then
      match ReadNumber(f, SplitWords(lines[i])[1])
      case Exact(n) => Value(n)
      case ValueError => Value(0)
      case OverflowError => Overflow
    else Scan(f, lines, name, i + 1)
  }

  function ReadTimestamp(f: FloatReader, file: Option<string>, name: string): Reading {
    match file
    case None => Value(0)
    case Some(text) => Scan(f, SplitLines(text), name, 0)
  }

  /** _read_prev_timestamp */
  method ReadPrevTimestamp(f: FloatReader, file: Option<string>, name: string) returns (r: Reading)
    ensures r == ReadTimestamp(f, file, name)
    ensures r.Overflow? <==> file.Some? && Infinite(f, file.value, name)
  {
    if file.None? {
      return Value(0);
    }
    ReaderOverflowsExactly(f, file.value, name);
    var lines := SplitLines(file.value);
    for i := 0 to |lines|
      invariant Scan(f, lines, name, 0) == Scan(f, lines, name, i)
    {
      if StartsWith(lines[i], name + " ") {
        var parts := SplitWords(lines[i]);
        if |parts| >= 2 {
          match ReadNumber(f, parts[1])
          case Exact(n) => return Value(n);
          case ValueError => return Value(0);
          case OverflowError => return Overflow;
        }
      }
    }
    return Value(0);
  }

  // ----- when the reader raises -----

  /** j is the first line from i on that carries the metric and a value. */
  ghost predicate FirstValued(lines: seq<string>, name: string, i: nat, j: int) {
    && i <= j < |lines| && Valued(lines[j], name)
    && forall k :: i <= k < j ==> !Valued(lines[k], name)
  }

  predicate Valued(line: string, name: string) { StartsWith(line, name + " ") && |SplitWords(line)| >= 2 }

  ghost predicate InfiniteAt(f: FloatReader, lines: seq<string>, name: string, j: int)
    requires 0 <= j < |lines|
  {
    Valued(lines[j], name) && ReadNumber(f, SplitWords(lines[j])[1]).OverflowError?
  }

  /** The first value the file has for the metric is an infinity. */
  ghost predicate Infinite(f: FloatReader, text: string, name: string) {
    exists i :: FirstValued(SplitLines(text), name, 0, i) && InfiniteAt(f, SplitLines(text), name, i)
  }

  lemma {:induction false} ScanOverflows(f: FloatReader, lines: seq<string>, name: string, i: nat)
    requires i <= |lines|
    ensures Scan(f, lines, name, i).Overflow? <==>
      exists j :: FirstValued(lines, name, i, j) && InfiniteAt(f, lines, name, j)
    decreases |lines| - i
  {
    hide StartsWith, SplitWords;
    if i < |lines| && !Valued(lines[i], name) {
      ScanOverflows(f, lines, name, i + 1);
      forall j ensures FirstValued(lines, name, i, j) <==> FirstValued(lines, name, i + 1, j) {
      }
    } else if i < |lines| {
      assert FirstValued(lines, name, i, i);
      forall j | FirstValued(lines, name, i, j) ensures j == i {
      }
    }
  }

  /** The reader raises exactly on an infinite first value; a gauge line without a value is passed over. */
  lemma ReaderOverflowsExactly(f: FloatReader, text: string, name: string)
    ensures ReadTimestamp(f, Some(text), name).Overflow? <==> Infinite(f, text, name)
  {
    hide SplitLines, Scan;
    ScanOverflows(f, SplitLines(text), name, 0);
  }

  lemma {:induction false} ScanSkipsUnvalued(f: FloatReader, lines: seq<string>, name: string, i: nat, j: nat)
    requires i <= j <= |lines| && forall k :: i <= k < j ==> !Valued(lines[k], name)
    ensures Scan(f, lines, name, i) == Scan(f, lines, name, j)
    decreases j - i
  {
    hide StartsWith, SplitWords;
    if i < j {
      ScanSkipsUnvalued(f, lines, name, i + 1, j);
    }
  }

  /** Otherwise it returns the number on the first line with a value, and 0 without a file, such a line or a number. */
  lemma ReaderMeans(f: FloatReader, text: string, name: string, i: nat)
    ensures ReadTimestamp(f, None, name) == Value(0)
    ensures (forall k :: 0 <= k < |SplitLines(text)| ==> !Valued(SplitLines(text)[k], name)) ==>
      ReadTimestamp(f, Some(text), name) == Value(0)
    ensures FirstValued(SplitLines(text), name, 0, i) ==>
      var number := ReadNumber(f, SplitWords(SplitLines(text)[i])[1]);
      && (number.Exact? ==> ReadTimestamp(f, Some(text), name) == Value(number.n))
      && (number.ValueError? ==> ReadTimestamp(f, Some(text), name) == Value(0))
  {
    hide StartsWith, SplitWords, SplitLines, ReadNumber;
    var lines := SplitLines(text);
    if forall k :: 0 <= k < |lines| ==> !Valued(lines[k], name) {
      ScanSkipsUnvalued(f, lines, name, 0, |lines|);
    } else if FirstValued(lines, name, 0, i) {
      ScanSkipsUnvalued(f, lines, name, 0, i);
    }
  }

  /** A file whose gauge reads `inf` raises. */
  lemma ReaderRaises(f: FloatReader, name: string)
    requires Dense(name)
    ensures Infinite(f, Unlines([Gauge(name, "inf")]), name)
  {
    hide StartsWith, SplitWords, SplitLines, Unlines, Dense, OneLine;
    assert Dense("inf") by {
      InfIsDense();
    }
    var line := Gauge(name, "inf");
    assert (name + " ") + "inf" == line;
    IsPrefix(name + " ", "inf");
    ValueLine(name, "inf");
    DenseIsOneWord(name);
    DenseIsOneWord("inf");
    SplitNameValue(name, "inf");
    InfIsInfinite(f);
    SplitUnlines([line]);
    assert FirstValued([line], name, 0, 0) && InfiniteAt(f, [line], name, 0);
  }

  // ----- what is printed is read back -----

  lemma NamePartsAreDense()
    ensures Dense(PREFIX) && Dense("state")
    ensures Dense("last_transition_timestamp_seconds")
  {
  }

  lemma SuccessPartsAreDense()
    ensures Dense("last_lock_success_timestamp_seconds")
    ensures Dense("last_unlock_success_timestamp_seconds")
  {
  }

  lemma NamesAreDense()
    ensures Dense(LAST_TRANSITION) && Dense(LAST_LOCK) && Dense(LAST_UNLOCK) && Dense(STATE)
  {
    hide Dense;
    NamePartsAreDense();
    SuccessPartsAreDense();
    DenseConcat(PREFIX, "state");
    DenseConcat(PREFIX, "last_transition_timestamp_seconds");
    DenseConcat(PREFIX, "last_lock_success_timestamp_seconds");
    DenseConcat(PREFIX, "last_unlock_success_timestamp_seconds");
  }

  /** The names part company at these characters. */
  lemma NamesDiffer()
    ensures |STATE| == 27 && STATE[22] == 's'
    ensures |LAST_TRANSITION| > 27 && LAST_TRANSITION[22] == 'l' && LAST_TRANSITION[27] == 't'
    ensures |LAST_LOCK| > 27 && LAST_LOCK[22] == 'l' && LAST_LOCK[27] == 'l'
    ensures |LAST_UNLOCK| > 27 && LAST_UNLOCK[22] == 'l' && LAST_UNLOCK[27] == 'u'
    ensures STATE[0] == 'a' && LAST_TRANSITION[0] == 'a' && LAST_LOCK[0] == 'a' && LAST_UNLOCK[0] == 'a'
  {
    assert PREFIX[0] == 'a' && |PREFIX| == 22;
    assert LAST_TRANSITION[27] == "last_transition_timestamp_seconds"[5];
    assert LAST_LOCK[27] == "last_lock_success_timestamp_seconds"[5];
    assert LAST_UNLOCK[27] == "last_unlock_success_timestamp_seconds"[5];
  }

  lemma TextsArePlain()
    ensures Plain(STATE_HELP) && Plain(TRANSITION_HELP)
    ensures Plain(LOCK_HELP) && Plain(UNLOCK_HELP)
  {
    StateTextIsPlain();
  }

  lemma StateTextIsPlain()
    ensures Plain(STATE_HELP)
  {
  }

  lemma StateLineIsPlain(member: MountState, state: MountState)
    ensures Plain(StateLine(member, state)) && |StateLine(member, state)| > 22 && StateLine(member, state)[22] == 's'
  {
    var value := if member == state then "1" else "0";
    assert Plain("{state=\"") && Plain(StateName(member)) && Plain("\"} ") && Plain(value);
    PlainConcat("{state=\"", StateName(member));
    PlainConcat("{state=\"" + StateName(member), "\"} ");
    PlainConcat("{state=\"" + StateName(member) + "\"} ", value);
    NamesAreDense();
    NamesDiffer();
    PlainConcat(STATE, "{state=\"" + StateName(member) + "\"} " + value);
  }

  predicate IsStateLine(line: string) { Plain(line) && |line| > 22 && line[22] == 's' }

  /** The shape of the 14 lines, as far as a reader can tell them apart. */
  ghost predicate Shape(lines: seq<string>, g: Gauges) {
    && |lines| == 14
    && IsComment(lines[0]) && IsComment(lines[1])
    && IsStateLine(lines[2]) && IsStateLine(lines[3]) && IsStateLine(lines[4])
    && IsComment(lines[5]) && IsComment(lines[6]) && lines[7] == Gauge(LAST_TRANSITION, Str(g.lastTransition))
    && IsComment(lines[8]) && IsComment(lines[9]) && lines[10] == Gauge(LAST_LOCK, Str(g.lastLock))
    && IsComment(lines[11]) && IsComment(lines[12]) && lines[13] == Gauge(LAST_UNLOCK, Str(g.lastUnlock))
  }

  lemma StateLineIs(member: MountState, state: MountState)
    ensures IsStateLine(StateLine(member, state))
  {
    StateLineIsPlain(member, state);
  }

  lemma BodyShape(g: Gauges)
    ensures Shape(BodyLines(g), g)
  {
    hide Plain, Dense, Help, TypeLine, StateLine, Gauge, Str, IsComment, IsStateLine;
    hide STATE, LAST_TRANSITION, LAST_LOCK, LAST_UNLOCK, STATE_HELP, TRANSITION_HELP, LOCK_HELP, UNLOCK_HELP;
    NamesAreDense();
    TextsArePlain();
    CommentsAre(STATE, STATE_HELP);
    CommentsAre(LAST_TRANSITION, TRANSITION_HELP);
    CommentsAre(LAST_LOCK, LOCK_HELP);
    CommentsAre(LAST_UNLOCK, UNLOCK_HELP);
    StateLineIs(Locked, g.state);
    StateLineIs(Unlocked, g.state);
    StateLineIs(Partial, g.state);
  }

  lemma ShapeIsOneLine(lines: seq<string>, g: Gauges)
    requires Shape(lines, g)
    ensures forall i :: 0 <= i < |lines| ==> OneLine(lines[i])
  {
    hide Plain, Dense, OneLine, Gauge, Str, SplitWords, StartsWith, LAST_TRANSITION, LAST_LOCK, LAST_UNLOCK;
    NamesAreDense();
    GaugeLine(LAST_TRANSITION, g.lastTransition);
    GaugeLine(LAST_LOCK, g.lastLock);
    GaugeLine(LAST_UNLOCK, g.lastUnlock);
    forall i | 0 <= i < |lines| ensures OneLine(lines[i]) {
      assert Plain(lines[i]) by {
        assert i == 0 || i == 1 || i == 2 || i == 3 || i == 4 || i == 5 || i == 6 || i == 7 || i == 8
            || i == 9 || i == 10 || i == 11 || i == 12 || i == 13;
      }
      PlainIsOneLine(lines[i]);
    }
  }

  lemma {:induction false} ScanSkips(f: FloatReader, lines: seq<string>, name: string, i: nat, j: nat)
    requires i <= j <= |lines| && forall k :: i <= k < j ==> !StartsWith(lines[k], name + " ")
    ensures Scan(f, lines, name, i) == Scan(f, lines, name, j)
    decreases j - i
  {
    hide StartsWith;
    if i < j {
      ScanSkips(f, lines, name, i + 1, j);
    }
  }

  /** The scan reads the value of the line it stops at. */
  lemma ScanHits(f: FloatReader, lines: seq<string>, name: string, i: nat, n: int)
    requires i < |lines| && Dense(name) && lines[i] == Gauge(name, Str(n)) && IsExact(n)
    ensures Scan(f, lines, name, i) == Value(n)
  {
    hide StartsWith, SplitWords, Dense;
    GaugeLine(name, n);
    ReadsBack(f, n);
  }

  /** Round trip: every gauge of a rendered body is read back, and no other line is mistaken for it. */
  lemma BodyReadsBack(f: FloatReader, g: Gauges)
    requires IsExact(g.lastTransition) && IsExact(g.lastLock) && IsExact(g.lastUnlock)
    ensures ReadTimestamp(f, Some(Body(g)), LAST_TRANSITION) == Value(g.lastTransition)
    ensures ReadTimestamp(f, Some(Body(g)), LAST_LOCK) == Value(g.lastLock)
    ensures ReadTimestamp(f, Some(Body(g)), LAST_UNLOCK) == Value(g.lastUnlock)
  {
    hide BodyLines, Unlines, SplitLines, Scan, StartsWith, Plain, Dense;
    var lines := BodyLines(g);
    BodyShape(g);
    BodySplits(g);
    NamesAreDense();
    LinesBefore(lines, g);
    ScanSkips(f, lines, LAST_TRANSITION, 0, 7);
    ScanHits(f, lines, LAST_TRANSITION, 7, g.lastTransition);
    ScanSkips(f, lines, LAST_LOCK, 0, 10);
    ScanHits(f, lines, LAST_LOCK, 10, g.lastLock);
    ScanSkips(f, lines, LAST_UNLOCK, 0, 13);
    ScanHits(f, lines, LAST_UNLOCK, 13, g.lastUnlock);
  }

  lemma BodySplits(g: Gauges)
    ensures SplitLines(Body(g)) == BodyLines(g)
  {
    hide BodyLines, OneLine, SplitLines, Unlines, Shape;
    BodyShape(g);
    ShapeIsOneLine(BodyLines(g), g);
    SplitUnlines(BodyLines(g));
  }

  lemma LinesBefore(lines: seq<string>, g: Gauges)
    requires Shape(lines, g)
    ensures forall k :: 0 <= k < 7 ==> !StartsWith(lines[k], LAST_TRANSITION + " ")
    ensures forall k :: 0 <= k < 10 ==> !StartsWith(lines[k], LAST_LOCK + " ")
    ensures forall k :: 0 <= k < 13 ==> !StartsWith(lines[k], LAST_UNLOCK + " ")
  {
    forall k | 0 <= k < 7 ensures !StartsWith(lines[k], LAST_TRANSITION + " ") {
      LineIsOther(lines, g, k, LAST_TRANSITION);
    }
    forall k | 0 <= k < 10 ensures !StartsWith(lines[k], LAST_LOCK + " ") {
      LineIsOther(lines, g, k, LAST_LOCK);
    }
    forall k | 0 <= k < 13 ensures !StartsWith(lines[k], LAST_UNLOCK + " ") {
      LineIsOther(lines, g, k, LAST_UNLOCK);
    }
  }

  lemma LineIsOther(lines: seq<string>, g: Gauges, k: nat, name: string)
    requires Shape(lines, g) && k < 14
    requires (name == LAST_TRANSITION && k < 7) || (name == LAST_LOCK && k < 10) || (name == LAST_UNLOCK && k < 13)
    ensures !StartsWith(lines[k], name + " ")
  {
    hide StartsWith, Plain, Str;
    NamesDiffer();
    if k == 7 || k == 10 {
      NotPrefix(lines[k], name + " ", 27);
    } else if 2 <= k < 5 {
      assert IsStateLine(lines[k]);
      NotPrefix(lines[k], name + " ", 22);
    } else {
      assert IsComment(lines[k]);
      CommentIsNoGauge(lines[k], name);
    }
  }

  function StateGauge(member: MountState): string { STATE + ("{state=\"" + StateName(member) + "\"}") }

  lemma StateGaugeIsDense(member: MountState)
    ensures Dense(StateGauge(member)) && |StateGauge(member)| > 35 && StateGauge(member)[0] == 'a'
    ensures StateGauge(member)[35] == StateName(member)[0]
  {
    NamesAreDense();
    NamesDiffer();
    var name := StateName(member);
    assert Dense("{state=\"") && Dense(name) && Dense("\"}");
    DenseConcat("{state=\"", name);
    DenseConcat("{state=\"" + name, "\"}");
    DenseConcat(STATE, "{state=\"" + name + "\"}");
  }

  lemma StateLineIsGauge(member: MountState, state: MountState)
    ensures StateLine(member, state) == Gauge(StateGauge(member), if member == state then "1" else "0")
  {
    hide STATE, StateName;
    var (head, name) := ("{state=\"", StateName(member));
    var value := if member == state then "1" else "0";
    assert "\"} " == "\"}" + " ";
    assert head + name + ("\"}" + " ") + value == (head + name + "\"}") + (" " + value);
    assert STATE + ((head + name + "\"}") + (" " + value)) == (STATE + (head + name + "\"}")) + (" " + value);
  }

  lemma StateGaugeShape(member: MountState, state: MountState)
    ensures Dense(StateGauge(member)) && |StateGauge(member)| > 35 && StateGauge(member)[0] == 'a'
    ensures StateGauge(member)[35] == StateName(member)[0]
    ensures StateLine(member, state) == Gauge(StateGauge(member), if member == state then "1" else "0")
    ensures |StateLine(member, state)| > 35 && StateLine(member, state)[35] == StateName(member)[0]
  {
    hide StateGauge, StateName, Dense, StateLine;
    StateGaugeIsDense(member);
    StateLineIsGauge(member, state);
  }

  /** A scraper finds the value 1 for the rendered state and 0 for the two others. */
  lemma ScraperReadsState(g: Gauges, member: MountState)
    ensures GaugeText(SplitLines(Body(g)), StateGauge(member), 0) == Some(if member == g.state then "1" else "0")
  {
    hide BodyLines, Unlines, SplitLines, StartsWith, Plain, Dense, SplitWords, StateLine, StateGauge;
    var lines := BodyLines(g);
    BodySplits(g);
    BodyShape(g);
    BodyStateLines(g);
    StateGaugeShape(Locked, g.state);
    StateGaugeShape(Unlocked, g.state);
    StateGaugeShape(Partial, g.state);
    var i := if member.Locked? then 2 else if member.Unlocked? then 3 else 4;
    forall k | 0 <= k < i ensures !StartsWith(lines[k], StateGauge(member) + " ") {
      NotPrefix(lines[k], StateGauge(member) + " ", if k < 2 then 0 else 35);
    }
    assert Dense("1") && Dense("0") by {
      BitsAreDense();
    }
    GaugeTextFound(lines, StateGauge(member), if member == g.state then "1" else "0", 0, i);
  }

  lemma BitsAreDense()
    ensures Dense("1") && Dense("0")
  {
  }

  lemma BodyStateLines(g: Gauges)
    ensures var lines := BodyLines(g);
      && |lines| == 14 && lines[2] == StateLine(Locked, g.state)
      && lines[3] == StateLine(Unlocked, g.state) && lines[4] == StateLine(Partial, g.state)
  {
    hide StateLine, Help, TypeLine, Gauge;
  }

  // ----- one emit -----

  /** last_transition_ts: absent, without a time zone, or in whole seconds since the epoch. */
  datatype TransitionTime = NoTransition | NaiveTime | At(seconds: int)

  datatype Emit = Emit(state: MountState, time: TransitionTime, action: Option<string>, pid: nat, fate: EmitFate)

  datatype EmitOutcome = Written | NaiveError | OverflowInReader | PermissionError | Died

  function UnixSeconds(t: TransitionTime): int { if t.At? then t.seconds else 0 }

  /** `a or b` on integers. */
  function OrElse(a: int, b: int): int { if a != 0 then a else b }

  /** The gauges an emit renders from the values it read. */
  function NextGauges(e: Emit, prevLock: int, prevUnlock: int): Gauges {
    var t := UnixSeconds(e.time);
    Gauges(e.state, t,
           if e.action == Some("lock") then OrElse(t, prevLock) else prevLock,
           if e.action == Some("unlock") then OrElse(t, prevUnlock) else prevUnlock)
  }

  function EmitOutcomeOf(f: FloatReader, file: Option<string>, e: Emit): EmitOutcome {
    if e.time.NaiveTime? then NaiveError
    else if ReadTimestamp(f, file, LAST_LOCK).Overflow? || ReadTimestamp(f, file, LAST_UNLOCK).Overflow?
    then OverflowInReader
    else match e.fate
      case Killed => Died
      case Denied(n) => if n < REPLACE_RETRIES then Written else PermissionError
  }

  /** The output file after an emit. */
  function ApplyEmit(f: FloatReader, file: Option<string>, e: Emit): Option<string> {
    if EmitOutcomeOf(f, file, e).Written? then
      Some(Body(NextGauges(e, ReadTimestamp(f, file, LAST_LOCK).n, ReadTimestamp(f, file, LAST_UNLOCK).n)))
    else file
  }

  class MetricDir {
    var output: Option<string>
    var tmp: map<nat, string>

    constructor ()
      ensures output == None && tmp == map[]
    {
      output, tmp := None, map[];
    }

    /** emit_readonly_mount_metric */
    method EmitMetric(f: FloatReader, e: Emit) returns (o: EmitOutcome)
      modifies this
      ensures output == ApplyEmit(f, old(output), e) && o == EmitOutcomeOf(f, old(output), e)
      ensures o.Written? ==> e.pid !in tmp
      ensures o.Died? || o.PermissionError? ==> e.pid in tmp
      ensures o.NaiveError? || o.OverflowInReader? ==> tmp == old(tmp)
      ensures tmp - {e.pid} == old(tmp) - {e.pid}
    {
      hide Scan, Body;
      if e.time.NaiveTime? {
        return NaiveError;
      }
      var transitionUnix := UnixSeconds(e.time);
      var prevLock := ReadPrevTimestamp(f, output, LAST_LOCK);
      var prevUnlock := ReadPrevTimestamp(f, output, LAST_UNLOCK);
      if prevLock.Overflow? || prevUnlock.Overflow? {
        return OverflowInReader;
      }
      var lastLock, lastUnlock := prevLock.n, prevUnlock.n;
      if e.action == Some("lock") {
        lastLock := OrElse(transitionUnix, prevLock.n);
      } else if e.action == Some("unlock") {
        lastUnlock := OrElse(transitionUnix, prevUnlock.n);
      }
      var body := RenderBody(Gauges(e.state, transitionUnix, lastLock, lastUnlock));
      tmp := tmp[e.pid := body];
      if e.fate.Killed? {
        return Died;
      }
      for attempt := 0 to REPLACE_RETRIES
        invariant output == old(output) && e.pid in tmp && tmp[e.pid] == body && attempt <= e.fate.times
        invariant tmp == old(tmp)[e.pid := body]
      {
        if attempt == e.fate.times {
          output, tmp := Some(tmp[e.pid]), tmp - {e.pid};
          return Written;
        }
      }
      return PermissionError;
    }
  }

  // ----- runs -----

  /** The output after the first n emits, from the given file on. */
  function RunEmits(f: FloatReader, file: Option<string>, events: seq<Emit>, n: nat): Option<string>
    requires n <= |events|
  {
    if n == 0 then file else ApplyEmit(f, RunEmits(f, file, events, n - 1), events[n - 1])
  }

  /** The file has an infinite lock or unlock time. */
  ghost predicate Unreadable(f: FloatReader, text: string) {
    Infinite(f, text, LAST_LOCK) || Infinite(f, text, LAST_UNLOCK)
  }

  /** An emit with a usable time raises in the reader exactly on such a file, which then stays as it is for ever. */
  lemma {:induction false} UnreadableFileStays(f: FloatReader, text: string, events: seq<Emit>, n: nat)
    requires n <= |events| && Unreadable(f, text)
    ensures RunEmits(f, Some(text), events, n) == Some(text)
    ensures n < |events| ==>
      EmitOutcomeOf(f, Some(text), events[n]) == if events[n].time.NaiveTime? then NaiveError else OverflowInReader
  {
    hide Infinite, ReadTimestamp, Body, LAST_LOCK, LAST_UNLOCK;
    EmitOverflowsExactly(f, text);
    if n > 0 {
      UnreadableFileStays(f, text, events, n - 1);
    }
  }

  lemma EmitOverflowsExactly(f: FloatReader, text: string)
    ensures Unreadable(f, text) <==>
      ReadTimestamp(f, Some(text), LAST_LOCK).Overflow? || ReadTimestamp(f, Some(text), LAST_UNLOCK).Overflow?
  {
    hide Infinite, ReadTimestamp, LAST_LOCK, LAST_UNLOCK;
    ReaderOverflowsExactly(f, text, LAST_LOCK);
    ReaderOverflowsExactly(f, text, LAST_UNLOCK);
  }

  /** The emit reached the output file: its time was usable, it was not killed, and a rename got through. */
  predicate Lands(e: Emit) { !e.time.NaiveTime? && e.fate.Denied? && e.fate.times < REPLACE_RETRIES }

  /** The latest non-zero time of a landed emit for that action, else 0. */
  function LatestSuccess(events: seq<Emit>, action: string, n: nat): int
    requires n <= |events|
  {
    if n == 0 then 0
    else
      var e := events[n - 1];
      if Lands(e) && e.action == Some(action) && UnixSeconds(e.time) != 0 then UnixSeconds(e.time)
      else LatestSuccess(events, action, n - 1)
  }

  /** The time of the last landed emit, 0 if it had none or nothing landed. */
  function LatestTransition(events: seq<Emit>, n: nat): int
    requires n <= |events|
  {
    if n == 0 then 0
    else if Lands(events[n - 1]) then UnixSeconds(events[n - 1].time)
    else LatestTransition(events, n - 1)
  }

  lemma {:induction false} LatestSuccessExact(events: seq<Emit>, action: string, n: nat)
    requires n <= |events| && forall i :: 0 <= i < |events| ==> IsExact(UnixSeconds(events[i].time))
    ensures IsExact(LatestSuccess(events, action, n))
  {
    if n > 0 {
      LatestSuccessExact(events, action, n - 1);
    }
  }

  /**
   * History survives: over any run, what the file says of each action is the latest landed success, and no emit fails
   * to read it.
   */
  lemma {:induction false} HistoryIsRefined(f: FloatReader, events: seq<Emit>, n: nat)
    requires n <= |events| && forall i :: 0 <= i < |events| ==> IsExact(UnixSeconds(events[i].time))
    ensures var file := RunEmits(f, None, events, n);
      && ReadTimestamp(f, file, LAST_LOCK) == Value(LatestSuccess(events, "lock", n))
      && ReadTimestamp(f, file, LAST_UNLOCK) == Value(LatestSuccess(events, "unlock", n))
      && ReadTimestamp(f, file, LAST_TRANSITION) == Value(LatestTransition(events, n))
      && (n < |events| ==>
            var o := EmitOutcomeOf(f, file, events[n]);
            !o.OverflowInReader? && (o.Written? <==> Lands(events[n])))
  {
    hide ReadTimestamp, Body, LAST_LOCK, LAST_UNLOCK, LAST_TRANSITION;
    if n == 0 {
      EmptyFileReads(f);
    } else {
      HistoryIsRefined(f, events, n - 1);
      var e := events[n - 1];
      var (lock, unlock) := (LatestSuccess(events, "lock", n - 1), LatestSuccess(events, "unlock", n - 1));
      LatestSuccessExact(events, "lock", n);
      LatestSuccessExact(events, "unlock", n);
      if Lands(e) {
        assert "lock" != "unlock" by {
          assert "lock"[0] == 'l' && "unlock"[0] == 'u';
        }
        BodyReadsBack(f, NextGauges(e, lock, unlock));
      }
    }
  }

  lemma EmptyFileReads(f: FloatReader)
    ensures forall name :: ReadTimestamp(f, None, name) == Value(0)
  {
  }

  /** The published names and labels, spelled out. */
  lemma NamesSpelled()
    ensures STATE == "athena_readonly_mount_" + "state"
    ensures LAST_TRANSITION == "athena_readonly_mount_" + "last_transition_timestamp_seconds"
    ensures LAST_LOCK == "athena_readonly_mount_" + "last_lock_success_timestamp_seconds"
    ensures LAST_UNLOCK == "athena_readonly_mount_" + "last_unlock_success_timestamp_seconds"
    ensures StateGauge(Locked) == STATE + ("{state=\"" + "LOCKED" + "\"}")
    ensures StateGauge(Unlocked) == STATE + ("{state=\"" + "UNLOCKED" + "\"}")
    ensures StateGauge(Partial) == STATE + ("{state=\"" + "PARTIAL" + "\"}")
  {
  }

  /** The fourteen lines of the file. */
  lemma LinesSpelled(g: Gauges)
    ensures BodyLines(g) ==
      ["# HELP " + STATE + " Current state of /var/lib/athena/policy.", "# TYPE " + STATE + " gauge",
       StateLine(Locked, g.state), StateLine(Unlocked, g.state), StateLine(Partial, g.state),
       "# HELP " + LAST_TRANSITION + " Unix ts of last transition.", "# TYPE " + LAST_TRANSITION + " gauge",
       LAST_TRANSITION + (" " + Str(g.lastTransition)),
       "# HELP " + LAST_LOCK + " Unix ts of last lock.", "# TYPE " + LAST_LOCK + " gauge",
       LAST_LOCK + (" " + Str(g.lastLock)),
       "# HELP " + LAST_UNLOCK + " Unix ts of last unlock.", "# TYPE " + LAST_UNLOCK + " gauge",
       LAST_UNLOCK + (" " + Str(g.lastUnlock))]
  {
    hide Str, StateLine, STATE, LAST_TRANSITION, LAST_LOCK, LAST_UNLOCK;
  }

  /** The time columns of an emit, ten rename attempts, and its tmp file's fate. */
  lemma EmitSpelled(f: FloatReader, text: Option<string>, e: Emit)
    requires ReadTimestamp(f, text, LAST_LOCK).Value? && ReadTimestamp(f, text, LAST_UNLOCK).Value?
    ensures e.time.NaiveTime? ==> EmitOutcomeOf(f, text, e) == NaiveError
    ensures !e.time.NaiveTime? && e.fate.Denied? ==>
      EmitOutcomeOf(f, text, e) == if e.fate.times <= 9 then Written else PermissionError
    ensures UnixSeconds(NoTransition) == 0 && (e.time.At? ==> UnixSeconds(e.time) == e.time.seconds)
  {
    hide ReadTimestamp;
  }

  /** What a landed emit publishes: its state, and each time as it reads back. */
  lemma EmitPublishes(f: FloatReader, file: Option<string>, e: Emit, member: MountState)
    requires EmitOutcomeOf(f, file, e).Written? && IsExact(UnixSeconds(e.time))
    requires IsExact(ReadTimestamp(f, file, LAST_LOCK).n) && IsExact(ReadTimestamp(f, file, LAST_UNLOCK).n)
    ensures var text := ApplyEmit(f, file, e); var t := if e.time.At? then e.time.seconds else 0;
      && text.Some?
      && GaugeText(SplitLines(text.value), StateGauge(member), 0) == Some(if member == e.state then "1" else "0")
      && ReadTimestamp(f, text, LAST_TRANSITION) == Value(t)
      && ReadTimestamp(f, text, LAST_LOCK)
         == (if e.action == Some("lock") && t != 0 then Value(t) else ReadTimestamp(f, file, LAST_LOCK))
      && ReadTimestamp(f, text, LAST_UNLOCK)
         == (if e.action == Some("unlock") && t != 0 then Value(t) else ReadTimestamp(f, file, LAST_UNLOCK))
  {
    hide ReadTimestamp, Body, SplitLines, GaugeText, StateGauge, LAST_LOCK, LAST_UNLOCK, LAST_TRANSITION;
    var g := NextGauges(e, ReadTimestamp(f, file, LAST_LOCK).n, ReadTimestamp(f, file, LAST_UNLOCK).n);
    BodyReadsBack(f, g);
    ScraperReadsState(g, member);
  }
}
