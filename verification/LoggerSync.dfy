/** The logger-sync metric emitter: last success survives failed runs, stale tmp files are swept. */
module LoggerSync {
  import opened Basics
  import opened Encoding
  import opened MetricText

  const LAST_SUCCESS := "athena_logger_sync_last_success_seconds"
  const LAST_EXIT_CODE := "athena_logger_sync_last_exit_code"
  const DURATION := "athena_logger_sync_duration_seconds"

  const SUCCESS_HELP := " Unix timestamp of last successful rsync."
  const EXIT_CODE_HELP := " Last rsync exit code."
  const DURATION_HELP := " Last rsync duration."

  const REPLACE_ATTEMPTS := 10
  const STALE_TMP_AGE := 300_000_000

  predicate IsSuccess(exitCode: int) { exitCode == 0 || exitCode == 23 || exitCode == 24 || exitCode == 30 }

  /** A float: its printed text, or nan and the infinities. */
  datatype Duration = Finite(text: string) | NotFinite

  function SanitisedText(d: Duration): string {
    match d
    case Finite(t) => t
    case NotFinite => "0.0"
  }

  /** The lines up to the last-success gauge, which the next emit reads. */
  function SuccessLines(lastSuccess: int): seq<string> {
    [Help(LAST_SUCCESS, SUCCESS_HELP), TypeLine(LAST_SUCCESS), Gauge(LAST_SUCCESS, Str(lastSuccess))]
  }

  function OtherLines(exitCode: int, d: Duration): seq<string> {
    [Help(LAST_EXIT_CODE, EXIT_CODE_HELP), TypeLine(LAST_EXIT_CODE), Gauge(LAST_EXIT_CODE, Str(exitCode)),
     Help(DURATION, DURATION_HELP), TypeLine(DURATION), Gauge(DURATION, SanitisedText(d))]
  }

  /** _render_body */
  function Body(lastSuccess: int, exitCode: int, d: Duration): string {
    Unlines(SuccessLines(lastSuccess)) + Unlines(OtherLines(exitCode, d))
  }

  // ----- reading the previous value -----

  /** A value, or an error the reader lets through. */
  datatype PrevReading = Prev(n: int) | IndexError | Overflow

  function ReadLine(f: FloatReader, line: string): PrevReading {
    var parts := SplitWords(line);
    if |parts| < 2 then IndexError
    else match ReadNumber(f, parts[1])
      case Exact(n) => Prev(n)
      case ValueError => Prev(0)
      case OverflowError => Overflow
  }

  /** The first line from i on that starts with the metric's name and a blank. */
  function Scan(f: FloatReader, lines: seq<string>, i: nat): PrevReading
    requires i <= |lines|
    decreases |lines| - i
  {
    if i == |lines| then Prev(0)
    else if StartsWith(lines[i], LAST_SUCCESS + " ") then ReadLine(f, lines[i])
    else Scan(f, lines, i + 1)
  }

  function ReadLastSuccess(f: FloatReader, file: Option<string>): PrevReading {
    match file
    case None => Prev(0)
    case Some(text) => Scan(f, SplitLines(text), 0)
  }

  /** _read_prev_last_success */
  method ReadPrevLastSuccess(f: FloatReader, file: Option<string>) returns (r: PrevReading)
    ensures r == ReadLastSuccess(f, file)
    ensures r.IndexError? <==> file.Some? && Valueless(file.value)
    ensures r.Overflow? <==> file.Some? && Infinite(f, file.value)
  {
    if file.None? {
      return Prev(0);
    }
    ReaderErrorsExactly(f, file.value);
    var lines := SplitLines(file.value);
    for i := 0 to |lines|
      invariant Scan(f, lines, 0) == Scan(f, lines, i)
    {
      if StartsWith(lines[i], LAST_SUCCESS + " ") {
        return ReadLine(f, lines[i]);
      }
    }
    return Prev(0);
  }

  // ----- when the reader raises -----

  /** The first line that carries the metric has only white space after its name. */
  ghost predicate Valueless(text: string) {
    exists i :: FirstGauge(SplitLines(text), LAST_SUCCESS, 0, i) && BlankAfter(SplitLines(text)[i], LAST_SUCCESS)
  }

  /** The value on line i is an infinity. */
  ghost predicate InfiniteAt(f: FloatReader, lines: seq<string>, i: int)
    requires 0 <= i < |lines|
  {
    |SplitWords(lines[i])| >= 2 && ReadNumber(f, SplitWords(lines[i])[1]).OverflowError?
  }

  /** The first line that carries the metric has an infinite value. */
  ghost predicate Infinite(f: FloatReader, text: string) {
    exists i :: FirstGauge(SplitLines(text), LAST_SUCCESS, 0, i) && InfiniteAt(f, SplitLines(text), i)
  }

  lemma {:induction false} ScanErrors(f: FloatReader, lines: seq<string>, i: nat)
    requires i <= |lines|
    ensures Scan(f, lines, i).IndexError? <==>
      exists j :: FirstGauge(lines, LAST_SUCCESS, i, j) && |SplitWords(lines[j])| < 2
    ensures Scan(f, lines, i).Overflow? <==>
      exists j :: FirstGauge(lines, LAST_SUCCESS, i, j) && InfiniteAt(f, lines, j)
    decreases |lines| - i
  {
    hide StartsWith, SplitWords, LAST_SUCCESS;
    if i < |lines| && !StartsWith(lines[i], LAST_SUCCESS + " ") {
      ScanErrors(f, lines, i + 1);
      forall j ensures FirstGauge(lines, LAST_SUCCESS, i, j) <==> FirstGauge(lines, LAST_SUCCESS, i + 1, j) {
      }
    } else if i < |lines| {
      assert FirstGauge(lines, LAST_SUCCESS, i, i);
      forall j | FirstGauge(lines, LAST_SUCCESS, i, j) ensures j == i {
      }
    }
  }

  /** The reader raises IndexError exactly on a valueless gauge line, and OverflowError exactly on an infinite one. */
  lemma ReaderErrorsExactly(f: FloatReader, text: string)
    ensures ReadLastSuccess(f, Some(text)).IndexError? <==> Valueless(text)
    ensures ReadLastSuccess(f, Some(text)).Overflow? <==> Infinite(f, text)
  {
    hide StartsWith, SplitWords, SplitLines, BlankAfter, Scan, LAST_SUCCESS;
    var lines := SplitLines(text);
    ScanErrors(f, lines, 0);
    NameIsDense();
    forall i | FirstGauge(lines, LAST_SUCCESS, 0, i)
      ensures |SplitWords(lines[i])| < 2 <==> BlankAfter(lines[i], LAST_SUCCESS)
    {
      NoValueIffBlank(lines[i], LAST_SUCCESS);
    }
  }

  lemma {:induction false} ScanSkips(f: FloatReader, lines: seq<string>, i: nat, j: nat)
    requires i <= j <= |lines| && forall k :: i <= k < j ==> !StartsWith(lines[k], LAST_SUCCESS + " ")
    ensures Scan(f, lines, i) == Scan(f, lines, j)
    decreases j - i
  {
    hide StartsWith, LAST_SUCCESS;
    if i < j {
      ScanSkips(f, lines, i + 1, j);
    }
  }

  /**
   * Otherwise it returns the number on the first gauge line, and 0 when there is no file, no such line or no number.
   */
  lemma ReaderMeans(f: FloatReader, text: string, i: nat)
    ensures ReadLastSuccess(f, None) == Prev(0)
    ensures (forall k :: 0 <= k < |SplitLines(text)| ==> !StartsWith(SplitLines(text)[k], LAST_SUCCESS + " ")) ==>
      ReadLastSuccess(f, Some(text)) == Prev(0)
    ensures FirstGauge(SplitLines(text), LAST_SUCCESS, 0, i) && |SplitWords(SplitLines(text)[i])| >= 2 ==>
      var number := ReadNumber(f, SplitWords(SplitLines(text)[i])[1]);
      && (number.Exact? ==> ReadLastSuccess(f, Some(text)) == Prev(number.n))
      && (number.ValueError? ==> ReadLastSuccess(f, Some(text)) == Prev(0))
  {
    hide StartsWith, SplitWords, SplitLines, ReadNumber, LAST_SUCCESS;
    var lines := SplitLines(text);
    if forall k :: 0 <= k < |lines| ==> !StartsWith(lines[k], LAST_SUCCESS + " ") {
      ScanSkips(f, lines, 0, |lines|);
    } else if FirstGauge(lines, LAST_SUCCESS, 0, i) {
      ScanSkips(f, lines, 0, i);
    }
  }

  /** A file cut off after the gauge's name raises IndexError, and one with an infinite value OverflowError. */
  lemma ReaderRaises(f: FloatReader)
    ensures ReadLastSuccess(f, Some(Unlines([LAST_SUCCESS + " "]))) == IndexError
    ensures ReadLastSuccess(f, Some(Unlines([Gauge(LAST_SUCCESS, "inf")]))) == Overflow
  {
    hide StartsWith, SplitWords, SplitLines, Unlines, LAST_SUCCESS, Dense, OneLine;
    NameIsDense();
    assert Dense("inf") by {
      InfIsDense();
    }
    var (bare, inf) := (LAST_SUCCESS + " ", Gauge(LAST_SUCCESS, "inf"));
    assert bare + "" == bare && (LAST_SUCCESS + " ") + "inf" == inf;
    IsPrefix(bare, "");
    IsPrefix(bare, "inf");
    ValueLine(LAST_SUCCESS, "inf");
    BareLine();
    DenseIsOneWord(LAST_SUCCESS);
    DenseIsOneWord("inf");
    SplitNameValue(LAST_SUCCESS, "inf");
    InfIsInfinite(f);
    SplitUnlines([bare]);
    SplitUnlines([inf]);
  }

  lemma BareLine()
    ensures OneLine(LAST_SUCCESS + " ") && |SplitWords(LAST_SUCCESS + " ")| < 2
  {
    hide StartsWith, SplitWords, Dense, OneLine, LAST_SUCCESS, AllSpace;
    NameIsDense();
    DenseIsOneWord(LAST_SUCCESS);
    var bare := LAST_SUCCESS + " ";
    assert Plain(" ");
    PlainConcat(LAST_SUCCESS, " ");
    PlainIsOneLine(bare);
    IsPrefix(bare, "");
    assert bare + "" == bare && bare[|LAST_SUCCESS|..] == " ";
    BlankIsSpace();
    NoValueIffBlank(bare, LAST_SUCCESS);
  }

  lemma BlankIsSpace()
    ensures AllSpace(" ")
  {
  }

  lemma {:induction false} SplitUnlinesThen(lines: seq<string>, rest: string)
    requires forall i :: 0 <= i < |lines| ==> OneLine(lines[i])
    ensures SplitLines(Unlines(lines) + rest) == lines + SplitLines(rest)
  {
    hide SplitLines, OneLine;
    if lines == [] {
      assert Unlines(lines) + rest == rest;
      assert lines + SplitLines(rest) == SplitLines(rest);
    } else {
      var (x, y) := (lines[0], Unlines(lines[1..]));
      assert (x + ("\n" + y)) + rest == x + ("\n" + (y + rest));
      SplitFirst(x, y + rest);
      SplitUnlinesThen(lines[1..], rest);
      assert lines == [x] + lines[1..];
      assert [x] + (lines[1..] + SplitLines(rest)) == lines + SplitLines(rest);
    }
  }

  lemma NameIsDense()
    ensures Dense(LAST_SUCCESS) && LAST_SUCCESS[0] == 'a'
  {
  }

  lemma SuccessTextIsPlain()
    ensures Plain(SUCCESS_HELP)
  {
  }

  lemma SuccessLinesShape(n: int)
    ensures var lines := SuccessLines(n);
      && (forall i :: 0 <= i < 3 ==> OneLine(lines[i]))
      && !StartsWith(lines[0], LAST_SUCCESS + " ") && !StartsWith(lines[1], LAST_SUCCESS + " ")
  {
    hide Plain, Dense, OneLine, StartsWith, SplitWords, Help, TypeLine, Gauge;
    NameIsDense();
    SuccessTextIsPlain();
    CommentShape(LAST_SUCCESS, SUCCESS_HELP);
    StrIsDense(n);
    ValueLine(LAST_SUCCESS, Str(n));
    var lines := SuccessLines(n);
    NotPrefix(lines[0], LAST_SUCCESS + " ", 0);
    NotPrefix(lines[1], LAST_SUCCESS + " ", 0);
  }

  /** Round trip: the last success of a rendered body is read back, whatever the duration text is. */
  lemma BodyReadsBack(f: FloatReader, n: int, exitCode: int, d: Duration)
    requires IsExact(n)
    ensures ReadLastSuccess(f, Some(Body(n, exitCode, d))) == Prev(n)
  {
    hide SplitLines, Unlines, OtherLines, StartsWith, SplitWords, SuccessLines, OneLine;
    var (head, rest) := (SuccessLines(n), Unlines(OtherLines(exitCode, d)));
    SuccessLinesShape(n);
    SuccessLineCount(n);
    SplitUnlinesThen(head, rest);
    var lines := head + SplitLines(rest);
    NameIsDense();
    GaugeLine(LAST_SUCCESS, n);
    ReadsBack(f, n);
    assert lines[0] == head[0] && lines[1] == head[1] && lines[2] == head[2];
    assert Scan(f, lines, 0) == Scan(f, lines, 1) == Scan(f, lines, 2);
  }

  lemma SuccessLineCount(n: int)
    ensures |SuccessLines(n)| == 3 && SuccessLines(n)[2] == Gauge(LAST_SUCCESS, Str(n))
  {
  }

  lemma OtherNamesAreDense()
    ensures Dense(LAST_EXIT_CODE) && Dense(DURATION)
  {
  }

  /** The names part company at these characters. */
  lemma NamesDiffer()
    ensures |LAST_SUCCESS| > 24 && LAST_SUCCESS[0] == 'a' && LAST_SUCCESS[19] == 'l' && LAST_SUCCESS[24] == 's'
    ensures |LAST_EXIT_CODE| > 24 && LAST_EXIT_CODE[0] == 'a' && LAST_EXIT_CODE[19] == 'l' && LAST_EXIT_CODE[24] == 'e'
    ensures |DURATION| > 24 && DURATION[0] == 'a' && DURATION[19] == 'd'
  {
  }

  lemma OtherTextsArePlain()
    ensures Plain(EXIT_CODE_HELP) && Plain(DURATION_HELP)
  {
  }

  /** The nine lines: two comments before each gauge. */
  ghost predicate Shape(lines: seq<string>, n: int, exitCode: int, text: string) {
    && |lines| == 9
    && IsComment(lines[0]) && IsComment(lines[1]) && lines[2] == Gauge(LAST_SUCCESS, Str(n))
    && IsComment(lines[3]) && IsComment(lines[4]) && lines[5] == Gauge(LAST_EXIT_CODE, Str(exitCode))
    && IsComment(lines[6]) && IsComment(lines[7]) && lines[8] == Gauge(DURATION, text)
  }

  lemma BodyShape(n: int, exitCode: int, d: Duration)
    ensures Shape(SuccessLines(n) + OtherLines(exitCode, d), n, exitCode, SanitisedText(d))
  {
    hide Plain, Dense, IsComment, Help, TypeLine, Gauge, Str, SanitisedText;
    hide LAST_SUCCESS, LAST_EXIT_CODE, DURATION, SUCCESS_HELP, EXIT_CODE_HELP, DURATION_HELP;
    NameIsDense();
    OtherNamesAreDense();
    OtherTextsArePlain();
    SuccessTextIsPlain();
    CommentsAre(LAST_SUCCESS, SUCCESS_HELP);
    CommentsAre(LAST_EXIT_CODE, EXIT_CODE_HELP);
    CommentsAre(DURATION, DURATION_HELP);
  }

  lemma ShapeIsOneLine(lines: seq<string>, n: int, exitCode: int, text: string)
    requires Shape(lines, n, exitCode, text) && Dense(text)
    ensures forall i :: 0 <= i < |lines| ==> OneLine(lines[i])
  {
    hide Plain, Dense, OneLine, Gauge, Str, LAST_SUCCESS, LAST_EXIT_CODE, DURATION;
    hide SplitWords, StartsWith;
    NameIsDense();
    OtherNamesAreDense();
    StrIsDense(n);
    StrIsDense(exitCode);
    ValueLine(LAST_SUCCESS, Str(n));
    ValueLine(LAST_EXIT_CODE, Str(exitCode));
    ValueLine(DURATION, text);
    forall i | 0 <= i < |lines| ensures OneLine(lines[i]) {
      assert Plain(lines[i]) by {
        assert i == 0 || i == 1 || i == 2 || i == 3 || i == 4 || i == 5 || i == 6 || i == 7 || i == 8;
      }
      PlainIsOneLine(lines[i]);
    }
  }

  /** A scraper finds each of the three gauges under its own name, when the duration prints as one word. */
  lemma ScraperReadsBody(n: int, exitCode: int, d: Duration)
    requires Dense(SanitisedText(d))
    ensures var lines := SplitLines(Body(n, exitCode, d));
      && GaugeText(lines, LAST_SUCCESS, 0) == Some(Str(n))
      && GaugeText(lines, LAST_EXIT_CODE, 0) == Some(Str(exitCode))
      && GaugeText(lines, DURATION, 0) == Some(SanitisedText(d))
  {
    hide Plain, Dense, OneLine, SplitWords, StartsWith, SplitLines, Unlines, SuccessLines, OtherLines, GaugeText;
    hide IsComment, Gauge, Str;
    hide LAST_SUCCESS, LAST_EXIT_CODE, DURATION;
    BodyShape(n, exitCode, d);
    var (head, rest) := (SuccessLines(n), OtherLines(exitCode, d));
    var lines := head + rest;
    ShapeIsOneLine(lines, n, exitCode, SanitisedText(d));
    UnlinesConcat(head, rest);
    SplitUnlines(lines);
    OtherNamesAreDense();
    NameIsDense();
    StrIsDense(n);
    StrIsDense(exitCode);
    GaugesDiffer(lines, n, exitCode, SanitisedText(d));
    GaugeTextFound(lines, LAST_SUCCESS, Str(n), 0, 2);
    GaugeTextFound(lines, LAST_EXIT_CODE, Str(exitCode), 0, 5);
    GaugeTextFound(lines, DURATION, SanitisedText(d), 0, 8);
  }

  lemma LineDiffers(lines: seq<string>, n: int, exitCode: int, text: string, k: nat, name: string)
    requires Shape(lines, n, exitCode, text)
    requires (name == LAST_SUCCESS && k < 2) || (name == LAST_EXIT_CODE && k < 5) || (name == DURATION && k < 8)
    ensures !StartsWith(lines[k], name + " ")
  {
    hide IsComment, StartsWith, Str;
    NamesDiffer();
    if k == 2 || k == 5 {
      NotPrefix(lines[k], name + " ", if name == DURATION then 19 else 24);
    } else {
      assert IsComment(lines[k]);
      CommentIsNoGauge(lines[k], name);
    }
  }

  lemma GaugesDiffer(lines: seq<string>, n: int, exitCode: int, text: string)
    requires Shape(lines, n, exitCode, text)
    ensures forall k :: 0 <= k < 2 ==> !StartsWith(lines[k], LAST_SUCCESS + " ")
    ensures forall k :: 0 <= k < 5 ==> !StartsWith(lines[k], LAST_EXIT_CODE + " ")
    ensures forall k :: 0 <= k < 8 ==> !StartsWith(lines[k], DURATION + " ")
  {
    hide IsComment, StartsWith, Gauge, LAST_SUCCESS, LAST_EXIT_CODE, DURATION;
    forall k | 0 <= k < 2 ensures !StartsWith(lines[k], LAST_SUCCESS + " ") {
      LineDiffers(lines, n, exitCode, text, k, LAST_SUCCESS);
    }
    forall k | 0 <= k < 5 ensures !StartsWith(lines[k], LAST_EXIT_CODE + " ") {
      LineDiffers(lines, n, exitCode, text, k, LAST_EXIT_CODE);
    }
    forall k | 0 <= k < 8 ensures !StartsWith(lines[k], DURATION + " ") {
      LineDiffers(lines, n, exitCode, text, k, DURATION);
    }
  }

  // ----- one emit -----

  /** One emitter run; clock is in microseconds. */
  datatype Emit = Emit(clock: int, exitCode: int, duration: Duration, pid: nat, fate: EmitFate)

  datatype EmitOutcome = Written | ReaderCrashed | PermissionError | Died

  /** int(time.time()), which truncates toward zero. */
  function NowUnix(e: Emit): int { if e.clock >= 0 then e.clock / 1_000_000 else -(-e.clock / 1_000_000) }

  function NextLastSuccess(e: Emit, prev: int): int { if IsSuccess(e.exitCode) then NowUnix(e) else prev }

  function EmitOutcomeOf(f: FloatReader, file: Option<string>, e: Emit): EmitOutcome {
    if !ReadLastSuccess(f, file).Prev? then ReaderCrashed
    else match e.fate
      case Killed => Died
      case Denied(n) => if n < REPLACE_ATTEMPTS then Written else PermissionError
  }

  function ApplyEmit(f: FloatReader, file: Option<string>, e: Emit): Option<string> {
    if EmitOutcomeOf(f, file, e).Written? then
      Some(Body(NextLastSuccess(e, ReadLastSuccess(f, file).n), e.exitCode, e.duration))
    else file
  }

  datatype TmpFile = TmpFile(text: string, mtime: int)

  /** The tmp files a sweep at this time leaves. */
  function Swept(tmp: map<nat, TmpFile>, now: int): map<nat, TmpFile> {
    map p | p in tmp && now - tmp[p].mtime < STALE_TMP_AGE :: tmp[p]
  }

  class MetricDir {
    var output: Option<string>
    var tmp: map<nat, TmpFile>

    constructor ()
      ensures output == None && tmp == map[]
    {
      output, tmp := None, map[];
    }

    /** _sweep_stale_tmp_files, with no other emitter running. */
    method SweepStaleTmpFiles(now: int)
      modifies this`tmp
      ensures tmp == Swept(old(tmp), now)
    {
      var todo := tmp.Keys;
      while todo != {}
        invariant todo <= old(tmp).Keys
        invariant tmp == map p | p in old(tmp) && (p in todo || now - old(tmp)[p].mtime < STALE_TMP_AGE) :: old(tmp)[p]
        decreases todo
      {
        var stale :| stale in todo;
        todo := todo - {stale};
        if now - tmp[stale].mtime < STALE_TMP_AGE {
          continue;
        }
        tmp := tmp - {stale};
      }
    }

    /** main, with the clock standing still while it runs. */
    method EmitMetric(f: FloatReader, e: Emit) returns (o: EmitOutcome)
      modifies this
      ensures output == ApplyEmit(f, old(output), e) && o == EmitOutcomeOf(f, old(output), e)
      ensures o.Written? ==> tmp == Swept(old(tmp), e.clock) - {e.pid}
      ensures o.Died? || o.PermissionError? ==> e.pid in tmp && tmp - {e.pid} == Swept(old(tmp), e.clock) - {e.pid}
      ensures o.ReaderCrashed? ==> tmp == old(tmp)
      ensures forall p :: p in old(tmp) && p != e.pid && e.clock - old(tmp)[p].mtime < STALE_TMP_AGE ==>
        p in tmp && tmp[p] == old(tmp)[p]
    {
      hide Scan, Body;
      var prev := ReadPrevLastSuccess(f, output);
      if !prev.Prev? {
        return ReaderCrashed;
      }
      var lastSuccess := if IsSuccess(e.exitCode) then NowUnix(e) else prev.n;
      SweepStaleTmpFiles(e.clock);
      var body := Body(lastSuccess, e.exitCode, e.duration);
      tmp := tmp[e.pid := TmpFile(body, e.clock)];
      if e.fate.Killed? {
        return Died;
      }
      for attempt := 0 to REPLACE_ATTEMPTS
        invariant output == old(output) && attempt <= e.fate.times
        invariant tmp == Swept(old(tmp), e.clock)[e.pid := TmpFile(body, e.clock)]
      {
        if attempt == e.fate.times {
          output, tmp := Some(tmp[e.pid].text), tmp - {e.pid};
          return Written;
        }
      }
      return PermissionError;
    }
  }

  // ----- runs -----

  /** The output after the first n emits, from the given file on. */
  function RunEmits(f: FloatReader, file: Option<string>, events: seq<Emit>, n: nat): Option<string>
    requires n <= |events|
  {
    if n == 0 then file else ApplyEmit(f, RunEmits(f, file, events, n - 1), events[n - 1])
  }

  /** A file the reader raises on stays as it is for ever: every later emit raises too, whatever its exit code. */
  lemma {:induction false} UnreadableFileStays(f: FloatReader, file: Option<string>, events: seq<Emit>, n: nat)
    requires n <= |events| && file.Some? && (Valueless(file.value) || Infinite(f, file.value))
    ensures RunEmits(f, file, events, n) == file
    ensures n < |events| ==> EmitOutcomeOf(f, RunEmits(f, file, events, n), events[n]).ReaderCrashed?
  {
    hide Valueless, Infinite, ReadLastSuccess, Body;
    ReaderErrorsExactly(f, file.value);
    if n > 0 {
      UnreadableFileStays(f, file, events, n - 1);
    }
  }

  predicate Lands(e: Emit) { e.fate.Denied? && e.fate.times < REPLACE_ATTEMPTS }

  /** The clock of the most recent landed emit with a success exit code, else 0. */
  function LatestSuccess(events: seq<Emit>, n: nat): int
    requires n <= |events|
  {
    if n == 0 then 0
    else if Lands(events[n - 1]) && IsSuccess(events[n - 1].exitCode) then NowUnix(events[n - 1])
    else LatestSuccess(events, n - 1)
  }

  ghost predicate ClocksExact(events: seq<Emit>) {
    forall i :: 0 <= i < |events| ==> IsExact(NowUnix(events[i]))
  }

  lemma {:induction false} LatestSuccessExact(events: seq<Emit>, n: nat)
    requires n <= |events| && ClocksExact(events)
    ensures IsExact(LatestSuccess(events, n))
  {
    if n > 0 {
      LatestSuccessExact(events, n - 1);
    }
  }

  /**
   * Over any sequential run the file's last success is the clock of the latest landed success, and reading it never
   * fails.
   */
  lemma {:induction false} LastSuccessIsRefined(f: FloatReader, events: seq<Emit>, n: nat)
    requires n <= |events| && ClocksExact(events)
    ensures ReadLastSuccess(f, RunEmits(f, None, events, n)) == Prev(LatestSuccess(events, n))
  {
    hide Body, ClocksExact, NowUnix;
    if n == 0 {
      assert ReadLastSuccess(f, None) == Prev(0);
    } else {
      LastSuccessIsRefined(f, events, n - 1);
      LatestSuccessExact(events, n);
      var e := events[n - 1];
      if Lands(e) {
        BodyReadsBack(f, NextLastSuccess(e, LatestSuccess(events, n - 1)), e.exitCode, e.duration);
      }
    }
  }

  /** The clock starts at or after the epoch and is non-decreasing. */
  ghost predicate ClockNeverBack(events: seq<Emit>) {
    && (forall i :: 0 <= i < |events| ==> events[i].clock >= 0)
    && (forall i, j :: 0 <= i < j < |events| ==> events[i].clock <= events[j].clock)
  }

  lemma {:induction false} LatestSuccessBounded(events: seq<Emit>, n: nat, j: nat)
    requires n <= j < |events| && ClocksExact(events) && ClockNeverBack(events)
    ensures LatestSuccess(events, n) <= NowUnix(events[j])
  {
    if n > 0 {
      LatestSuccessBounded(events, n - 1, j);
      assert events[n - 1].clock <= events[j].clock;
    }
  }

  /** If the clock never goes back, the value read back never does. */
  lemma LastSuccessNeverFalls(f: FloatReader, events: seq<Emit>, n: nat)
    requires n < |events| && ClocksExact(events) && ClockNeverBack(events)
    ensures var before := ReadLastSuccess(f, RunEmits(f, None, events, n));
      var after := ReadLastSuccess(f, RunEmits(f, None, events, n + 1));
      before.Prev? && after.Prev? && before.n <= after.n
  {
    hide RunEmits, ReadLastSuccess, ClocksExact, ClockNeverBack, NowUnix;
    LastSuccessIsRefined(f, events, n);
    LastSuccessIsRefined(f, events, n + 1);
    LatestSuccessBounded(events, n, n);
  }

  // ----- units, codes and names, spelled out -----

  /**
   * The exit codes taken for success, whole seconds rounded toward zero, and the clamp of a duration that is no number.
   */
  lemma CodesAndUnits(e: Emit)
    ensures IsSuccess(e.exitCode) <==> e.exitCode in {0, 23, 24, 30}
    ensures e.clock >= 0 ==> 1_000_000 * NowUnix(e) <= e.clock < 1_000_000 * (NowUnix(e) + 1)
    ensures e.clock <= 0 ==> 1_000_000 * (NowUnix(e) - 1) < e.clock <= 1_000_000 * NowUnix(e)
    ensures SanitisedText(NotFinite) == "0.0" && (e.duration.Finite? ==> SanitisedText(e.duration) == e.duration.text)
  {
  }

  lemma NamesSpelled()
    ensures LAST_SUCCESS == "athena_logger_sync_last_success_seconds"
    ensures LAST_EXIT_CODE == "athena_logger_sync_last_exit_code" && DURATION == "athena_logger_sync_duration_seconds"
  {
  }

  /** The nine lines of the file. */
  lemma LinesSpelled(n: int, exitCode: int, d: Duration)
    ensures SuccessLines(n) + OtherLines(exitCode, d) ==
      ["# HELP " + LAST_SUCCESS + " Unix timestamp of last successful rsync.",
       "# TYPE " + LAST_SUCCESS + " gauge", LAST_SUCCESS + (" " + Str(n)),
       "# HELP " + LAST_EXIT_CODE + " Last rsync exit code.",
       "# TYPE " + LAST_EXIT_CODE + " gauge", LAST_EXIT_CODE + (" " + Str(exitCode)),
       "# HELP " + DURATION + " Last rsync duration.",
       "# TYPE " + DURATION + " gauge", DURATION + (" " + SanitisedText(d))]
  {
    hide Str, SanitisedText, LAST_SUCCESS, LAST_EXIT_CODE, DURATION;
  }

  /** Ten rename attempts, and a sweep that leaves exactly the files younger than 300 seconds. */
  lemma LimitsSpelled(f: FloatReader, file: Option<string>, e: Emit, tmp: map<nat, TmpFile>, now: int, p: nat)
    requires ReadLastSuccess(f, file).Prev? && e.fate.Denied?
    ensures EmitOutcomeOf(f, file, e) == if e.fate.times <= 9 then Written else PermissionError
    ensures p in Swept(tmp, now) <==> p in tmp && now - tmp[p].mtime < 300 * 1_000_000
    ensures p in Swept(tmp, now) ==> Swept(tmp, now)[p] == tmp[p]
  {
    hide ReadLastSuccess;
  }

  /** What a landed emit publishes under each name. */
  lemma EmitPublishes(f: FloatReader, file: Option<string>, e: Emit)
    requires EmitOutcomeOf(f, file, e).Written? && Dense(SanitisedText(e.duration))
    ensures var text := ApplyEmit(f, file, e);
      && text.Some?
      && var lines := SplitLines(text.value);
         var last := if e.exitCode in {0, 23, 24, 30} then NowUnix(e) else ReadLastSuccess(f, file).n;
         && GaugeText(lines, LAST_SUCCESS, 0) == Some(Str(last))
         && GaugeText(lines, LAST_EXIT_CODE, 0) == Some(Str(e.exitCode))
         && GaugeText(lines, DURATION, 0) == Some(SanitisedText(e.duration))
  {
    hide ReadLastSuccess, Body, SplitLines, GaugeText, NowUnix, SanitisedText, Str, LAST_SUCCESS, LAST_EXIT_CODE;
    hide DURATION;
    ScraperReadsBody(NextLastSuccess(e, ReadLastSuccess(f, file).n), e.exitCode, e.duration);
  }
}
