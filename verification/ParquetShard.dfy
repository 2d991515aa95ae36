/** Hourly export of one source table into immutable per-symbol shards. */
module ParquetShard {
  import opened Basics
  import opened Encoding
  import opened Calendar
  import opened DataFrame

  // ----- names and paths -----

  const SENTINEL := "__NULL__"

  predicate IsSymbolChar(c: char) {
    'A' <= c <= 'Z' || 'a' <= c <= 'z' || '0' <= c <= '9' || c == '_' || c == '-'
  }

  predicate MatchesSymbolClass(s: string) { 1 <= |s| <= 32 && All(IsSymbolChar, s) }

  /** _validate_symbol; the pattern's `$` also matches before one final newline. */
  predicate ValidSymbol(s: string) {
    s != SENTINEL &&
    (MatchesSymbolClass(s) || (s != "" && s[|s| - 1] == '\n' && MatchesSymbolClass(s[..|s| - 1])))
  }

  /** A symbol cell as a file name part; a null goes under the sentinel. */
  function PartName(sym: Cell): string {
    match sym
    case Null => SENTINEL
    case Text(s) => s
    case Num(n) => Str(n)
  }

  predicate UsableSymbol(sym: Cell) { sym.Text? ==> ValidSymbol(sym.s) }

  function ShardName(part: string): string { "symbol=" + part + ".parquet" }

  function TmpName(part: string, pid: nat): string { ShardName(part) + (".tmp." + Str(pid)) }

  /** What the pattern `symbol=*.parquet` selects. */
  predicate IsShardName(name: string) {
    |name| >= 15 && name[..7] == "symbol=" && name[|name| - 8..] == ".parquet"
  }

  /** A file below the output root; the partition directory is named by its date and hour. */
  datatype Path = Path(table: string, year: int, month: int, day: int, hour: int, name: string)

  /** The hive directory of an aligned UTC hour, counted from the epoch. */
  function InPartition(table: string, hour: int, name: string): Path {
    var d := hour / 24;
    var k := FindMonth(d, 0);
    Path(table, YearOf(k), MonthOf(k), d - StartDay(k) + 1, hour % 24, name)
  }

  function ShardPath(table: string, hour: int, sym: Cell): Path { InPartition(table, hour, ShardName(PartName(sym))) }

  lemma PartitionInjective(table: string, h: int, name: string, h': int, name': string)
    requires InPartition(table, h, name) == InPartition(table, h', name')
    ensures h == h' && name == name'
  {
    hide StartDay;
    var (k, k') := (FindMonth(h / 24, 0), FindMonth(h' / 24, 0));
    assert k == 12 * YearOf(k) + MonthOf(k) - 1 && k' == 12 * YearOf(k') + MonthOf(k') - 1;
    assert h == 24 * (h / 24) + h % 24 && h' == 24 * (h' / 24) + h' % 24;
  }

  /** The partition is named by the hour's own date and hour of day. */
  lemma PartitionNamesHour(table: string, h: int, name: string)
    ensures var p := InPartition(table, h, name);
      && 1 <= p.month <= 12 && 1 <= p.day <= DaysInMonth(p.year, p.month) && 0 <= p.hour < 24
      && h == 24 * (MonthStartDay(p.year, p.month) + p.day - 1) + p.hour
  {
    hide MonthStartDay;
    var k := FindMonth(h / 24, 0);
    StartStep(k);
    var n := NextMonth(YearOf(k), MonthOf(k));
    assert MonthNumber(YearOf(k), MonthOf(k)) == k;
    assert n.0 == YearOf(k + 1) && n.1 == MonthOf(k + 1);
    MonthLength(YearOf(k), MonthOf(k));
    assert h == 24 * (h / 24) + h % 24;
  }

  /** The file names, spelled out. */
  lemma NamesSpelled(table: string, hour: int, sym: Cell, pid: nat)
    ensures ShardPath(table, hour, Null).name == "symbol=" + "__NULL__" + ".parquet"
    ensures sym.Text? ==> ShardPath(table, hour, sym).name == "symbol=" + sym.s + ".parquet"
    ensures TmpName(PartName(sym), pid) == ShardPath(table, hour, sym).name + (".tmp." + Str(pid))
    ensures ShardPath(table, hour, sym).table == table
  {
  }

  lemma ShardNameInjective(p: string, q: string)
    requires ShardName(p) == ShardName(q)
    ensures p == q
  {
    CutAt("symbol=" + p, ".parquet", "symbol=" + q, ".parquet");
    CutAt("symbol=", p, "symbol=", q);
  }

  lemma ShardNameIsShard(p: string)
    ensures IsShardName(ShardName(p))
  {
    var n := ShardName(p);
    assert n[..7] == "symbol=" && n[|n| - 8..] == ".parquet";
  }

  /** A tmp file is never taken for a shard. */
  lemma TmpIsNotShard(part: string, pid: nat)
    ensures !IsShardName(TmpName(part, pid))
  {
    var n := TmpName(part, pid);
    var d := Str(pid);
    assert IsDigit(d[|d| - 1]) by {
      assert |d| > 1 ==> d[1..][|d| - 2] == d[|d| - 1];
    }
    ConcatAt(ShardName(part), ".tmp." + d, |n| - 1);
    assert n[|n| - 1] == d[|d| - 1];
    assert |n| >= 8 ==> n[|n| - 8..][7] == n[|n| - 1];
  }

  /** Distinct hours or symbols go to distinct files, the null sentinel's included. */
  lemma ShardPathInjective(table: string, h: int, sym: Cell, h': int, sym': Cell)
    requires ShardPath(table, h, sym) == ShardPath(table, h', sym')
    requires UsableSymbol(sym) && UsableSymbol(sym') && !sym.Num? && !sym'.Num?
    ensures h == h' && sym == sym'
  {
    hide InPartition, ShardName, ValidSymbol;
    PartitionInjective(table, h, ShardName(PartName(sym)), h', ShardName(PartName(sym')));
    ShardNameInjective(PartName(sym), PartName(sym'));
    SentinelIsInvalid();
  }

  lemma SentinelIsInvalid()
    ensures !ValidSymbol(SENTINEL)
  {
  }

  /** The documented class: one to 32 ASCII letters, digits, underscores and hyphens. */
  lemma SymbolClassSpelled(s: string)
    ensures MatchesSymbolClass(s) <==> s != "" && |s| < 33 && forall i :: 0 <= i < |s| ==>
      s[i] == '_' || s[i] == '-' || '0' <= s[i] <= '9' || 'A' <= s[i] <= 'Z' || 'a' <= s[i] <= 'z'
    ensures SENTINEL == "__NULL__"
  {
  }

  /** Apart from one final newline, the symbol check is the documented one. */
  lemma ValidSymbolExactly(s: string)
    ensures ValidSymbol(s) && s[|s| - 1] != '\n' <==> MatchesSymbolClass(s) && s != SENTINEL
    ensures ValidSymbol(s) && s[|s| - 1] == '\n' <==>
      s != "" && s[|s| - 1] == '\n' && MatchesSymbolClass(s[..|s| - 1])
  {
    if MatchesSymbolClass(s) {
      assert IsSymbolChar(s[|s| - 1]);
    }
    if s != "" && s[|s| - 1] == '\n' {
      assert SENTINEL[7] == '_';
    }
  }

  lemma PathIsNamed(table: string, hour: int, sym: Cell)
    ensures ShardPath(table, hour, sym).name == ShardName(PartName(sym))
  {
    hide ShardName;
  }

  /**
   * Every symbol of the documented class, and even the sentinel, passes again with a newline at its end, and gets a
   * shard of its own whose name keeps the newline.
   */
  lemma NewlineSymbolPasses(s: string, table: string, hour: int)
    requires MatchesSymbolClass(s)
    ensures !MatchesSymbolClass(s + "\n") && ValidSymbol(s + "\n")
    ensures var p := ShardPath(table, hour, Text(s + "\n"));
      p.name == "symbol=" + (s + "\n") + ".parquet" && IsShardName(p.name) && p != ShardPath(table, hour, Text(s))
  {
    hide InPartition, ShardPath, IsShardName;
    var u := s + "\n";
    assert u[|u| - 1] == '\n' && u[..|u| - 1] == s;
    assert !IsSymbolChar(u[|u| - 1]);
    ValidSymbolExactly(u);
    ShardNameIsShard(u);
    PathIsNamed(table, hour, Text(u));
    PathIsNamed(table, hour, Text(s));
    if ShardName(u) == ShardName(s) {
      ShardNameInjective(u, s);
    }
  }

  // ----- the source -----

  function TimeColumn(table: string): Option<string> {
    if table == "ticks" || table == "quotes" then Some("timestamp")
    else if table == "news" then Some("published_at_utc")
    else None
  }

  /** The row's instant; a null one fails every comparison of the query. */
  function TimeOf(col: string, r: Row): Option<int> { if col in r && r[col].Num? then Some(r[col].n) else None }

  function SymbolOf(r: Row): Cell { if "symbol" in r then r["symbol"] else Null }

  /** WHERE time >= hour AND time < hour + 1h */
  function InHour(col: string, hour: int): Row -> bool {
    (r: Row) => TimeOf(col, r).Some? && hour * US_PER_HOUR <= TimeOf(col, r).value < (hour + 1) * US_PER_HOUR
  }

  function HasSymbol(sym: Cell): Row -> bool {
    (r: Row) => SymbolOf(r) == sym
  }

  function UniqueSymbols(rows: seq<Row>): (s: seq<Cell>)
    ensures forall c :: c in s <==> exists i :: 0 <= i < |rows| && SymbolOf(rows[i]) == c
    ensures Distinct(s)
  {
    if rows == [] then []
    else
      var front := UniqueSymbols(rows[..|rows| - 1]);
      var c := SymbolOf(rows[|rows| - 1]);
      if c in front then front else front + [c]
  }

  /** The symbols are listed in the order of their first rows: before j comes up, i has. */
  lemma {:induction false} UniqueSymbolsInOrder(rows: seq<Row>, i: nat, j: nat) returns (p: nat)
    requires i < j < |UniqueSymbols(rows)|
    ensures p < |rows| && SymbolOf(rows[p]) == UniqueSymbols(rows)[i]
    ensures forall q :: 0 <= q <= p ==> SymbolOf(rows[q]) != UniqueSymbols(rows)[j]
  {
    hide SymbolOf;
    var front := rows[..|rows| - 1];
    var syms := UniqueSymbols(front);
    if j < |syms| {
      p := UniqueSymbolsInOrder(front, i, j);
    } else {
      assert syms[i] in syms;
      p :| 0 <= p < |front| && SymbolOf(front[p]) == syms[i];
      forall q | 0 <= q <= p ensures SymbolOf(rows[q]) != UniqueSymbols(rows)[j] {
        assert front[q] == rows[q];
      }
    }
  }

  // ----- one call -----

  datatype Mode = Fail | Check

  /** A file is a complete frame, or what a killed writer left. */
  datatype File = Parquet(frame: Frame) | Torn

  type Tree = map<Path, File>

  /** What happens to the write of one shard; a kill ends the process. */
  datatype Fate = Smooth | WriteRaises | KilledInWrite | KilledBeforeRename | KilledAfterRename

  /** One call: rows is the query result in whatever order it arrived. */
  datatype Job = Job(
      table: string, hour: int, aware: bool, mode: Mode, pid: nat, columns: seq<string>, rows: seq<Row>,
      fate: Cell -> Fate)

  datatype ExportResult = ExportResult(filesWritten: nat, filesMatched: nat, symbols: seq<string>)

  datatype Outcome =
    | Returned(result: ExportResult)
    | UnknownTable
    | NaiveHour
    | BadSymbol
    | AlreadyExists(path: Path)
    | Drift(path: Path)
    | Unreadable(path: Path)
    | WriteFailed
    | Killed

  function SubFrame(job: Job, sym: Cell): Frame { Frame(job.columns, Filter(HasSymbol(sym), job.rows)) }

  datatype SymbolStep = Wrote | Matched | Stopped(outcome: Outcome)

  function OutFile(job: Job, sym: Cell): Path { ShardPath(job.table, job.hour, sym) }

  function TmpFile(job: Job, sym: Cell): Path { InPartition(job.table, job.hour, TmpName(PartName(sym), job.pid)) }

  /** The loop body for one symbol. */
  function ExportSymbol(t: Tree, job: Job, sym: Cell): (Tree, SymbolStep) {
    var (out, tmp, sub) := (OutFile(job, sym), TmpFile(job, sym), SubFrame(job, sym));
    if !UsableSymbol(sym) then (t, Stopped(BadSymbol))
    else if out in t then
      if job.mode.Fail? then (t, Stopped(AlreadyExists(out)))
      else match t[out]
        case Torn => (t, Stopped(Unreadable(out)))
        case Parquet(existing) => (t, if DataEquals(existing, sub) then Matched else Stopped(Drift(out)))
    else match job.fate(sym)
      case Smooth => (t[out := Parquet(sub)] - {tmp}, Wrote)
      case WriteRaises => (t - {tmp}, Stopped(WriteFailed))
      case KilledInWrite => (t[tmp := Torn], Stopped(Killed))
      case KilledBeforeRename => (t[tmp := Parquet(sub)], Stopped(Killed))
      case KilledAfterRename => (t[out := Parquet(sub)] - {tmp}, Stopped(Killed))
  }

  datatype Progress = Progress(tree: Tree, result: ExportResult, stop: Option<Outcome>)

  /** The loop after its first n symbols. */
  function ExportFirst(t: Tree, job: Job, syms: seq<Cell>, n: nat): Progress
    requires n <= |syms|
  {
    if n == 0 then Progress(t, ExportResult(0, 0, []), None)
    else
      var p := ExportFirst(t, job, syms, n - 1);
      if p.stop.Some? then p else AfterSymbol(p, job, syms[n - 1])
  }

  function AfterSymbol(p: Progress, job: Job, sym: Cell): Progress {
    var (tree, step) := ExportSymbol(p.tree, job, sym);
    match step
    case Wrote =>
      var r := p.result;
      Progress(tree, r.(filesWritten := r.filesWritten + 1, symbols := r.symbols + [PartName(sym)]), None)
    case Matched => Progress(tree, p.result.(filesMatched := p.result.filesMatched + 1), None)
    case Stopped(o) => Progress(tree, p.result, Some(o))
  }

  function Guard(job: Job): Option<Outcome> {
    if TimeColumn(job.table).None? then Some(UnknownTable) else if !job.aware then Some(NaiveHour) else None
  }

  /** A whole call: the tree it leaves and how it ends. */
  function Export(t: Tree, job: Job): (Tree, Outcome) {
    if Guard(job).Some? then (t, Guard(job).value)
    else
      var syms := UniqueSymbols(job.rows);
      var p := ExportFirst(t, job, syms, |syms|);
      (p.tree, match p.stop case Some(o) => o case None => Returned(p.result))
  }

  lemma {:induction false} StopPersists(t: Tree, job: Job, syms: seq<Cell>, m: nat, n: nat)
    requires m <= n <= |syms| && ExportFirst(t, job, syms, m).stop.Some?
    ensures ExportFirst(t, job, syms, n) == ExportFirst(t, job, syms, m)
    decreases n
  {
    hide AfterSymbol;
    if m < n {
      StopPersists(t, job, syms, m, n - 1);
    }
  }

  class ShardStore {
    var tree: Tree

    constructor ()
      ensures tree == map[]
    {
      tree := map[];
    }

    /** export_hour_shard, with every write's fate given by the job. */
    method ExportHourShard(job: Job) returns (o: Outcome)
      modifies this
      ensures tree == Export(old(tree), job).0 && o == Export(old(tree), job).1
    {
      hide ExportSymbol;
      if TimeColumn(job.table).None? {
        return UnknownTable;
      }
      if !job.aware {
        return NaiveHour;
      }
      var filesWritten, filesMatched, symbolsWritten := 0, 0, [];
      var syms := UniqueSymbols(job.rows);
      for i := 0 to |syms|
        invariant ExportFirst(old(tree), job, syms, i)
               == Progress(tree, ExportResult(filesWritten, filesMatched, symbolsWritten), None)
      {
        var sym := syms[i];
        var step := ExportOne(job, sym);
        match step
        case Wrote =>
          filesWritten := filesWritten + 1;
          symbolsWritten := symbolsWritten + [PartName(sym)];
        case Matched =>
          filesMatched := filesMatched + 1;
        case Stopped(outcome) =>
          StopPersists(old(tree), job, syms, i + 1, |syms|);
          return outcome;
      }
      return Returned(ExportResult(filesWritten, filesMatched, symbolsWritten));
    }

    /** One pass of the symbol loop, its file operations in order. */
    method ExportOne(job: Job, sym: Cell) returns (step: SymbolStep)
      modifies this
      ensures (tree, step) == ExportSymbol(old(tree), job, sym)
    {
      hide DataEquals, UsableSymbol, OutFile, TmpFile, SubFrame;
      var subDf := SubFrame(job, sym);
      if !UsableSymbol(sym) {
        return Stopped(BadSymbol);
      }
      var outFile := OutFile(job, sym);
      if outFile in tree {
        if job.mode.Fail? {
          return Stopped(AlreadyExists(outFile));
        }
        if tree[outFile].Torn? {
          return Stopped(Unreadable(outFile));
        }
        if DataEquals(tree[outFile].frame, subDf) {
          return Matched;
        }
        return Stopped(Drift(outFile));
      }
      var tmpFile, fate := TmpFile(job, sym), job.fate(sym);
      TmpIsNotOut(job, sym);
      if fate.KilledInWrite? {
        tree := tree[tmpFile := Torn];
        return Stopped(Killed);
      }
      if fate.WriteRaises? {
        tree := tree - {tmpFile};
        return Stopped(WriteFailed);
      }
      tree := tree[tmpFile := Parquet(subDf)];
      if fate.KilledBeforeRename? {
        return Stopped(Killed);
      }
      tree := tree[outFile := tree[tmpFile]] - {tmpFile};
      assert tree == old(tree)[outFile := Parquet(subDf)] - {tmpFile};
      if fate.KilledAfterRename? {
        return Stopped(Killed);
      }
      return Wrote;
    }
  }

  lemma TmpIsNotOut(job: Job, sym: Cell)
    ensures TmpFile(job, sym) != OutFile(job, sym)
    ensures IsShardName(OutFile(job, sym).name) && !IsShardName(TmpFile(job, sym).name)
  {
    hide IsShardName, ShardName, TmpName;
    ShardNameIsShard(PartName(sym));
    TmpIsNotShard(PartName(sym), job.pid);
  }

  // ----- no call changes a shard that is there -----

  /** Shards of t are in t' with the same content. */
  ghost predicate KeepsShards(t: Tree, t': Tree) {
    forall p :: p in t && IsShardName(p.name) ==> p in t' && t'[p] == t[p]
  }

  lemma ExportSymbolKeepsShards(t: Tree, job: Job, sym: Cell)
    ensures KeepsShards(t, ExportSymbol(t, job, sym).0)
  {
    hide OutFile, TmpFile, SubFrame, IsShardName, UsableSymbol, DataEquals;
    TmpIsNotOut(job, sym);
  }

  lemma {:induction false} ExportFirstKeepsShards(t: Tree, job: Job, syms: seq<Cell>, n: nat)
    requires n <= |syms|
    ensures KeepsShards(t, ExportFirst(t, job, syms, n).tree)
  {
    hide ExportSymbol, IsShardName;
    if n > 0 {
      ExportFirstKeepsShards(t, job, syms, n - 1);
      ExportSymbolKeepsShards(ExportFirst(t, job, syms, n - 1).tree, job, syms[n - 1]);
    }
  }

  /** Immutability: in either mode and however the call ends, no existing shard is changed or removed. */
  lemma ShardsAreImmutable(t: Tree, job: Job)
    ensures KeepsShards(t, Export(t, job).0)
  {
    hide IsShardName, ExportFirst;
    if Guard(job).None? {
      var syms := UniqueSymbols(job.rows);
      ExportFirstKeepsShards(t, job, syms, |syms|);
    }
  }

  lemma {:induction false} ExportFirstCounts(t: Tree, job: Job, syms: seq<Cell>, n: nat)
    requires n <= |syms| && ExportFirst(t, job, syms, n).stop.None?
    ensures var r := ExportFirst(t, job, syms, n).result;
      r.filesWritten + r.filesMatched == n && |r.symbols| == r.filesWritten
  {
    hide ExportSymbol;
    if n > 0 {
      ExportFirstCounts(t, job, syms, n - 1);
    }
  }

  /** Accounting: a call that returns wrote or matched one file for each distinct symbol, null counting once. */
  lemma ReturnedAccounts(t: Tree, job: Job)
    requires Export(t, job).1.Returned?
    ensures var r := Export(t, job).1.result;
      r.filesWritten + r.filesMatched == |UniqueSymbols(job.rows)| && |r.symbols| == r.filesWritten
  {
    hide ExportFirst;
    var syms := UniqueSymbols(job.rows);
    StopIsNotReturn(t, job, syms, |syms|);
    ExportFirstCounts(t, job, syms, |syms|);
  }

  lemma {:induction false} StopIsNotReturn(t: Tree, job: Job, syms: seq<Cell>, n: nat)
    requires n <= |syms|
    ensures var stop := ExportFirst(t, job, syms, n).stop;
      stop.Some? ==> !stop.value.Returned? && !stop.value.UnknownTable? && !stop.value.NaiveHour?
  {
    hide OutFile, TmpFile, SubFrame, DataEquals, UsableSymbol;
    if n > 0 {
      StopIsNotReturn(t, job, syms, n - 1);
    }
  }

  /** The part names of the first n symbols whose shard is missing from t. */
  function Missing(t: Tree, job: Job, syms: seq<Cell>, n: nat): seq<string>
    requires n <= |syms|
  {
    if n == 0 then []
    else Missing(t, job, syms, n - 1) + (if OutFile(job, syms[n - 1]) in t then [] else [PartName(syms[n - 1])])
  }

  lemma StepTouchesOwnShard(t: Tree, job: Job, sym: Cell, other: Cell)
    requires sym != other && !sym.Num? && !other.Num? && UsableSymbol(other)
    ensures OutFile(job, other) in ExportSymbol(t, job, sym).0 <==> OutFile(job, other) in t
  {
    hide UsableSymbol, ShardPath, TmpFile, SubFrame, DataEquals, IsShardName;
    TmpIsNotOut(job, sym);
    TmpIsNotOut(job, other);
    if UsableSymbol(sym) && OutFile(job, sym) == OutFile(job, other) {
      ShardPathInjective(job.table, job.hour, sym, job.hour, other);
    }
  }

  /** A symbol step that goes on wrote its shard exactly when it was missing. */
  lemma StepWritesMissing(t: Tree, job: Job, sym: Cell)
    ensures var step := ExportSymbol(t, job, sym).1;
      !step.Stopped? ==> UsableSymbol(sym) && (step.Wrote? <==> OutFile(job, sym) !in t)
  {
    hide UsableSymbol, OutFile, TmpFile, SubFrame, DataEquals;
  }

  lemma {:induction false} ExportFirstWritesMissing(t: Tree, job: Job, syms: seq<Cell>, n: nat)
    requires n <= |syms| && Distinct(syms) && forall i :: 0 <= i < |syms| ==> !syms[i].Num?
    requires ExportFirst(t, job, syms, n).stop.None?
    ensures var p := ExportFirst(t, job, syms, n);
      && p.result.symbols == Missing(t, job, syms, n)
      && forall j :: n <= j < |syms| && UsableSymbol(syms[j]) ==>
           (OutFile(job, syms[j]) in p.tree <==> OutFile(job, syms[j]) in t)
  {
    hide ExportSymbol, UsableSymbol, OutFile, PartName;
    if n > 0 {
      ExportFirstWritesMissing(t, job, syms, n - 1);
      var u := ExportFirst(t, job, syms, n - 1).tree;
      var sym := syms[n - 1];
      StepWritesMissing(u, job, sym);
      forall j | n <= j < |syms| && UsableSymbol(syms[j])
        ensures OutFile(job, syms[j]) in ExportSymbol(u, job, sym).0 <==> OutFile(job, syms[j]) in u
      {
        StepTouchesOwnShard(u, job, sym, syms[j]);
      }
    }
  }

  /**
   * A call that returns wrote exactly the shards that were missing, in the order the symbols first occur, and matched
   * the rest.
   */
  lemma ReturnedWroteMissing(t: Tree, job: Job)
    requires Export(t, job).1.Returned? && forall i :: 0 <= i < |job.rows| ==> !SymbolOf(job.rows[i]).Num?
    ensures var syms := UniqueSymbols(job.rows);
      Export(t, job).1.result.symbols == Missing(t, job, syms, |syms|)
  {
    hide ExportFirst, Missing, SymbolOf;
    var syms := UniqueSymbols(job.rows);
    StopIsNotReturn(t, job, syms, |syms|);
    forall i | 0 <= i < |syms| ensures !syms[i].Num? {
      assert syms[i] in syms;
    }
    ExportFirstWritesMissing(t, job, syms, |syms|);
  }

  // ----- exactly when a call returns -----

  /** On this tree the symbol is written or matched. */
  predicate GoesThrough(t: Tree, job: Job, sym: Cell) {
    var out := OutFile(job, sym);
    && UsableSymbol(sym)
    && if out in t then job.mode.Check? && t[out].Parquet? && DataEquals(t[out].frame, SubFrame(job, sym))
       else job.fate(sym).Smooth?
  }

  lemma StepGoesThrough(t: Tree, job: Job, sym: Cell)
    ensures !ExportSymbol(t, job, sym).1.Stopped? <==> GoesThrough(t, job, sym)
  {
    hide UsableSymbol, OutFile, TmpFile, SubFrame, DataEquals;
  }

  /** Symbols later in the loop find their shard as it was before the call. */
  lemma LaterShardsAsBefore(t: Tree, u: Tree, job: Job, sym: Cell)
    requires KeepsShards(t, u) && (UsableSymbol(sym) ==> (OutFile(job, sym) in u <==> OutFile(job, sym) in t))
    ensures GoesThrough(u, job, sym) <==> GoesThrough(t, job, sym)
  {
    hide UsableSymbol, OutFile, TmpFile, SubFrame, DataEquals, IsShardName;
    TmpIsNotOut(job, sym);
  }

  lemma {:induction false} ExportFirstGoesThrough(t: Tree, job: Job, syms: seq<Cell>, n: nat)
    requires n <= |syms| && Distinct(syms) && forall i :: 0 <= i < |syms| ==> !syms[i].Num?
    ensures ExportFirst(t, job, syms, n).stop.None? <==> forall i :: 0 <= i < n ==> GoesThrough(t, job, syms[i])
  {
    hide ExportSymbol, GoesThrough, UsableSymbol, OutFile, KeepsShards;
    if n > 0 {
      ExportFirstGoesThrough(t, job, syms, n - 1);
      var p := ExportFirst(t, job, syms, n - 1);
      if p.stop.None? {
        ExportFirstWritesMissing(t, job, syms, n - 1);
        ExportFirstKeepsShards(t, job, syms, n - 1);
        LaterShardsAsBefore(t, p.tree, job, syms[n - 1]);
        StepGoesThrough(p.tree, job, syms[n - 1]);
      }
    }
  }

  /**
   * A call returns exactly when its table and hour are accepted and every queried symbol is usable and either has its
   * shard, in check mode, with the same data, or lacks it and has a smooth write.
   */
  lemma ReturnsExactly(t: Tree, job: Job)
    requires forall i :: 0 <= i < |job.rows| ==> !SymbolOf(job.rows[i]).Num?
    ensures Export(t, job).1.Returned? <==>
      && (job.table == "ticks" || job.table == "quotes" || job.table == "news") && job.aware
      && forall sym :: sym in UniqueSymbols(job.rows) ==> GoesThrough(t, job, sym)
  {
    hide ExportFirst, GoesThrough, SymbolOf;
    ExportRejects(t, job);
    if Guard(job).None? {
      var syms := UniqueSymbols(job.rows);
      StopIsNotReturn(t, job, syms, |syms|);
      forall i | 0 <= i < |syms| ensures !syms[i].Num? {
        assert syms[i] in syms;
      }
      ExportFirstGoesThrough(t, job, syms, |syms|);
    }
  }

  /** What a call does before it looks at any symbol. */
  lemma ExportRejects(t: Tree, job: Job)
    ensures job.table != "ticks" && job.table != "quotes" && job.table != "news" ==> Export(t, job) == (t, UnknownTable)
    ensures job.table == "ticks" || job.table == "quotes" || job.table == "news" ==>
      && (!job.aware ==> Export(t, job) == (t, NaiveHour))
      && (job.aware ==> !Export(t, job).1.UnknownTable? && !Export(t, job).1.NaiveHour?)
      && (job.aware && job.rows == [] ==> Export(t, job) == (t, Returned(ExportResult(0, 0, []))))
  {
    hide ExportSymbol;
    var syms := UniqueSymbols(job.rows);
    StopIsNotReturn(t, job, syms, |syms|);
  }

  /** How a call ends that does not return: as the first symbol that does not go through has it. */
  lemma FirstStuckDecides(t: Tree, job: Job, i: nat)
    requires job.aware && (job.table == "ticks" || job.table == "quotes" || job.table == "news")
    requires forall k :: 0 <= k < |job.rows| ==> !SymbolOf(job.rows[k]).Num?
    requires i < |UniqueSymbols(job.rows)| && !GoesThrough(t, job, UniqueSymbols(job.rows)[i])
    requires forall j :: 0 <= j < i ==> GoesThrough(t, job, UniqueSymbols(job.rows)[j])
    ensures var sym := UniqueSymbols(job.rows)[i]; var out := ShardPath(job.table, job.hour, sym);
      Export(t, job).1 ==
        if sym.Text? && !ValidSymbol(sym.s) then BadSymbol
        else if out in t && job.mode.Fail? then AlreadyExists(out)
        else if out in t && t[out].Torn? then Unreadable(out)
        else if out in t then Drift(out)
        else if job.fate(sym).WriteRaises? then WriteFailed
        else Killed
  {
    hide ExportSymbol, GoesThrough, ShardPath, ValidSymbol, ExportFirst, KeepsShards, SymbolOf;
    var syms := UniqueSymbols(job.rows);
    forall k | 0 <= k < |syms| ensures !syms[k].Num? {
      assert syms[k] in syms;
    }
    ExportFirstGoesThrough(t, job, syms, i);
    ExportFirstGoesThrough(t, job, syms, i + 1);
    ExportFirstKeepsShards(t, job, syms, i);
    ExportFirstWritesMissing(t, job, syms, i);
    StopPersists(t, job, syms, i + 1, |syms|);
    var u := ExportFirst(t, job, syms, i).tree;
    LaterShardsAsBefore(t, u, job, syms[i]);
    StuckStep(t, u, job, syms[i]);
    OneMoreSymbol(t, job, syms, i);
  }

  lemma OneMoreSymbol(t: Tree, job: Job, syms: seq<Cell>, i: nat)
    requires i < |syms| && ExportFirst(t, job, syms, i).stop.None?
    ensures var step := ExportSymbol(ExportFirst(t, job, syms, i).tree, job, syms[i]).1;
      step.Stopped? ==> ExportFirst(t, job, syms, i + 1).stop == Some(step.outcome)
  {
    hide ExportSymbol;
  }

  lemma StuckStep(t: Tree, u: Tree, job: Job, sym: Cell)
    requires KeepsShards(t, u) && !GoesThrough(u, job, sym)
    requires UsableSymbol(sym) ==> (OutFile(job, sym) in u <==> OutFile(job, sym) in t)
    ensures var out := OutFile(job, sym);
      ExportSymbol(u, job, sym).1 == Stopped(
        if !UsableSymbol(sym) then BadSymbol
        else if out in t && job.mode.Fail? then AlreadyExists(out)
        else if out in t && t[out].Torn? then Unreadable(out)
        else if out in t then Drift(out)
        else if job.fate(sym).WriteRaises? then WriteFailed
        else Killed)
  {
    hide UsableSymbol, OutFile, TmpFile, SubFrame, DataEquals, IsShardName;
    TmpIsNotOut(job, sym);
  }

  /**
   * What each fate of a write leaves: the shard exactly behind a rename, the tmp file exactly after a kill before it.
   */
  lemma FateLeaves(t: Tree, job: Job, sym: Cell)
    requires UsableSymbol(sym) && OutFile(job, sym) !in t
    ensures var (t', fate) := (ExportSymbol(t, job, sym).0, job.fate(sym));
      var (out, tmp) := (OutFile(job, sym), TmpFile(job, sym));
      var frame := Frame(job.columns, Filter(HasSymbol(sym), job.rows));
      && (out in t' <==> fate.Smooth? || fate.KilledAfterRename?)
      && (tmp in t' <==> fate.KilledInWrite? || fate.KilledBeforeRename?)
      && (out in t' ==> t'[out] == Parquet(frame))
      && (tmp in t' ==> t'[tmp] == if fate.KilledInWrite? then Torn else Parquet(frame))
      && forall p :: p != out && p != tmp ==> (p in t' <==> p in t) && (p in t ==> t'[p] == t[p])
  {
    hide UsableSymbol, OutFile, TmpFile, DataEquals, IsShardName;
    TmpIsNotOut(job, sym);
  }

  /** Once any queried symbol has its shard, as after a kill behind one rename, no call in fail mode returns, ever. */
  lemma FailModeNeverResumes(t: Tree, t': Tree, job: Job, sym: Cell)
    requires forall i :: 0 <= i < |job.rows| ==> !SymbolOf(job.rows[i]).Num?
    requires job.mode.Fail? && sym in UniqueSymbols(job.rows) && OutFile(job, sym) in t && KeepsShards(t, t')
    ensures !Export(t', job).1.Returned?
  {
    hide Export, SymbolOf, UsableSymbol, OutFile, TmpFile, IsShardName;
    TmpIsNotOut(job, sym);
    assert OutFile(job, sym) in t';
    assert !GoesThrough(t', job, sym);
    ReturnsExactly(t', job);
  }

  lemma {:induction false} ExportFirstLeavesNoTmp(t: Tree, job: Job, syms: seq<Cell>, n: nat)
    requires n <= |syms| && ExportFirst(t, job, syms, n).stop != Some(Killed)
    ensures forall p :: p in ExportFirst(t, job, syms, n).tree && p !in t ==> IsShardName(p.name)
  {
    hide OutFile, TmpFile, SubFrame, DataEquals, UsableSymbol, IsShardName;
    if n > 0 {
      ExportFirstLeavesNoTmp(t, job, syms, n - 1);
      TmpIsNotOut(job, syms[n - 1]);
    }
  }

  /** A call that is not killed leaves no tmp file behind: whatever it added is a shard. */
  lemma NoTmpResidue(t: Tree, job: Job)
    requires Export(t, job).1 != Killed
    ensures forall p :: p in Export(t, job).0 && p !in t ==> IsShardName(p.name)
  {
    hide ExportFirst, IsShardName;
    if Guard(job).None? {
      var syms := UniqueSymbols(job.rows);
      ExportFirstLeavesNoTmp(t, job, syms, |syms|);
    }
  }

  /**
   * Check mode on a shard that is there: it matches exactly when columns and bag of rows agree, and is drift otherwise.
   */
  lemma CheckDecidesDrift(t: Tree, job: Job, sym: Cell)
    requires job.mode.Check? && UsableSymbol(sym) && OutFile(job, sym) in t && t[OutFile(job, sym)].Parquet?
    requires WellFormed(t[OutFile(job, sym)].frame) && WellFormed(SubFrame(job, sym))
    ensures var existing := t[OutFile(job, sym)].frame; var (t', step) := ExportSymbol(t, job, sym);
      var sameColumns := forall c :: c in existing.columns <==> c in job.columns;
      var sameRows := multiset(existing.rows) == multiset(SubFrame(job, sym).rows);
      t' == t && step == if sameColumns && sameRows then Matched else Stopped(Drift(OutFile(job, sym)))
  {
    hide OutFile, UsableSymbol, DataEquals;
    DataEqualsIsBagEquality(t[OutFile(job, sym)].frame, SubFrame(job, sym));
  }

  // ----- the tree agrees with an unchanged source -----

  /** The source rows of one symbol in one hour. */
  function SourceRows(src: Frame, col: string, hour: int, sym: Cell): seq<Row> {
    Filter(HasSymbol(sym), Filter(InHour(col, hour), src.rows))
  }

  predicate InSource(src: Frame, col: string, hour: int, sym: Cell) {
    exists i :: 0 <= i < |src.rows| && InHour(col, hour)(src.rows[i]) && SymbolOf(src.rows[i]) == sym
  }

  /** The source is a frame whose symbol column is text. */
  ghost predicate SourceOk(src: Frame) {
    WellFormed(src) && forall i :: 0 <= i < |src.rows| ==> !SymbolOf(src.rows[i]).Num?
  }

  /** A call on this table that saw the source's rows of its hour, in any order. */
  ghost predicate Queries(job: Job, src: Frame, table: string, col: string) {
    && job.table == table && TimeColumn(table) == Some(col)
    && job.columns == src.columns
    && multiset(job.rows) == multiset(Filter(InHour(col, job.hour), src.rows))
  }

  /** p holds exactly the source rows of this hour and symbol. */
  ghost predicate Holds(f: File, src: Frame, col: string, hour: int, sym: Cell) {
    && f.Parquet? && WellFormed(f.frame) && f.frame.columns == src.columns
    && multiset(f.frame.rows) == multiset(SourceRows(src, col, hour, sym))
  }

  ghost predicate IsShardOf(t: Tree, p: Path, src: Frame, col: string, hour: int, sym: Cell)
    requires p in t
  {
    && p == ShardPath(p.table, hour, sym) && UsableSymbol(sym) && !sym.Num?
    && InSource(src, col, hour, sym) && Holds(t[p], src, col, hour, sym)
  }

  /** Every shard of the table is one hour's rows of one symbol, for an hour in hours. */
  ghost predicate Agrees(t: Tree, src: Frame, table: string, col: string, hours: set<int>) {
    forall p :: p in t && p.table == table && IsShardName(p.name) ==>
      exists hour, sym :: hour in hours && IsShardOf(t, p, src, col, hour, sym)
  }

  /** Every symbol of the hour has its shard. */
  ghost predicate Complete(t: Tree, src: Frame, table: string, col: string, hour: int) {
    forall sym :: InSource(src, col, hour, sym) ==>
      var p := ShardPath(table, hour, sym);
      UsableSymbol(sym) && p in t && Holds(t[p], src, col, hour, sym)
  }

  lemma FilterSubset<T>(p: T -> bool, s: seq<T>, x: T)
    ensures x in Filter(p, s) <==> x in s && p(x)
  {
    FilterCounts(p, s, x);
    assert x in s <==> multiset(s)[x] > 0;
    assert x in Filter(p, s) <==> multiset(Filter(p, s))[x] > 0;
  }

  /** The frame a call would write is the source's slice for that symbol. */
  lemma SubFrameHolds(job: Job, src: Frame, table: string, col: string, sym: Cell)
    requires Queries(job, src, table, col) && SourceOk(src)
    ensures Holds(Parquet(SubFrame(job, sym)), src, col, job.hour, sym)
  {
    hide HasColumns;
    var (hour, rows) := (Filter(InHour(col, job.hour), src.rows), Filter(HasSymbol(sym), job.rows));
    forall r ensures multiset(rows)[r] == multiset(SourceRows(src, col, job.hour, sym))[r] {
      FilterCounts(HasSymbol(sym), job.rows, r);
      FilterCounts(HasSymbol(sym), hour, r);
    }
    forall i | 0 <= i < |rows| ensures HasColumns(rows[i], src.columns) {
      var r := rows[i];
      FilterSubset(HasSymbol(sym), job.rows, r);
      assert r in job.rows <==> r in multiset(job.rows);
      assert r in hour <==> r in multiset(hour);
      FilterSubset(InHour(col, job.hour), src.rows, r);
    }
  }

  /** A row is in the query result exactly when the source has it in that hour. */
  lemma QueriedRows(job: Job, src: Frame, table: string, col: string, r: Row)
    requires Queries(job, src, table, col)
    ensures r in job.rows <==> r in src.rows && InHour(col, job.hour)(r)
  {
    var hour := Filter(InHour(col, job.hour), src.rows);
    assert r in job.rows <==> r in multiset(job.rows);
    assert r in hour <==> r in multiset(hour);
    FilterSubset(InHour(col, job.hour), src.rows, r);
  }

  /** The query: the table's time column within the hour, in microseconds since the epoch; null times never qualify. */
  lemma QueriedWindow(job: Job, src: Frame, table: string, col: string, r: Row)
    requires Queries(job, src, table, col)
    ensures table == "ticks" || table == "quotes" || table == "news"
    ensures col == if table == "news" then "published_at_utc" else "timestamp"
    ensures r in job.rows <==>
      && r in src.rows && col in r && r[col].Num?
      && job.hour * 3_600_000_000 <= r[col].n < (job.hour + 1) * 3_600_000_000
  {
    QueriedRows(job, src, table, col, r);
  }

  /** A symbol is in the query result exactly when the source has a row for it in that hour. */
  lemma QueriedSymbols(job: Job, src: Frame, table: string, col: string, sym: Cell)
    requires Queries(job, src, table, col)
    ensures sym in UniqueSymbols(job.rows) <==> InSource(src, col, job.hour, sym)
  {
    hide InHour, SymbolOf;
    if sym in UniqueSymbols(job.rows) {
      var i :| 0 <= i < |job.rows| && SymbolOf(job.rows[i]) == sym;
      QueriedRows(job, src, table, col, job.rows[i]);
      var j :| 0 <= j < |src.rows| && src.rows[j] == job.rows[i];
    }
    if InSource(src, col, job.hour, sym) {
      var i :| 0 <= i < |src.rows| && InHour(col, job.hour)(src.rows[i]) && SymbolOf(src.rows[i]) == sym;
      QueriedRows(job, src, table, col, src.rows[i]);
      var j :| 0 <= j < |job.rows| && job.rows[j] == src.rows[i];
    }
  }

  /** One symbol step keeps agreement; unless it stops the call, its shard is then in place. */
  lemma ExportSymbolAgrees(t: Tree, job: Job, sym: Cell, src: Frame, table: string, col: string, hours: set<int>)
    requires Queries(job, src, table, col) && SourceOk(src) && job.hour in hours
    requires InSource(src, col, job.hour, sym) && Agrees(t, src, table, col, hours)
    ensures var (t', step) := ExportSymbol(t, job, sym);
      && Agrees(t', src, table, col, hours)
      && (!step.Stopped? ==>
            UsableSymbol(sym) && OutFile(job, sym) in t' && Holds(t'[OutFile(job, sym)], src, col, job.hour, sym))
  {
    hide Queries, Holds, ShardPath, InSource, IsShardName, TmpFile, SubFrame, DataEquals, UsableSymbol, InPartition;
    assert !sym.Num? by {
      SourceSymbolIsText(src, col, job.hour, sym);
    }
    var (t', step) := ExportSymbol(t, job, sym);
    var out := OutFile(job, sym);
    SubFrameHolds(job, src, table, col, sym);
    TmpIsNotOut(job, sym);
    OutFileIsShardPath(job, sym, src, table, col);
    forall p | p in t' && p.table == table && IsShardName(p.name)
      ensures exists hour, s :: hour in hours && IsShardOf(t', p, src, col, hour, s)
    {
      if p in t {
        assert t'[p] == t[p];
        var hour, s :| hour in hours && IsShardOf(t, p, src, col, hour, s);
        assert IsShardOf(t', p, src, col, hour, s);
      } else {
        assert p == out;
        assert IsShardOf(t', p, src, col, job.hour, sym);
      }
    }
    if step.Matched? {
      var hour, s :| hour in hours && IsShardOf(t, out, src, col, hour, s);
      ShardPathInjective(table, job.hour, sym, hour, s);
    }
  }

  lemma SourceSymbolIsText(src: Frame, col: string, hour: int, sym: Cell)
    requires SourceOk(src) && InSource(src, col, hour, sym)
    ensures !sym.Num?
  {
  }

  lemma OutFileIsShardPath(job: Job, sym: Cell, src: Frame, table: string, col: string)
    requires Queries(job, src, table, col)
    ensures OutFile(job, sym) == ShardPath(table, job.hour, sym) && OutFile(job, sym).table == table
  {
  }

  ghost predicate Placed(t: Tree, job: Job, src: Frame, col: string, sym: Cell) {
    UsableSymbol(sym) && OutFile(job, sym) in t && Holds(t[OutFile(job, sym)], src, col, job.hour, sym)
  }

  lemma PlacedPersists(t: Tree, t': Tree, job: Job, src: Frame, col: string, sym: Cell)
    requires KeepsShards(t, t') && Placed(t, job, src, col, sym)
    ensures Placed(t', job, src, col, sym)
  {
    hide Holds, UsableSymbol, ShardPath, IsShardName, TmpFile;
    TmpIsNotOut(job, sym);
  }

  lemma {:induction false} ExportFirstAgrees(
      t: Tree, job: Job, n: nat, src: Frame, table: string, col: string, hours: set<int>)
    requires Queries(job, src, table, col) && SourceOk(src) && job.hour in hours
    requires Agrees(t, src, table, col, hours) && n <= |UniqueSymbols(job.rows)|
    ensures var syms := UniqueSymbols(job.rows); var p := ExportFirst(t, job, syms, n);
      && Agrees(p.tree, src, table, col, hours)
      && (p.stop.None? ==> forall i :: 0 <= i < n ==> Placed(p.tree, job, src, col, syms[i]))
  {
    hide Agrees, SourceOk, Queries, ExportSymbol, Placed, KeepsShards, InSource;
    if n > 0 {
      var syms := UniqueSymbols(job.rows);
      ExportFirstAgrees(t, job, n - 1, src, table, col, hours);
      var p := ExportFirst(t, job, syms, n - 1);
      var sym := syms[n - 1];
      QueriedSymbols(job, src, table, col, sym);
      OneStep(p.tree, job, sym, src, table, col, hours);
      var t' := ExportSymbol(p.tree, job, sym).0;
      if ExportFirst(t, job, syms, n).stop.None? {
        forall i | 0 <= i < n ensures Placed(t', job, src, col, syms[i]) {
          if i < n - 1 {
            PlacedPersists(p.tree, t', job, src, col, syms[i]);
          }
        }
      }
    }
  }

  lemma OneStep(t: Tree, job: Job, sym: Cell, src: Frame, table: string, col: string, hours: set<int>)
    requires Queries(job, src, table, col) && SourceOk(src) && job.hour in hours
    requires InSource(src, col, job.hour, sym) && Agrees(t, src, table, col, hours)
    ensures var (t', step) := ExportSymbol(t, job, sym);
      Agrees(t', src, table, col, hours) && KeepsShards(t, t') && (!step.Stopped? ==> Placed(t', job, src, col, sym))
  {
    hide Agrees, SourceOk, Queries, ExportSymbol, KeepsShards, InSource, OutFile, UsableSymbol, Holds;
    ExportSymbolAgrees(t, job, sym, src, table, col, hours);
    ExportSymbolKeepsShards(t, job, sym);
  }

  /** One call, killed or failed at any step or not, keeps agreement; if it returns, its hour is complete. */
  lemma ExportAgrees(t: Tree, job: Job, src: Frame, table: string, col: string, hours: set<int>)
    requires Queries(job, src, table, col) && SourceOk(src) && Agrees(t, src, table, col, hours)
    ensures var (t', o) := Export(t, job);
      && Agrees(t', src, table, col, hours + {job.hour})
      && (o.Returned? ==> Complete(t', src, table, col, job.hour))
  {
    hide SourceOk, ExportFirst, InSource, IsShardName, IsShardOf, Holds, UsableSymbol;
    var all := hours + {job.hour};
    AgreesWithMoreHours(t, src, table, col, hours, all);
    if Guard(job).None? {
      var syms := UniqueSymbols(job.rows);
      ExportFirstAgrees(t, job, |syms|, src, table, col, all);
      StopIsNotReturn(t, job, syms, |syms|);
      var p := ExportFirst(t, job, syms, |syms|);
      if p.stop.None? {
        forall sym | InSource(src, col, job.hour, sym) ensures Placed(p.tree, job, src, col, sym) {
          QueriedSymbols(job, src, table, col, sym);
        }
      }
    }
  }

  lemma AgreesWithMoreHours(t: Tree, src: Frame, table: string, col: string, hours: set<int>, more: set<int>)
    requires Agrees(t, src, table, col, hours) && hours <= more
    ensures Agrees(t, src, table, col, more)
  {
    hide IsShardOf, IsShardName;
    forall p | p in t && p.table == table && IsShardName(p.name)
      ensures exists hour, sym :: hour in more && IsShardOf(t, p, src, col, hour, sym)
    {
      var hour, sym :| hour in hours && IsShardOf(t, p, src, col, hour, sym);
      assert hour in more;
    }
  }

  lemma CompletePersists(t: Tree, t': Tree, src: Frame, table: string, col: string, hour: int)
    requires KeepsShards(t, t') && Complete(t, src, table, col, hour)
    ensures Complete(t', src, table, col, hour)
  {
    hide Holds, UsableSymbol, InSource, IsShardName, ShardName;
    forall sym | InSource(src, col, hour, sym)
      ensures var p := ShardPath(table, hour, sym);
        UsableSymbol(sym) && p in t' && Holds(t'[p], src, col, hour, sym)
    {
      ShardNameIsShard(PartName(sym));
    }
  }

  // ----- a call for one table leaves the others alone -----

  /** The two trees hold the same files below the table. */
  ghost predicate SameTable(t: Tree, t': Tree, table: string) {
    forall p: Path :: p.table == table ==> (p in t' <==> p in t) && (p in t ==> t'[p] == t[p])
  }

  lemma ExportSymbolLeavesTable(t: Tree, job: Job, sym: Cell, table: string)
    requires job.table != table
    ensures SameTable(t, ExportSymbol(t, job, sym).0, table)
  {
    hide ShardName, TmpName, SubFrame, UsableSymbol, DataEquals;
    assert OutFile(job, sym).table == job.table && TmpFile(job, sym).table == job.table;
    hide OutFile, TmpFile;
  }

  lemma {:induction false} ExportFirstLeavesTable(t: Tree, job: Job, syms: seq<Cell>, n: nat, table: string)
    requires job.table != table && n <= |syms|
    ensures SameTable(t, ExportFirst(t, job, syms, n).tree, table)
  {
    hide ExportSymbol;
    if n > 0 {
      ExportFirstLeavesTable(t, job, syms, n - 1, table);
      ExportSymbolLeavesTable(ExportFirst(t, job, syms, n - 1).tree, job, syms[n - 1], table);
    }
  }

  /** A call for another table, however it ends, changes no file of this one. */
  lemma ExportLeavesTable(t: Tree, job: Job, table: string)
    requires job.table != table
    ensures SameTable(t, Export(t, job).0, table)
  {
    hide ExportFirst;
    if Guard(job).None? {
      var syms := UniqueSymbols(job.rows);
      ExportFirstLeavesTable(t, job, syms, |syms|, table);
    }
  }

  lemma SameTableAgrees(t: Tree, t': Tree, src: Frame, table: string, col: string, hours: set<int>)
    requires SameTable(t, t', table) && Agrees(t, src, table, col, hours)
    ensures Agrees(t', src, table, col, hours)
  {
    hide ShardPath, UsableSymbol, InSource, Holds, IsShardName;
    forall p | p in t' && p.table == table && IsShardName(p.name)
      ensures exists hour, sym :: hour in hours && IsShardOf(t', p, src, col, hour, sym)
    {
      var hour, sym :| hour in hours && IsShardOf(t, p, src, col, hour, sym);
      assert IsShardOf(t', p, src, col, hour, sym);
    }
  }

  // ----- runs -----

  function RunExports(t: Tree, jobs: seq<Job>, n: nat): Tree
    requires n <= |jobs|
  {
    if n == 0 then t else Export(RunExports(t, jobs, n - 1), jobs[n - 1]).0
  }

  /** The hours of the first n calls that were for this table. */
  function HoursOf(jobs: seq<Job>, n: nat, table: string): set<int>
    requires n <= |jobs|
  {
    if n == 0 then {} else HoursOf(jobs, n - 1, table) + (if jobs[n - 1].table == table then {jobs[n - 1].hour} else {})
  }

  /** Call i of the run was for this table and returned normally. */
  predicate ReturnedAt(t: Tree, jobs: seq<Job>, i: nat, table: string)
    requires i < |jobs|
  {
    jobs[i].table == table && Export(RunExports(t, jobs, i), jobs[i]).1.Returned?
  }

  /** The calls for this table saw its source; what the others queried does not matter. */
  ghost predicate QueryTable(jobs: seq<Job>, n: nat, src: Frame, table: string, col: string)
    requires n <= |jobs|
  {
    forall i :: 0 <= i < n && jobs[i].table == table ==> Queries(jobs[i], src, table, col)
  }

  /** One more call of a run, for this table or another. */
  lemma RunStepAgrees(t: Tree, job: Job, src: Frame, table: string, col: string, hours: set<int>)
    requires SourceOk(src) && Agrees(t, src, table, col, hours)
    requires job.table == table ==> Queries(job, src, table, col)
    ensures var (t', o) := Export(t, job);
      && Agrees(t', src, table, col, hours + (if job.table == table then {job.hour} else {}))
      && KeepsShards(t, t')
      && (job.table == table && o.Returned? ==> Complete(t', src, table, col, job.hour))
  {
    hide SourceOk, Agrees, Queries, Export, Complete, KeepsShards, SameTable;
    ShardsAreImmutable(t, job);
    if job.table == table {
      ExportAgrees(t, job, src, table, col, hours);
    } else {
      ExportLeavesTable(t, job, table);
      SameTableAgrees(t, Export(t, job).0, src, table, col, hours);
      assert hours + {} == hours;
    }
  }

  /**
   * After any run of calls, for this table and others, the table's files agree with its source, and every hour of it
   * that returned once is complete.
   */
  lemma {:induction false} RunAgrees(t: Tree, jobs: seq<Job>, n: nat, src: Frame, table: string, col: string)
    requires SourceOk(src) && Agrees(t, src, table, col, {}) && n <= |jobs| && QueryTable(jobs, n, src, table, col)
    ensures Agrees(RunExports(t, jobs, n), src, table, col, HoursOf(jobs, n, table))
    ensures forall i :: 0 <= i < n && ReturnedAt(t, jobs, i, table) ==>
      Complete(RunExports(t, jobs, n), src, table, col, jobs[i].hour)
  {
    hide SourceOk, Agrees, Queries, Export, Complete, KeepsShards;
    if n > 0 {
      RunAgrees(t, jobs, n - 1, src, table, col);
      var u := RunExports(t, jobs, n - 1);
      RunStepAgrees(u, jobs[n - 1], src, table, col, HoursOf(jobs, n - 1, table));
      forall i | 0 <= i < n && ReturnedAt(t, jobs, i, table)
        ensures Complete(RunExports(t, jobs, n), src, table, col, jobs[i].hour)
      {
        if i < n - 1 {
          CompletePersists(u, RunExports(t, jobs, n), src, table, col, jobs[i].hour);
        }
      }
    }
  }

  // ----- recovery -----

  /**
   * Nothing goes wrong in a call that compares what is there: check mode, an accepted hour, usable symbols, smooth
   * writes.
   */
  ghost predicate UndisturbedCheck(job: Job) {
    && job.mode.Check? && job.aware
    && (job.table == "ticks" || job.table == "quotes" || job.table == "news")
    && forall sym :: sym in UniqueSymbols(job.rows) ==> UsableSymbol(sym) && job.fate(sym).Smooth?
  }

  /** A shard of an agreeing tree matches what a call for its hour queries. */
  lemma AgreeingShardMatches(t: Tree, job: Job, sym: Cell, src: Frame, table: string, col: string, hours: set<int>)
    requires Queries(job, src, table, col) && SourceOk(src) && Agrees(t, src, table, col, hours)
    requires UsableSymbol(sym) && !sym.Num? && OutFile(job, sym) in t
    ensures var f := t[OutFile(job, sym)]; f.Parquet? && DataEquals(f.frame, SubFrame(job, sym))
  {
    hide InSource, IsShardName, TmpFile, DataEquals, UsableSymbol, ShardPath, Queries, WellFormed, SourceRows, SubFrame;
    var out := OutFile(job, sym);
    TmpIsNotOut(job, sym);
    OutFileIsShardPath(job, sym, src, table, col);
    var hour, s :| hour in hours && IsShardOf(t, out, src, col, hour, s);
    ShardPathInjective(table, job.hour, sym, hour, s);
    SubFrameHolds(job, src, table, col, sym);
    DataEqualsIsBagEquality(t[out].frame, SubFrame(job, sym));
  }

  /** On an agreeing tree, whatever a killed or failed call left, one undisturbed check-mode call completes its hour. */
  lemma CheckCompletes(t: Tree, job: Job, src: Frame, table: string, col: string, hours: set<int>)
    requires Queries(job, src, table, col) && SourceOk(src) && Agrees(t, src, table, col, hours)
    requires UndisturbedCheck(job)
    ensures Export(t, job).1.Returned? && Complete(Export(t, job).0, src, table, col, job.hour)
  {
    hide SourceOk, Queries, Agrees, Complete, Export, DataEquals, UsableSymbol, SymbolOf, SubFrame, OutFile;
    QueriedSymbolsAreText(job, src, table, col);
    forall sym | sym in UniqueSymbols(job.rows) ensures GoesThrough(t, job, sym) {
      var i :| 0 <= i < |job.rows| && SymbolOf(job.rows[i]) == sym;
      if OutFile(job, sym) in t {
        AgreeingShardMatches(t, job, sym, src, table, col, hours);
      }
    }
    ReturnsExactly(t, job);
    ExportAgrees(t, job, src, table, col, hours);
  }

  lemma QueriedSymbolsAreText(job: Job, src: Frame, table: string, col: string)
    requires Queries(job, src, table, col) && SourceOk(src)
    ensures forall i :: 0 <= i < |job.rows| ==> !SymbolOf(job.rows[i]).Num?
  {
    hide Queries, SymbolOf, WellFormed;
    forall i | 0 <= i < |job.rows| ensures !SymbolOf(job.rows[i]).Num? {
      QueriedRows(job, src, table, col, job.rows[i]);
      var j :| 0 <= j < |src.rows| && src.rows[j] == job.rows[i];
    }
  }

  // ----- conservation -----

  predicate TableShard(p: Path, table: string) { p.table == table && IsShardName(p.name) }

  /** How often row r occurs in file p. */
  function CopiesIn(t: Tree, p: Path, r: Row): nat {
    if p in t && t[p].Parquet? then multiset(t[p].frame.rows)[r] else 0
  }

  /** How often r occurs in the given files together. */
  ghost function CopiesUnder(t: Tree, ps: set<Path>, r: Row): nat {
    if ps == {} then 0 else var p :| p in ps; CopiesIn(t, p, r) + CopiesUnder(t, ps - {p}, r)
  }

  lemma {:induction false} CopiesOnlyIn(t: Tree, ps: set<Path>, r: Row, q: Path)
    requires forall p :: p in ps && p != q ==> CopiesIn(t, p, r) == 0
    ensures CopiesUnder(t, ps, r) == if q in ps then CopiesIn(t, q, r) else 0
  {
    if ps != {} {
      var p :| p in ps && CopiesUnder(t, ps, r) == CopiesIn(t, p, r) + CopiesUnder(t, ps - {p}, r);
      CopiesOnlyIn(t, ps - {p}, r, q);
    }
  }

  function HourOf(col: string, r: Row): Option<int> {
    match TimeOf(col, r)
    case Some(t) => Some(t / US_PER_HOUR)
    case None => None
  }

  lemma InHourIsHourOf(col: string, hour: int, r: Row)
    ensures InHour(col, hour)(r) <==> HourOf(col, r) == Some(hour)
  {
  }

  /** A shard holds a row only under the row's own hour and symbol, and then every copy the source has. */
  lemma ShardCopies(t: Tree, p: Path, src: Frame, col: string, hour: int, sym: Cell, r: Row)
    requires p in t && IsShardOf(t, p, src, col, hour, sym)
    ensures CopiesIn(t, p, r) == if HourOf(col, r) == Some(hour) && SymbolOf(r) == sym then multiset(src.rows)[r] else 0
  {
    hide ShardPath, UsableSymbol, WellFormed, HourOf;
    FilterCounts(HasSymbol(sym), Filter(InHour(col, hour), src.rows), r);
    FilterCounts(InHour(col, hour), src.rows, r);
    InHourIsHourOf(col, hour, r);
  }

  function InHours(col: string, hours: set<int>): Row -> bool {
    (r: Row) => HourOf(col, r).Some? && HourOf(col, r).value in hours
  }

  /** The source rows of the given hours. */
  function SpanRows(src: Frame, col: string, hours: set<int>): seq<Row> {
    Filter(InHours(col, hours), src.rows)
  }

  /** The file a row belongs to; a row without a time belongs to none. */
  predicate BelongsTo(p: Path, table: string, col: string, r: Row) {
    HourOf(col, r).Some? && p == ShardPath(table, HourOf(col, r).value, SymbolOf(r))
  }

  /** The shards of the table. */
  function ShardsOf(t: Tree, table: string): set<Path> {
    set p | p in t && TableShard(p, table)
  }

  /** A source row of a completed hour: its shard is in the tree. */
  lemma RowHasShard(t: Tree, src: Frame, table: string, col: string, hours: set<int>, r: Row) returns (q: Path)
    requires Agrees(t, src, table, col, hours) && SourceOk(src)
    requires r in src.rows && InHours(col, hours)(r) && Complete(t, src, table, col, HourOf(col, r).value)
    ensures q in ShardsOf(t, table) && BelongsTo(q, table, col, r)
    ensures IsShardOf(t, q, src, col, HourOf(col, r).value, SymbolOf(r))
  {
    hide Agrees, WellFormed, HourOf, UsableSymbol, Holds, IsShardName, ShardName;
    var hour, sym := HourOf(col, r).value, SymbolOf(r);
    InHourIsHourOf(col, hour, r);
    var i :| 0 <= i < |src.rows| && src.rows[i] == r;
    assert InSource(src, col, hour, sym);
    ShardNameIsShard(PartName(sym));
    q := ShardPath(table, hour, sym);
  }

  /** Only the row's own shard holds it. */
  lemma OtherShardsLackRow(t: Tree, src: Frame, table: string, col: string, hours: set<int>, r: Row)
    requires Agrees(t, src, table, col, hours)
    ensures forall p :: p in ShardsOf(t, table) && CopiesIn(t, p, r) > 0 ==>
      BelongsTo(p, table, col, r) && InHours(col, hours)(r) && r in src.rows
  {
    hide IsShardName, ShardPath, UsableSymbol, HourOf, CopiesIn;
    forall p | p in ShardsOf(t, table) && CopiesIn(t, p, r) > 0
      ensures BelongsTo(p, table, col, r) && InHours(col, hours)(r) && r in src.rows
    {
      var hour, sym :| hour in hours && IsShardOf(t, p, src, col, hour, sym);
      ShardCopies(t, p, src, col, hour, sym, r);
      assert r in multiset(src.rows);
    }
  }

  predicate HasCopies(t: Tree, table: string, p: Path, r: Row) {
    p in ShardsOf(t, table) && p in t && t[p].Parquet? && r in t[p].frame.rows
  }

  /** The copies of r below the table are the source's copies in these hours, and they lie in one shard. */
  ghost predicate Conserved(t: Tree, src: Frame, table: string, col: string, hours: set<int>, r: Row) {
    && CopiesUnder(t, ShardsOf(t, table), r) == multiset(SpanRows(src, col, hours))[r]
    && forall p, q :: HasCopies(t, table, p, r) && HasCopies(t, table, q, r) ==> p == q
  }

  /**
   * Conservation: once every hour of a run has returned normally at least once, each row occurs under the table
   * exactly as often as in the source rows of those hours, and all its copies are in one shard.
   */
  lemma RowsConserved(t: Tree, src: Frame, table: string, col: string, hours: set<int>, r: Row)
    requires Agrees(t, src, table, col, hours) && SourceOk(src)
    requires forall h :: h in hours ==> Complete(t, src, table, col, h)
    ensures Conserved(t, src, table, col, hours, r)
  {
    hide Agrees, SourceOk, CopiesUnder, SpanRows;
    CopiesAreInOwnShard(t, src, table, col, hours, r);
    forall p, q | HasCopies(t, table, p, r) && HasCopies(t, table, q, r) ensures p == q {
      OtherShardsLackRow(t, src, table, col, hours, r);
    }
  }

  lemma CopiesAreInOwnShard(t: Tree, src: Frame, table: string, col: string, hours: set<int>, r: Row)
    requires Agrees(t, src, table, col, hours) && SourceOk(src)
    requires forall h :: h in hours ==> Complete(t, src, table, col, h)
    ensures CopiesUnder(t, ShardsOf(t, table), r) == multiset(SpanRows(src, col, hours))[r]
  {
    hide Agrees, SourceOk, Complete, CopiesIn, ShardPath, IsShardOf, HourOf, ShardsOf, CopiesUnder;
    OtherShardsLackRow(t, src, table, col, hours, r);
    FilterCounts(InHours(col, hours), src.rows, r);
    assert r in multiset(src.rows) <==> r in src.rows;
    if r in src.rows && InHours(col, hours)(r) {
      var q := RowHasShard(t, src, table, col, hours, r);
      CopiesOnlyIn(t, ShardsOf(t, table), r, q);
      ShardInTree(t, table, q);
      ShardCopies(t, q, src, col, HourOf(col, r).value, SymbolOf(r), r);
    } else {
      CopiesNowhere(t, ShardsOf(t, table), r);
    }
  }

  lemma {:induction false} CopiesNowhere(t: Tree, ps: set<Path>, r: Row)
    requires forall p :: p in ps ==> CopiesIn(t, p, r) == 0
    ensures CopiesUnder(t, ps, r) == 0
  {
    if ps != {} {
      var p :| p in ps && CopiesUnder(t, ps, r) == CopiesIn(t, p, r) + CopiesUnder(t, ps - {p}, r);
      CopiesNowhere(t, ps - {p}, r);
    }
  }

  lemma ShardInTree(t: Tree, table: string, p: Path)
    requires p in ShardsOf(t, table)
    ensures p in t
  {
  }

  /** Every hour this table was called for returned at least once. */
  ghost predicate AllReturned(t: Tree, jobs: seq<Job>, table: string) {
    forall h :: h in HoursOf(jobs, |jobs|, table) ==>
      exists i :: 0 <= i < |jobs| && jobs[i].hour == h && ReturnedAt(t, jobs, i, table)
  }

  /** Every hour this table was called for has an undisturbed check-mode call somewhere in the run. */
  ghost predicate EachHourChecked(jobs: seq<Job>, table: string) {
    forall h :: h in HoursOf(jobs, |jobs|, table) ==>
      exists i :: 0 <= i < |jobs| && jobs[i].table == table && jobs[i].hour == h && UndisturbedCheck(jobs[i])
  }

  /** Recovery: kills, failures and fail-mode calls around them notwithstanding, those check-mode calls all return. */
  lemma CheckedHoursReturn(t: Tree, jobs: seq<Job>, src: Frame, table: string, col: string)
    requires SourceOk(src) && Agrees(t, src, table, col, {})
    requires QueryTable(jobs, |jobs|, src, table, col) && EachHourChecked(jobs, table)
    ensures AllReturned(t, jobs, table)
  {
    hide SourceOk, Agrees, Queries, Export, UndisturbedCheck, Complete;
    forall h | h in HoursOf(jobs, |jobs|, table)
      ensures exists i :: 0 <= i < |jobs| && jobs[i].hour == h && ReturnedAt(t, jobs, i, table)
    {
      var i :| 0 <= i < |jobs| && jobs[i].table == table && jobs[i].hour == h && UndisturbedCheck(jobs[i]);
      RunAgrees(t, jobs, i, src, table, col);
      CheckCompletes(RunExports(t, jobs, i), jobs[i], src, table, col, HoursOf(jobs, i, table));
      assert ReturnedAt(t, jobs, i, table);
    }
  }

  /** The whole story: any run of calls for any tables, from a tree without shards of this one, its source unchanged. */
  lemma RunConservesRows(t: Tree, jobs: seq<Job>, src: Frame, table: string, col: string, r: Row)
    requires SourceOk(src) && forall p :: p in t ==> !TableShard(p, table)
    requires QueryTable(jobs, |jobs|, src, table, col) && AllReturned(t, jobs, table)
    ensures Conserved(RunExports(t, jobs, |jobs|), src, table, col, HoursOf(jobs, |jobs|, table), r)
  {
    hide SourceOk, QueryTable, Complete, ReturnedAt, Conserved, IsShardName;
    assert Agrees(t, src, table, col, {}) by {
      forall p | p in t ensures !(p.table == table && IsShardName(p.name)) {
        assert !TableShard(p, table);
      }
    }
    RunAgrees(t, jobs, |jobs|, src, table, col);
    RowsConserved(RunExports(t, jobs, |jobs|), src, table, col, HoursOf(jobs, |jobs|, table), r);
  }
}
