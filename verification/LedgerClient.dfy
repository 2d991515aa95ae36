/** The ledger's only writer: genesis seeding, append, and what every run of them keeps. */
module LedgerClient {
  import opened Basics
  import opened Encoding
  import opened Calendar
  import opened CanonicalJson
  import opened Framing
  import opened HashChain
  import opened LedgerTable
  import opened JsonReader
  import opened PolicyVersion
  import opened SegmentHash
  import opened Sorting
  import opened VerifyLedger

  const EMPTY_PARAM_HASH := "44136fa355b3678a1146ad16f7e8649e94fb4fc21fe77e8310c060f61caaff8a"

  datatype EventType = Genesis | SchemaSegmentTransition

  function EventName(e: EventType): string {
    match e
    case Genesis => "genesis"
    case SchemaSegmentTransition => "schema_segment_transition"
  }

  /** The table and the next value of its id sequence, which no failed insert gives back. */
  datatype Table = Table(rows: seq<LedgerRow>, nextId: int)

  /** What the clock and the caller put in the columns that are not hashed. */
  datatype Stamp = Stamp(timestamp: int, moduleVersion: string, createdAt: int)

  function MakeRow(h: Digest, e: Entry, paramHash: string, id: int, stamp: Stamp): LedgerRow {
    LedgerRow(id, stamp.timestamp, stamp.moduleVersion, e, EntryHash(h, e), paramHash, stamp.createdAt)
  }

  predicate HasId(rows: seq<LedgerRow>, id: int) {
    exists i :: 0 <= i < |rows| && rows[i].id == id
  }

  /** INSERT with nextval; fails stands for any other error the database raises. */
  function InsertRow(t: Table, row: LedgerRow, fails: bool): Table
    requires row.id == t.nextId
  {
    if fails || !CheckConstraint(row) || HasId(t.rows, row.id) then t.(nextId := t.nextId + 1)
    else Table(t.rows + [row], t.nextId + 1)
  }

  /** ORDER BY id DESC LIMIT 1 */
  function LastById(rows: seq<LedgerRow>): (r: LedgerRow)
    requires rows != []
    ensures r in rows && forall q :: q in rows ==> q.id <= r.id
  {
    var last := rows[|rows| - 1];
    if |rows| == 1 then last
    else
      var r := LastById(rows[..|rows| - 1]);
      assert rows == rows[..|rows| - 1] + [last];
      if r.id < last.id then last else r
  }

  function GenesisPayload(sha: string): Json {
    Obj([Field("note", Text("ledger genesis " + ("\U{2014}" + " chain segment start"))),
         Field("policy_version_git_sha", Text(sha))])
  }

  function GenesisEntry(sha: string, userId: int): Entry {
    Entry(None, Serialize(GenesisPayload(sha)), sha, "genesis", userId)
  }

  function SeedGenesis(h: Digest, commit: string, t: Table, userId: int, stamp: Stamp, fails: bool): Table {
    if HasId(t.rows, 1) then t
    else
      var e := GenesisEntry(ExtractPolicySha(commit), userId);
      InsertRow(t, MakeRow(h, e, EMPTY_PARAM_HASH, t.nextId, stamp), fails)
  }

  /** One append; commit is the `git describe` text of the build that makes it. */
  datatype AppendCall = AppendCall(
    commit: string, userId: int, eventType: EventType, payload: Json, paramHash: string, stamp: Stamp, fails: bool)

  datatype AppendResult = Appended(id: int) | NoGenesis | InsertFailed

  function AppendedRow(h: Digest, t: Table, c: AppendCall): LedgerRow
    requires t.rows != []
  {
    var prev := Some(LastById(t.rows).thisHash);
    var e := Entry(prev, Serialize(c.payload), ExtractPolicySha(c.commit), EventName(c.eventType), c.userId);
    MakeRow(h, e, c.paramHash, t.nextId, c.stamp)
  }

  function AppendTo(h: Digest, t: Table, c: AppendCall): Table {
    if t.rows == [] then t else InsertRow(t, AppendedRow(h, t, c), c.fails)
  }

  // ----- the classes -----

  /** A database connection; clients share it. */
  class Connection {
    var rows: seq<LedgerRow>
    var nextId: int

    ghost function State(): Table
      reads this
    {
      Table(rows, nextId)
    }

    constructor ()
      ensures State() == Table([], 1)
    {
      rows, nextId := [], 1;
    }

    /** Inserts row under the next id; the id is burned even when the insert fails. */
    method Insert(row: LedgerRow, fails: bool) returns (ok: bool)
      modifies this
      ensures State() == InsertRow(old(State()), row.(id := old(nextId)), fails)
      ensures ok <==> rows == old(rows) + [row.(id := old(nextId))]
      ensures !ok ==> rows == old(rows)
      ensures nextId == old(nextId) + 1
      ensures ok <==>
        && !fails && (forall r :: r in old(rows) ==> r.id != old(nextId))
        && (if row.entry.prev.None? then old(nextId) == 1 else old(nextId) > 1)
    {
      var stored := row.(id := nextId);
      nextId := nextId + 1;
      ok := !fails && CheckConstraint(stored) && !HasId(rows, stored.id);
      if ok {
        rows := rows + [stored];
      }
    }
  }

  class Client {
    const h: Digest
    const commit: string
    const conn: Connection
    const userId: int

    /** The fields, before genesis is looked for. */
    constructor (h: Digest, commit: string, conn: Connection, userId: int)
      ensures this.h == h && this.commit == commit && this.conn == conn && this.userId == userId
    {
      this.h, this.commit, this.conn, this.userId := h, commit, conn, userId;
    }

    /**
     * Opens a client; `fails` is the fate of the genesis insert, if one is needed. A failed insert raises: no client.
     */
    static method Open(h: Digest, commit: string, conn: Connection, userId: int, stamp: Stamp, fails: bool)
      returns (c: Option<Client>)
      modifies conn
      ensures conn.State() == SeedGenesis(h, commit, old(conn.State()), userId, stamp, fails)
      ensures c.Some? <==> HasId(conn.rows, 1)
      ensures c.Some? ==> c.value.h == h && c.value.commit == commit && c.value.conn == conn && c.value.userId == userId
    {
      var client := new Client(h, commit, conn, userId);
      var ok := client.EnsureGenesis(stamp, fails);
      c := if ok then Some(client) else None;
    }

    /** False stands for the error a failed insert raises; then row 1 is still missing. */
    method EnsureGenesis(stamp: Stamp, fails: bool) returns (ok: bool)
      modifies conn
      ensures conn.State() == SeedGenesis(h, commit, old(conn.State()), userId, stamp, fails)
      ensures ok <==> HasId(conn.rows, 1)
    {
      if HasId(conn.rows, 1) {
        return true;
      }
      var e := GenesisEntry(ExtractPolicySha(commit), userId);
      ok := conn.Insert(MakeRow(h, e, EMPTY_PARAM_HASH, conn.nextId, stamp), fails);
      assert ok ==> conn.rows[|old(conn.rows)|].id == 1;
    }

    /** Appends one entry and returns its id; the result tells a raised error apart. */
    method Append(eventType: EventType, payload: Json, paramHash: string, stamp: Stamp, fails: bool)
      returns (r: AppendResult)
      modifies conn
      ensures conn.State()
           == AppendTo(h, old(conn.State()), AppendCall(commit, userId, eventType, payload, paramHash, stamp, fails))
      ensures r.NoGenesis? <==> old(conn.rows) == []
      ensures r.Appended? ==> |conn.rows| == |old(conn.rows)| + 1 && conn.rows[|old(conn.rows)|].id == r.id
      ensures !r.Appended? ==> conn.rows == old(conn.rows)
    {
      if conn.rows == [] {
        return NoGenesis;
      }
      var prevHash := LastById(conn.rows).thisHash;
      var e := Entry(Some(prevHash), Serialize(payload), ExtractPolicySha(commit), EventName(eventType), userId);
      var ok := conn.Insert(MakeRow(h, e, paramHash, conn.nextId, stamp), fails);
      r := if ok then Appended(conn.nextId - 1) else InsertFailed;
    }
  }

  // ----- runs -----

  /** A step of a run; each names the build that takes it. */
  datatype Step = Construct(commit: string, userId: int, stamp: Stamp, fails: bool) | Append(call: AppendCall)

  function Apply(h: Digest, t: Table, s: Step): Table {
    match s
    case Construct(commit, userId, stamp, fails) => SeedGenesis(h, commit, t, userId, stamp, fails)
    case Append(c) => AppendTo(h, t, c)
  }

  function Run(h: Digest, t: Table, steps: seq<Step>): Table
    decreases |steps|
  {
    if steps == [] then t else Run(h, Apply(h, t, steps[0]), steps[1..])
  }

  /** The table right after the first client seeded its genesis row. */
  function Seeded(h: Digest, commit: string, userId: int, stamp: Stamp): Table {
    SeedGenesis(h, commit, Table([], 1), userId, stamp, false)
  }

  predicate TableNulFree(rows: seq<LedgerRow>) {
    forall i :: 0 <= i < |rows| ==> FieldsNulFree(rows[i].entry)
  }

  /** What every reachable table satisfies. */
  ghost predicate Chained(h: Digest, t: Table) {
    && t.rows != [] && t.rows[0].id == 1
    && IdsIncrease(t.rows) && t.rows[|t.rows| - 1].id < t.nextId
    && Clean(h, t.rows)
    && TableNulFree(t.rows)
  }

  /** An entry whose prev is null or a digest, whose payload is canonical and whose event is in the enum. */
  lemma WrittenEntryPlain(h: Digest, commit: string, prev: Option<string>, payload: Json, event: string, userId: int)
    requires prev.None? || IsHex64(prev.value)
    requires event == "genesis" || event == "schema_segment_transition"
    ensures var e := Entry(prev, Serialize(payload), ExtractPolicySha(commit), event, userId);
      Encodable(e) && FieldsNulFree(e)
  {
    hide Serialize, ExtractPolicySha;
    SerializePrintable(payload);
    ExtractIsAscii(commit);
    if prev.Some? {
      HexIsPlain(prev.value);
    }
  }

  lemma SeededChained(h: Digest, commit: string, userId: int, stamp: Stamp)
    ensures Chained(h, Seeded(h, commit, userId, stamp))
    ensures var t := Seeded(h, commit, userId, stamp);
      |t.rows| == 1 && t.nextId == 2 && t.rows[0].entry.eventType == "genesis" && t.rows[0].entry.userId == userId
      && t.rows[0].entry.policySha == ExtractPolicySha(commit)
  {
    hide Serialize, ExtractPolicySha, EntryHash;
    WrittenEntryPlain(h, commit, None, GenesisPayload(ExtractPolicySha(commit)), "genesis", userId);
  }

  lemma LastByIdIsLast(rows: seq<LedgerRow>)
    requires rows != [] && IdsIncrease(rows)
    ensures LastById(rows) == rows[|rows| - 1]
  {
    var r := LastById(rows);
    var i :| 0 <= i < |rows| && rows[i] == r;
    assert rows[|rows| - 1] in rows;
  }

  lemma HashIsHex64(h: Digest, e: Entry)
    ensures IsHex64(EntryHash(h, e))
  {
  }

  /** One append on a chained table: the chain grows by one linked row, or only an id is burned. */
  lemma AppendKeepsChain(h: Digest, t: Table, c: AppendCall)
    requires Chained(h, t)
    ensures var t' := AppendTo(h, t, c); var row := AppendedRow(h, t, c);
      && Chained(h, t')
      && t'.rows == (if c.fails then t.rows else t.rows + [row])
      && t'.nextId == t.nextId + 1
      && row.id == t.nextId && row.entry.prev == Some(t.rows[|t.rows| - 1].thisHash)
  {
    hide Serialize, ExtractPolicySha, EntryHash, Encodable, FieldsNulFree, IsHex64;
    var (rows, n) := (t.rows, |t.rows|);
    LastByIdIsLast(rows);
    assert RowOk(h, rows, n - 1);
    HashIsHex64(h, rows[n - 1].entry);
    WrittenEntryPlain(h, c.commit, Some(rows[n - 1].thisHash), c.payload, EventName(c.eventType), c.userId);
    var row := AppendedRow(h, t, c);
    assert !HasId(rows, row.id) by {
      forall i | 0 <= i < n ensures rows[i].id < row.id {
      }
    }
    assert row.id > 1;
    CleanExtends(h, rows, row);
  }

  lemma CleanExtends(h: Digest, rows: seq<LedgerRow>, row: LedgerRow)
    requires Clean(h, rows) && rows != [] && Encodable(row.entry)
    requires row.entry.prev == Some(rows[|rows| - 1].thisHash) && row.thisHash == EntryHash(h, row.entry)
    ensures Clean(h, rows + [row])
  {
    hide EntryHash, Encodable;
    var all := rows + [row];
    forall i | 0 <= i < |all| ensures RowOk(h, all, i) {
      if i < |rows| {
        assert RowOk(h, rows, i);
      } else {
        assert RowOk(h, rows, i - 1);
      }
    }
  }

  lemma ApplyKeepsChain(h: Digest, t: Table, s: Step)
    requires Chained(h, t)
    ensures Chained(h, Apply(h, t, s)) && t.rows <= Apply(h, t, s).rows
  {
    hide Chained, AppendedRow, InsertRow;
    match s
    case Construct(_, _, _, _) =>
      ChainedNotEmpty(h, t);
    case Append(c) => AppendKeepsChain(h, t, c);
  }

  lemma ChainedNotEmpty(h: Digest, t: Table)
    requires Chained(h, t)
    ensures t.rows != [] && HasId(t.rows, 1)
  {
    assert t.rows[0].id == 1;
  }

  /** Every run keeps the chain and only grows the table at its end. */
  lemma {:induction false} RunKeepsChain(h: Digest, t: Table, steps: seq<Step>)
    requires Chained(h, t)
    ensures Chained(h, Run(h, t, steps)) && t.rows <= Run(h, t, steps).rows
    decreases |steps|
  {
    hide Chained, Apply;
    if steps != [] {
      ApplyKeepsChain(h, t, steps[0]);
      RunKeepsChain(h, Apply(h, t, steps[0]), steps[1..]);
    }
  }

  /** In a chained table the verifier reports nothing and only the first row has a null prev. */
  lemma ChainedMeansVerified(h: Digest, t: Table)
    requires Chained(h, t)
    ensures AllEncodable(t.rows) && LocalReports(h, t.rows, |t.rows|) == []
    ensures forall i :: 0 <= i < |t.rows| ==> (t.rows[i].entry.prev.None? <==> i == 0)
    ensures forall i :: 0 <= i < |t.rows| ==> CheckConstraint(t.rows[i])
  {
    hide EntryHash, Encodable, LocalReports;
    forall i | 0 <= i < |t.rows|
      ensures Encodable(t.rows[i].entry) && (t.rows[i].entry.prev.None? <==> i == 0)
    {
      assert RowOk(h, t.rows, i);
    }
    NoReportsIffClean(h, t.rows, |t.rows|);
  }

  lemma NulFreeTableIsFramed(rows: seq<LedgerRow>)
    requires TableNulFree(rows)
    ensures TableFramed(rows)
  {
    hide FieldsNulFree, Framed;
    forall i | 0 <= i < |rows| ensures Framed(rows[i].entry) {
      NulFreeIsFramed(rows[i].entry);
    }
  }

  /** A run from an empty database: its table verifies clean, and its tip commits to it against every other table. */
  lemma RunTipCommits(h: Digest, commit: string, userId: int, stamp: Stamp, steps: seq<Step>, other: seq<LedgerRow>)
    ensures var rows := Run(h, Seeded(h, commit, userId, stamp), steps).rows;
      && rows != [] && Clean(h, rows)
      && (Clean(h, other) && other != [] && other[|other| - 1].thisHash == rows[|rows| - 1].thisHash ==>
            SameHistory(rows, other) || CollisionBetween(h, rows, other))
  {
    hide Seeded, Run, Clean, TableNulFree, TableFramed, SameHistory, CollisionBetween;
    SeededChained(h, commit, userId, stamp);
    var t := Run(h, Seeded(h, commit, userId, stamp), steps);
    RunKeepsChain(h, Seeded(h, commit, userId, stamp), steps);
    NulFreeTableIsFramed(t.rows);
    if Clean(h, other) && other != [] && other[|other| - 1].thisHash == t.rows[|t.rows| - 1].thisHash {
      TipCommitsToHistory(h, t.rows, other);
    }
  }

  // ----- the table is the log of the appends that succeeded -----

  /** What a reader of the table sees of one append, besides the chain. */
  datatype LogEntry = LogEntry(
      id: int, event: string, payloadJson: string, sha: string, userId: int, paramHash: string, stamp: Stamp)

  function LogOf(row: LedgerRow): LogEntry {
    LogEntry(row.id, row.entry.eventType, row.entry.payloadJson, row.entry.policySha, row.entry.userId, row.paramHash,
             Stamp(row.timestamp, row.moduleVersion, row.createdAt))
  }

  function LogsOf(rows: seq<LedgerRow>): seq<LogEntry> {
    seq(|rows|, i requires 0 <= i < |rows| => LogOf(rows[i]))
  }

  function LogEntryOf(c: AppendCall, id: int): LogEntry {
    LogEntry(id, EventName(c.eventType), Serialize(c.payload), ExtractPolicySha(c.commit), c.userId, c.paramHash,
             c.stamp)
  }

  /** The log a run should leave when its first append takes id nextId: a failed append only skips an id. */
  function Log(steps: seq<Step>, nextId: int): seq<LogEntry>
    decreases |steps|
  {
    if steps == [] then []
    else match steps[0]
      case Construct(_, _, _, _) => Log(steps[1..], nextId)
      case Append(c) =>
        (if c.fails then [] else [LogEntryOf(c, nextId)]) + Log(steps[1..], nextId + 1)
  }

  lemma AppendLogs(h: Digest, t: Table, c: AppendCall)
    requires Chained(h, t)
    ensures var t' := AppendTo(h, t, c);
      && LogsOf(t'.rows) == LogsOf(t.rows) + (if c.fails then [] else [LogEntryOf(c, t.nextId)])
      && t'.nextId == t.nextId + 1
  {
    hide Chained, Serialize, ExtractPolicySha, EntryHash;
    AppendKeepsChain(h, t, c);
    assert t.rows != [] by {
      ChainedNotEmpty(h, t);
    }
    var row := AppendedRow(h, t, c);
    assert LogsOf(t.rows + [row]) == LogsOf(t.rows) + [LogOf(row)];
  }

  /** Every run appends exactly its successful calls, in order, under the ids the sequence gave them. */
  lemma {:induction false} RunIsLog(h: Digest, t: Table, steps: seq<Step>)
    requires Chained(h, t)
    ensures LogsOf(Run(h, t, steps).rows) == LogsOf(t.rows) + Log(steps, t.nextId)
    decreases |steps|
  {
    hide Chained, AppendTo, LogsOf, Serialize, ExtractPolicySha, InsertRow;
    if steps != [] {
      var u := Apply(h, t, steps[0]);
      ApplyKeepsChain(h, t, steps[0]);
      RunIsLog(h, u, steps[1..]);
      match steps[0]
      case Construct(_, _, _, _) =>
        ChainedNotEmpty(h, t);
      case Append(c) =>
        AppendLogs(h, t, c);
    }
  }

  // ----- the tip commits to the calls -----

  /** The appends of a run that succeed, in order. */
  function Succeeded(steps: seq<Step>): seq<AppendCall>
    decreases |steps|
  {
    if steps == [] then []
    else (if steps[0].Append? && !steps[0].call.fails then [steps[0].call] else []) + Succeeded(steps[1..])
  }

  lemma {:induction false} LogIsSucceeded(steps: seq<Step>, nextId: int)
    ensures var (log, calls) := (Log(steps, nextId), Succeeded(steps));
      |log| == |calls| && forall i :: 0 <= i < |calls| ==> log[i] == LogEntryOf(calls[i], log[i].id)
    decreases |steps|
  {
    hide LogEntryOf;
    if steps != [] {
      LogIsSucceeded(steps[1..], if steps[0].Append? then nextId + 1 else nextId);
      LogEntryHasId(steps[0], nextId);
    }
  }

  lemma LogEntryHasId(s: Step, id: int)
    ensures s.Append? ==> LogEntryOf(s.call, id).id == id
  {
  }

  ghost predicate PayloadsWellFormed(steps: seq<Step>) {
    forall i :: 0 <= i < |steps| && steps[i].Append? ==> WellFormed(steps[i].call.payload)
  }

  lemma {:induction false} SucceededWellFormed(steps: seq<Step>)
    requires PayloadsWellFormed(steps)
    ensures forall i :: 0 <= i < |Succeeded(steps)| ==> WellFormed(Succeeded(steps)[i].payload)
    decreases |steps|
  {
    hide WellFormed;
    if steps != [] {
      SucceededWellFormed(steps[1..]);
    }
  }

  /** What the hashed columns of two calls have in common: everything but the order of payload keys. */
  ghost predicate SameCall(c: AppendCall, d: AppendCall) {
    && c.eventType == d.eventType && ExtractPolicySha(c.commit) == ExtractPolicySha(d.commit) && c.userId == d.userId
    && SameUpToKeyOrder(c.payload, d.payload)
  }

  lemma SameEntrySameCall(c: AppendCall, i: int, d: AppendCall, j: int)
    requires WellFormed(c.payload) && WellFormed(d.payload)
    requires var (x, y) := (LogEntryOf(c, i), LogEntryOf(d, j));
      x.event == y.event && x.payloadJson == y.payloadJson && x.sha == y.sha && x.userId == y.userId
    ensures SameCall(c, d)
  {
    hide WellFormed, Serialize, ExtractPolicySha, SameUpToKeyOrder;
    SerializeIsCanonical(c.payload, d.payload);
    assert "genesis" != "schema_segment_transition" by {
      assert "genesis"[0] == 'g' && "schema_segment_transition"[0] == 's';
    }
  }

  /** The first client of a history, and what followed. */
  datatype History = History(commit: string, userId: int, stamp: Stamp, steps: seq<Step>)

  function TableOf(h: Digest, x: History): Table { Run(h, Seeded(h, x.commit, x.userId, x.stamp), x.steps) }

  /** Row 0 is the genesis, and row i + 1 the i-th successful append. */
  lemma RowsOfHistory(h: Digest, x: History)
    ensures var (rows, calls) := (TableOf(h, x).rows, Succeeded(x.steps));
      && |rows| == |calls| + 1
      && rows[0].entry.policySha == ExtractPolicySha(x.commit) && rows[0].entry.userId == x.userId
      && forall i :: 0 <= i < |calls| ==> LogOf(rows[i + 1]) == LogEntryOf(calls[i], rows[i + 1].id)
  {
    hide Chained, Run, Seeded, LogEntryOf, Log, Succeeded;
    var t := Seeded(h, x.commit, x.userId, x.stamp);
    SeededChained(h, x.commit, x.userId, x.stamp);
    RunIsLog(h, t, x.steps);
    RunKeepsChain(h, t, x.steps);
    LogIsSucceeded(x.steps, t.nextId);
    var (rows, log) := (TableOf(h, x).rows, Log(x.steps, t.nextId));
    assert LogsOf(rows) == LogsOf(t.rows) + log;
    assert rows[0] == t.rows[0];
    forall i | 0 <= i < |log| ensures LogOf(rows[i + 1]) == log[i] && rows[i + 1].id == log[i].id {
      assert LogsOf(rows)[i + 1] == LogOf(rows[i + 1]);
    }
  }

  /**
   * Two histories that end in one hash: the same genesis and successful calls, payloads up to key order, or a
   * collision.
   */
  lemma HistoriesCommit(h: Digest, x: History, y: History)
    requires PayloadsWellFormed(x.steps) && PayloadsWellFormed(y.steps)
    ensures var (a, b) := (TableOf(h, x).rows, TableOf(h, y).rows);
      var (c, d) := (Succeeded(x.steps), Succeeded(y.steps));
      && a != [] && b != []
      && (a[|a| - 1].thisHash == b[|b| - 1].thisHash ==>
            || CollisionBetween(h, a, b)
            || (&& ExtractPolicySha(x.commit) == ExtractPolicySha(y.commit) && x.userId == y.userId
                && |c| == |d| && forall i :: 0 <= i < |c| ==> SameCall(c[i], d[i])))
  {
    hide Run, Seeded, Clean, CollisionBetween, LogEntryOf, Succeeded, PayloadsWellFormed, WellFormed, SameCall;
    var (a, b) := (TableOf(h, x).rows, TableOf(h, y).rows);
    var (c, d) := (Succeeded(x.steps), Succeeded(y.steps));
    RunTipCommits(h, y.commit, y.userId, y.stamp, y.steps, a);
    RunTipCommits(h, x.commit, x.userId, x.stamp, x.steps, b);
    RowsOfHistory(h, x);
    RowsOfHistory(h, y);
    SucceededWellFormed(x.steps);
    SucceededWellFormed(y.steps);
    if SameHistory(a, b) {
      forall i | 0 <= i < |c| ensures SameCall(c[i], d[i]) {
        assert a[i + 1].entry == b[i + 1].entry;
        assert LogOf(a[i + 1]) == LogEntryOf(c[i], a[i + 1].id) && LogOf(b[i + 1]) == LogEntryOf(d[i], b[i + 1].id);
        SameEntrySameCall(c[i], a[i + 1].id, d[i], b[i + 1].id);
      }
    }
  }

  // ----- months of a growing ledger -----

  function CreatedAt(s: Step): int {
    match s
    case Construct(_, _, stamp, _) => stamp.createdAt
    case Append(c) => c.stamp.createdAt
  }

  ghost predicate ClockNeverBack(steps: seq<Step>, from: int) {
    && (forall i :: 0 <= i < |steps| ==> from <= CreatedAt(steps[i]))
    && (forall i, j :: 0 <= i < j < |steps| ==> CreatedAt(steps[i]) <= CreatedAt(steps[j]))
  }

  /** If the database clock never goes back, rows are created in id order, so month lists join in id order. */
  lemma {:induction false} RunCreatesInOrder(h: Digest, t: Table, steps: seq<Step>, from: int)
    requires Chained(h, t) && CreatedInOrder(t.rows) && ClockNeverBack(steps, from)
    requires forall i :: 0 <= i < |t.rows| ==> t.rows[i].createdAt <= from
    ensures CreatedInOrder(Run(h, t, steps).rows)
    decreases |steps|
  {
    hide Chained, AppendedRow, Apply;
    if steps != [] {
      var u := Apply(h, t, steps[0]);
      ApplyKeepsChain(h, t, steps[0]);
      ApplyCreates(h, t, steps[0]);
      RunCreatesInOrder(h, u, steps[1..], CreatedAt(steps[0]));
    }
  }

  lemma ApplyCreates(h: Digest, t: Table, s: Step)
    requires Chained(h, t)
    ensures var u := Apply(h, t, s);
      || u.rows == t.rows
      || (&& |u.rows| == |t.rows| + 1 && u.rows[..|t.rows|] == t.rows
          && u.rows[|t.rows|].createdAt == CreatedAt(s))
  {
    hide Chained, Serialize, ExtractPolicySha, EntryHash;
    ChainedNotEmpty(h, t);
  }

  /** If the clock never goes back, a run adds only rows created at or after its start. */
  lemma {:induction false} RunGrowsAfter(h: Digest, t: Table, steps: seq<Step>, from: int)
    requires Chained(h, t) && ClockNeverBack(steps, from)
    ensures GrowsAfter(t.rows, Run(h, t, steps).rows, from)
    decreases |steps|
  {
    hide Chained, AppendedRow, Apply;
    if steps != [] {
      var u := Apply(h, t, steps[0]);
      ApplyKeepsChain(h, t, steps[0]);
      ApplyCreates(h, t, steps[0]);
      RunGrowsAfter(h, u, steps[1..], from);
    }
  }

  /** A run that starts after a month ends never changes that month's segment hash. */
  lemma RunKeepsPastSegments(
      h: Digest, t: Table, steps: seq<Step>, from: int, k: int, prev: Option<string>, sha: string)
    requires Chained(h, t) && ClockNeverBack(steps, from) && Start(k + 1) <= from
    ensures var u := Run(h, t, steps);
      && MonthIds(u.rows, k) == MonthIds(t.rows, k)
      && ComputeSegmentHash(h, u.rows, YearOf(k), MonthOf(k), prev, sha).segmentHash
         == ComputeSegmentHash(h, t.rows, YearOf(k), MonthOf(k), prev, sha).segmentHash
  {
    hide Chained, Run, ClockNeverBack, Start, MonthIds, ComputeSegmentHash, YearOf, MonthOf;
    RunGrowsAfter(h, t, steps, from);
    MonthIsClosed(t.rows, Run(h, t, steps).rows, k);
    SameIdsSameHash(h, t.rows, Run(h, t, steps).rows, k, prev, sha);
  }

  // ----- the written columns, spelled out -----

  /** The columns of the first row: genesis under id 1, without a prev, by its user and build. */
  lemma SeededColumns(h: Digest, commit: string, userId: int, stamp: Stamp)
    ensures var t := Seeded(h, commit, userId, stamp);
      && t.rows != []
      && var row := t.rows[0];
         && row.id == 1 && row.entry.prev.None? && row.entry.eventType == "genesis" && row.entry.userId == userId
         && row.entry.policySha == ExtractPolicySha(commit) && row.thisHash == h(Body(row.entry))
         && row.paramHash == "44136fa355b3678a1146ad16f7e8649e94fb4fc21fe77e8310c060f61caaff8a"
         && row.timestamp == stamp.timestamp && row.moduleVersion == stamp.moduleVersion
         && row.createdAt == stamp.createdAt
  {
    hide Serialize, ExtractPolicySha, Body;
  }

  /** The genesis payload as it is stored: two fields, the note's dash escaped. */
  lemma SeededPayload(h: Digest, commit: string, userId: int, stamp: Stamp)
    ensures var t := Seeded(h, commit, userId, stamp);
      && t.rows != []
      && t.rows[0].entry.payloadJson
         == "{\"" + "note" + "\":\"" + "ledger genesis " + "\\u2014" + " chain segment start" + "\",\""
            + "policy_version_git_sha" + "\":\"" + ExtractPolicySha(commit) + "\"}"
  {
    hide Serialize, ExtractPolicySha, Body;
    GenesisPrinted(commit);
  }

  lemma GenesisPrinted(commit: string)
    ensures Serialize(GenesisPayload(ExtractPolicySha(commit)))
         == "{\"" + "note" + "\":\"" + "ledger genesis " + "\\u2014" + " chain segment start" + "\",\""
            + "policy_version_git_sha" + "\":\"" + ExtractPolicySha(commit) + "\"}"
  {
    hide ExtractPolicySha, PrintText, SortKeys;
    var sha := ExtractPolicySha(commit);
    GenesisIsSorted(sha);
    var (x, y) := (GenesisPayload(sha).fields[0], GenesisPayload(sha).fields[1]);
    ShaPrinted(commit, y);
    var tail := ",\"" + ("policy_version_git_sha" + ("\"" + (":" + ("\"" + (sha + ("\"" + "}"))))));
    NotePrinted(tail);
    KeyPrinted("note", "\"" + ("ledger genesis " + ("\\u2014" + (" chain segment start" + ("\"" + tail)))));
    assert [x, y][1..] == [y] && PrintFields([y], "") == tail;
    var note := "\"" + ("ledger genesis " + ("\\u2014" + (" chain segment start" + ("\"" + tail))));
    assert Print(x.value, tail) == note;
    assert PrintField(x, tail) == "\"" + PrintText("note", ":" + note);
    assert Print(Obj([x, y]), "") == "{" + PrintField(x, tail);
    GluePayload("note", "ledger genesis ", "\\u2014", " chain segment start", "policy_version_git_sha", sha);
  }

  lemma ShaPrinted(commit: string, y: Field)
    requires y == Field("policy_version_git_sha", Text(ExtractPolicySha(commit)))
    ensures PrintFields([y], "")
         == ",\"" + ("policy_version_git_sha" + ("\"" + (":" + ("\"" + (ExtractPolicySha(commit) + ("\"" + "}"))))))
  {
    hide ExtractPolicySha, PrintText;
    var sha := ExtractPolicySha(commit);
    ShaPrintsItself(commit);
    PrintPlainText(sha, "}");
    KeyPrinted("policy_version_git_sha", "\"" + (sha + ("\"" + "}")));
    assert [y][1..] == [] && PrintFields([], "") == "}";
    assert Print(y.value, "}") == "\"" + (sha + ("\"" + "}"));
    assert PrintField(y, "}") == "\"" + PrintText("policy_version_git_sha", ":" + Print(y.value, "}"));
    assert PrintFields([y], "") == "," + PrintField(y, "}");
    var inner := "policy_version_git_sha" + ("\"" + (":" + ("\"" + (sha + ("\"" + "}")))));
    assert "," + ("\"" + inner) == ",\"" + inner;
  }

  lemma GluePayload(a: string, b: string, c: string, d: string, e: string, f: string)
    ensures "{" + ("\"" + (a + ("\"" + (":" + ("\"" + (b + (c + (d + ("\"" + (",\"" + (e + ("\"" + (":"
              + ("\"" + (f + ("\"" + "}"))))))))))))))))
         == "{\"" + a + "\":\"" + b + c + d + "\",\"" + e + "\":\"" + f + "\"}"
  {
    var tail := e + ("\"" + (":" + ("\"" + (f + ("\"" + "}")))));
    assert tail == e + "\":\"" + f + "\"}";
    assert "\"" + (",\"" + tail) == "\",\"" + tail;
    var mid := b + (c + (d + ("\",\"" + tail)));
    assert mid == b + c + d + "\",\"" + tail;
    assert "{" + ("\"" + (a + ("\"" + (":" + ("\"" + mid))))) == "{\"" + a + "\":\"" + mid;
  }

  lemma KeyPrinted(key: string, value: string)
    requires key == "note" || key == "policy_version_git_sha"
    ensures PrintText(key, ":" + value) == key + ("\"" + (":" + value))
  {
    PrintPlainText(key, ":" + value);
  }

  lemma NotePrinted(rest: string)
    ensures PrintText("ledger genesis " + ("\U{2014}" + " chain segment start"), rest)
         == "ledger genesis " + ("\\u2014" + (" chain segment start" + ("\"" + rest)))
  {
    hide PrintText;
    var (a, b) := ("ledger genesis ", " chain segment start");
    PrintPlain(a, "\U{2014}" + b, rest);
    DashPrinted(b, rest);
    PrintPlainText(b, rest);
  }

  lemma DashPrinted(b: string, rest: string)
    ensures PrintText("\U{2014}" + b, rest) == "\\u2014" + PrintText(b, rest)
  {
    var s := "\U{2014}" + b;
    assert s[0] == '\U{2014}' && s[1..] == b;
    assert EscapeChar('\U{2014}') == "\\u2014" by {
      assert Hex4(0x2014) == "2014";
    }
  }

  lemma ShaPrintsItself(commit: string)
    ensures All(PrintsItself, ExtractPolicySha(commit))
  {
    hide ExtractPolicySha;
    ExtractOrUnknown(commit);
    forall i | 0 <= i < |ExtractPolicySha(commit)| ensures PrintsItself(ExtractPolicySha(commit)[i]) {
      assert IsShaChar(ExtractPolicySha(commit)[i]);
    }
  }

  lemma GenesisIsSorted(sha: string)
    ensures SortKeys(GenesisPayload(sha)) == GenesisPayload(sha)
  {
    var fs := GenesisPayload(sha).fields;
    SortKeysOfTwo(fs[0], fs[1]);
    assert TextLe("note", "policy_version_git_sha") by {
      assert "note"[0] == 'n' && "policy_version_git_sha"[0] == 'p';
    }
  }

  /**
   * The columns of an appended row: the tip's stored hash, the canonical payload, the build, the event's text, the
   * user.
   */
  lemma AppendedColumns(h: Digest, t: Table, c: AppendCall)
    requires Chained(h, t) && !c.fails
    ensures var t' := AppendTo(h, t, c);
      && |t'.rows| == |t.rows| + 1
      && var (row, tip) := (t'.rows[|t.rows|], t.rows[|t.rows| - 1]);
         && row.id == t.nextId && row.entry.prev == Some(tip.thisHash) && row.entry.payloadJson == Serialize(c.payload)
         && row.entry.policySha == ExtractPolicySha(c.commit) && row.entry.userId == c.userId
         && row.entry.eventType == (if c.eventType.Genesis? then "genesis" else "schema_segment_transition")
         && row.thisHash == h(Body(row.entry)) && row.paramHash == c.paramHash
         && row.timestamp == c.stamp.timestamp && row.moduleVersion == c.stamp.moduleVersion
         && row.createdAt == c.stamp.createdAt
  {
    hide Chained, Serialize, ExtractPolicySha, Body, InsertRow;
    AppendKeepsChain(h, t, c);
    ChainedNotEmpty(h, t);
    var row := AppendedRow(h, t, c);
    assert (t.rows + [row])[|t.rows|] == row;
  }
}
