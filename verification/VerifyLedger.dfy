/** The ledger verifier: its replay loop, what it reports, and what a clean report commits to. */
module VerifyLedger {
  import opened Basics
  import opened Encoding
  import opened Framing
  import opened HashChain
  import opened LedgerTable

  datatype Mismatch =
    | PrevHashChainBreak(id: int, storedPrev: Option<string>, expectedPrev: Option<string>)
    | ThisHashMismatch(id: int, storedThis: string, recomputedThis: string)

  // ----- the local meaning of a report, without any carried state -----

  function ExpectedPrev(h: Digest, rows: seq<LedgerRow>, i: nat): Option<string>
    requires i <= |rows|
  {
    if i == 0 then None else Some(EntryHash(h, rows[i - 1].entry))
  }

  function PrevReport(h: Digest, rows: seq<LedgerRow>, i: nat): seq<Mismatch>
    requires i < |rows|
  {
    if rows[i].entry.prev == ExpectedPrev(h, rows, i) then []
    else [PrevHashChainBreak(rows[i].id, rows[i].entry.prev, ExpectedPrev(h, rows, i))]
  }

  function ThisReport(h: Digest, row: LedgerRow): seq<Mismatch> {
    if row.thisHash == EntryHash(h, row.entry) then []
    else [ThisHashMismatch(row.id, row.thisHash, EntryHash(h, row.entry))]
  }

  function RowReports(h: Digest, rows: seq<LedgerRow>, i: nat): seq<Mismatch>
    requires i < |rows|
  {
    PrevReport(h, rows, i) + ThisReport(h, rows[i])
  }

  /** The reports of the first n rows, in row order. */
  function LocalReports(h: Digest, rows: seq<LedgerRow>, n: nat): seq<Mismatch>
    requires n <= |rows|
  {
    if n == 0 then [] else LocalReports(h, rows, n - 1) + RowReports(h, rows, n - 1)
  }

  lemma LocalReportsStep(h: Digest, rows: seq<LedgerRow>, n: nat)
    requires n <= |rows|
    ensures LocalReports(h, rows, n) == if n == 0 then [] else LocalReports(h, rows, n - 1) + RowReports(h, rows, n - 1)
  {
  }

  predicate AllEncodable(rows: seq<LedgerRow>) {
    forall i :: 0 <= i < |rows| ==> Encodable(rows[i].entry)
  }

  predicate RowOk(h: Digest, rows: seq<LedgerRow>, i: nat)
    requires i < |rows|
  {
    && Encodable(rows[i].entry)
    && rows[i].entry.prev == ExpectedPrev(h, rows, i)
    && rows[i].thisHash == EntryHash(h, rows[i].entry)
  }

  /** Every row links to the row before it and carries its own hash. */
  predicate Clean(h: Digest, rows: seq<LedgerRow>) {
    forall i :: 0 <= i < |rows| ==> RowOk(h, rows, i)
  }

  /** verify_chain over rows fetched in id order; None when hashing a row raises. */
  method VerifyChain(h: Digest, rows: seq<LedgerRow>) returns (r: Option<seq<Mismatch>>)
    ensures r.None? <==> !AllEncodable(rows)
    ensures r.Some? ==> r.value == LocalReports(h, rows, |rows|)
    ensures r == Some([]) <==> Clean(h, rows)
  {
    hide LocalReports, EntryHash, Encodable, RowOk, RowReports, PrevReport, ThisReport;
    LocalReportsStep(h, rows, 0);
    var mismatches := [];
    var lastThis: Option<string> := None;
    for i := 0 to |rows|
      invariant forall j :: 0 <= j < i ==> Encodable(rows[j].entry)
      invariant mismatches == LocalReports(h, rows, i)
      invariant lastThis == ExpectedPrev(h, rows, i)
    {
      var row := rows[i];
      var prev, expectedPrev := row.entry.prev, lastThis;
      var isGenesisOk := row.id == 1 && prev == None && expectedPrev == None;
      ghost var before := mismatches;
      if prev != expectedPrev && !isGenesisOk {
        mismatches := mismatches + [PrevHashChainBreak(row.id, prev, expectedPrev)];
      }
      PrevReportIs(h, rows, i);
      if !Encodable(row.entry) {
        NotEncodableNotOk(h, rows, i);
        return None;
      }
      var expectedThis := EntryHash(h, row.entry);
      if row.thisHash != expectedThis {
        mismatches := mismatches + [ThisHashMismatch(row.id, row.thisHash, expectedThis)];
        lastThis := Some(expectedThis);
      } else {
        lastThis := Some(row.thisHash);
      }
      ThisReportIs(h, rows[i]);
      RowReportsAre(h, rows, i, before);
      LocalReportsStep(h, rows, i + 1);
    }
    NoReportsIffClean(h, rows, |rows|);
    return Some(mismatches);
  }

  lemma PrevReportIs(h: Digest, rows: seq<LedgerRow>, i: nat)
    requires i < |rows|
    ensures var (p, e) := (rows[i].entry.prev, ExpectedPrev(h, rows, i));
      PrevReport(h, rows, i) == if p != e then [PrevHashChainBreak(rows[i].id, p, e)] else []
  {
  }

  lemma ThisReportIs(h: Digest, row: LedgerRow)
    ensures var t := EntryHash(h, row.entry);
      ThisReport(h, row) == if row.thisHash != t then [ThisHashMismatch(row.id, row.thisHash, t)] else []
  {
    hide EntryHash;
  }

  lemma RowReportsAre(h: Digest, rows: seq<LedgerRow>, i: nat, before: seq<Mismatch>)
    requires i < |rows|
    ensures before + PrevReport(h, rows, i) + ThisReport(h, rows[i]) == before + RowReports(h, rows, i)
  {
    hide PrevReport, ThisReport;
  }

  lemma NotEncodableNotOk(h: Digest, rows: seq<LedgerRow>, i: nat)
    requires i < |rows| && !Encodable(rows[i].entry)
    ensures !RowOk(h, rows, i)
  {
  }

  lemma RowReportsEmpty(h: Digest, rows: seq<LedgerRow>, i: nat)
    requires i < |rows| && Encodable(rows[i].entry)
    ensures RowReports(h, rows, i) == [] <==> RowOk(h, rows, i)
  {
    hide EntryHash, Encodable;
  }

  lemma {:induction false} NoReportsIffClean(h: Digest, rows: seq<LedgerRow>, n: nat)
    requires n <= |rows| && forall i :: 0 <= i < n ==> Encodable(rows[i].entry)
    ensures LocalReports(h, rows, n) == [] <==> forall i :: 0 <= i < n ==> RowOk(h, rows, i)
  {
    hide LocalReports, RowReports, RowOk, Encodable;
    LocalReportsStep(h, rows, n);
    if n > 0 {
      NoReportsIffClean(h, rows, n - 1);
      RowReportsEmpty(h, rows, n - 1);
    }
  }

  // ----- how far the reports of k changed rows can spread -----

  /** Row i keeps the columns the verifier reads. */
  predicate Unchanged(rows: seq<LedgerRow>, rows': seq<LedgerRow>, i: int)
    requires 0 <= i < |rows| == |rows'|
  {
    rows[i].id == rows'[i].id && rows[i].entry == rows'[i].entry && rows[i].thisHash == rows'[i].thisHash
  }

  ghost function Changed(rows: seq<LedgerRow>, rows': seq<LedgerRow>): set<int>
    requires |rows| == |rows'|
  {
    set i | 0 <= i < |rows| && !Unchanged(rows, rows', i)
  }

  ghost predicate AboutRow(rows: seq<LedgerRow>, m: Mismatch, i: int) {
    0 <= i < |rows| && m.id == rows[i].id
  }

  /** Changing k rows of a clean ledger gives at most 3k reports, each on a changed row or the next one. */
  lemma ReportsStayLocal(h: Digest, rows: seq<LedgerRow>, rows': seq<LedgerRow>)
    requires Clean(h, rows) && |rows| == |rows'|
    ensures |LocalReports(h, rows', |rows'|)| <= 3 * |Changed(rows, rows')|
    ensures forall m :: m in LocalReports(h, rows', |rows'|) ==>
      exists i :: AboutRow(rows', m, i) && (i in Changed(rows, rows') || i - 1 in Changed(rows, rows'))
  {
    var changed := Changed(rows, rows');
    LocalReportsBound(h, rows, rows', changed, |rows|);
    forall m | m in LocalReports(h, rows', |rows'|)
      ensures exists i :: AboutRow(rows', m, i) && (i in changed || i - 1 in changed)
    {
      var i := LocalReportsPlaced(h, rows, rows', changed, |rows|, m);
    }
    CountIsCardinality(changed, |rows|);
    CountMonotone(changed, |rows|);
  }

  /** How many of 0..n-1 lie in s. */
  ghost function CountIn(s: set<int>, n: nat): nat {
    if n == 0 then 0 else CountIn(s, n - 1) + (if n - 1 in s then 1 else 0)
  }

  lemma {:induction false} CountIsCardinality(s: set<int>, n: nat)
    requires forall i :: i in s ==> 0 <= i < n
    ensures CountIn(s, n) == |s|
  {
    if n > 0 {
      var t := s - {n - 1};
      CountIsCardinality(t, n - 1);
      CountAgrees(s, t, n - 1);
    } else {
      assert forall i :: i !in s;
    }
  }

  lemma {:induction false} CountAgrees(s: set<int>, t: set<int>, n: nat)
    requires forall i :: 0 <= i < n ==> (i in s <==> i in t)
    ensures CountIn(s, n) == CountIn(t, n)
  {
    if n > 0 {
      CountAgrees(s, t, n - 1);
    }
  }

  lemma CountMonotone(s: set<int>, n: nat)
    ensures n > 0 ==> CountIn(s, n - 1) <= CountIn(s, n)
  {
  }

  lemma RowReportsBound(h: Digest, rows: seq<LedgerRow>, rows': seq<LedgerRow>, i: nat)
    requires Clean(h, rows) && |rows| == |rows'| && i < |rows|
    ensures var here := RowReports(h, rows', i);
      |here| <= 2 && (Unchanged(rows, rows', i) ==> |here| <= 1)
      && (Unchanged(rows, rows', i) && (i == 0 || Unchanged(rows, rows', i - 1)) ==> here == [])
      && forall m :: m in here ==> AboutRow(rows', m, i)
  {
    hide EntryHash, Encodable;
    assert RowOk(h, rows, i);
    if Unchanged(rows, rows', i) {
      assert ThisReport(h, rows'[i]) == [];
      if i == 0 || Unchanged(rows, rows', i - 1) {
        assert PrevReport(h, rows', i) == [];
      }
    }
  }

  lemma {:induction false} LocalReportsBound(
      h: Digest, rows: seq<LedgerRow>, rows': seq<LedgerRow>, changed: set<int>, n: nat)
    requires Clean(h, rows) && |rows| == |rows'| && n <= |rows|
    requires changed == Changed(rows, rows')
    ensures |LocalReports(h, rows', n)| <= 2 * CountIn(changed, n) + (if n == 0 then 0 else CountIn(changed, n - 1))
  {
    hide Unchanged, RowReports, Clean, LocalReports, PrevReport, ThisReport, EntryHash;
    LocalReportsStep(h, rows', n);
    if n > 0 {
      LocalReportsBound(h, rows, rows', changed, n - 1);
      RowReportsBound(h, rows, rows', n - 1);
    }
  }

  lemma {:induction false} LocalReportsPlaced(
      h: Digest, rows: seq<LedgerRow>, rows': seq<LedgerRow>, changed: set<int>, n: nat, m: Mismatch)
    returns (i: int)
    requires Clean(h, rows) && |rows| == |rows'| && n <= |rows|
    requires changed == Changed(rows, rows') && m in LocalReports(h, rows', n)
    ensures AboutRow(rows', m, i) && (i in changed || i - 1 in changed)
  {
    hide Unchanged, RowReports, Clean, AboutRow, LocalReports, PrevReport, ThisReport, EntryHash;
    LocalReportsStep(h, rows', n);
    if m in LocalReports(h, rows', n - 1) {
      i := LocalReportsPlaced(h, rows, rows', changed, n - 1, m);
    } else {
      i := n - 1;
      RowReportsBound(h, rows, rows', i);
    }
  }

  // ----- a clean report commits to the whole table -----

  /** Some row of one table and some row of the other have different bodies with one digest. */
  ghost predicate CollisionBetween(h: Digest, a: seq<LedgerRow>, b: seq<LedgerRow>) {
    exists i, j :: 0 <= i < |a| && 0 <= j < |b| && Collides(h, Body(a[i].entry), Body(b[j].entry))
  }

  /** Every row is one that the framing determines among the rows that can be hashed. */
  predicate TableFramed(rows: seq<LedgerRow>) {
    forall i :: 0 <= i < |rows| ==> Framed(rows[i].entry)
  }

  /** Same length, and the same hashed columns and hash in every row. */
  predicate SameHistory(a: seq<LedgerRow>, b: seq<LedgerRow>) {
    |a| == |b| && forall i :: 0 <= i < |a| ==> a[i].entry == b[i].entry && a[i].thisHash == b[i].thisHash
  }

  lemma CleanPrefix(h: Digest, rows: seq<LedgerRow>, n: nat)
    requires Clean(h, rows) && n <= |rows|
    ensures Clean(h, rows[..n])
  {
    forall i | 0 <= i < n ensures RowOk(h, rows[..n], i) {
      assert RowOk(h, rows, i);
    }
  }

  /** The prev of a clean row is empty or a digest; it is empty in the first row only. */
  lemma CleanPrev(h: Digest, rows: seq<LedgerRow>, i: nat)
    requires i < |rows| && RowOk(h, rows, i)
    ensures NulFree(OrEmpty(rows[i].entry.prev)) && (i == 0 <==> OrEmpty(rows[i].entry.prev) == "")
    ensures i == 0 <==> rows[i].entry.prev.None?
  {
    hide Body, Encodable;
    if i > 0 {
      assert IsHex64(EntryHash(h, rows[i - 1].entry));
      HexIsPlain(EntryHash(h, rows[i - 1].entry));
    }
  }

  /** Two last rows with one hash: the same entry, or a collision of their bodies. */
  lemma TipRowsAgree(h: Digest, a: seq<LedgerRow>, b: seq<LedgerRow>, m: nat, n: nat)
    requires m < |a| && n < |b| && RowOk(h, a, m) && RowOk(h, b, n) && Framed(a[m].entry)
    requires a[m].thisHash == b[n].thisHash
    ensures Collides(h, Body(a[m].entry), Body(b[n].entry)) || (a[m].entry == b[n].entry && (m == 0 <==> n == 0))
  {
    hide Body, Framed, Encodable, NulFree;
    var (d, e) := (a[m].entry, b[n].entry);
    CleanPrev(h, a, m);
    CleanPrev(h, b, n);
    if Body(d) == Body(e) {
      PlainPrevsAgree(d, e);
      FramedDetermines(d, e);
    }
  }

  /** One step back: clean tables that agree in the last row agree in the hash of the row before it. */
  lemma TipStepsBack(h: Digest, a: seq<LedgerRow>, b: seq<LedgerRow>)
    requires Clean(h, a) && Clean(h, b) && |a| > 1 && |b| > 1
    requires a[|a| - 1].entry == b[|b| - 1].entry
    ensures a[|a| - 2].thisHash == b[|b| - 2].thisHash
  {
    hide EntryHash, Encodable;
    var (m, n) := (|a| - 1, |b| - 1);
    assert RowOk(h, a, m) && RowOk(h, b, n) && RowOk(h, a, m - 1) && RowOk(h, b, n - 1);
  }

  /** Tip commitment: the last hash of a clean ledger fixes every row, or two row bodies collide. */
  lemma {:induction false} TipCommitsToHistory(h: Digest, a: seq<LedgerRow>, b: seq<LedgerRow>)
    requires Clean(h, a) && Clean(h, b) && TableFramed(a)
    requires a != [] && b != [] && a[|a| - 1].thisHash == b[|b| - 1].thisHash
    ensures SameHistory(a, b) || CollisionBetween(h, a, b)
    decreases |a|
  {
    hide RowOk, Body, Framed, Collides;
    var (m, n) := (|a| - 1, |b| - 1);
    assert RowOk(h, a, m) && RowOk(h, b, n);
    TipRowsAgree(h, a, b, m, n);
    if m > 0 && n > 0 && a[m].entry == b[n].entry {
      CleanPrefix(h, a, m);
      CleanPrefix(h, b, n);
      TipStepsBack(h, a, b);
      TipCommitsToHistory(h, a[..m], b[..n]);
      if CollisionBetween(h, a[..m], b[..n]) {
        CollisionInLonger(h, a, m, b, n);
      } else {
        assert a == a[..m] + [a[m]] && b == b[..n] + [b[n]];
      }
    }
  }

  lemma CollisionInLonger(h: Digest, a: seq<LedgerRow>, m: nat, b: seq<LedgerRow>, n: nat)
    requires m <= |a| && n <= |b| && CollisionBetween(h, a[..m], b[..n])
    ensures CollisionBetween(h, a, b)
  {
    hide Body, Collides;
    var i, j :| 0 <= i < m && 0 <= j < n && Collides(h, Body(a[..m][i].entry), Body(b[..n][j].entry));
    assert Collides(h, Body(a[i].entry), Body(b[j].entry));
  }

  /**
   * Tampering with any hashed column while keeping the last hash is reported, makes hashing raise, or exhibits a
   * collision.
   */
  lemma TamperIsDetected(h: Digest, a: seq<LedgerRow>, b: seq<LedgerRow>)
    requires Clean(h, a) && TableFramed(a) && a != [] && b != []
    requires a[|a| - 1].thisHash == b[|b| - 1].thisHash && !SameHistory(a, b)
    ensures !AllEncodable(b) || LocalReports(h, b, |b|) != [] || CollisionBetween(h, a, b)
  {
    if AllEncodable(b) && LocalReports(h, b, |b|) == [] {
      NoReportsIffClean(h, b, |b|);
      TipCommitsToHistory(h, a, b);
    }
  }

  // ----- the framing condition is exactly what the tip needs -----

  /** b has another entry than a somewhere, but row by row the same bodies and hashes. */
  ghost predicate IsTwin(a: seq<LedgerRow>, b: seq<LedgerRow>) {
    && |a| == |b| && !SameHistory(a, b)
    && forall i :: 0 <= i < |a| ==> Body(a[i].entry) == Body(b[i].entry) && a[i].thisHash == b[i].thisHash
  }

  /** A clean table with an unframed row has a twin that the verifier passes as well. */
  lemma UnframedHasTwin(h: Digest, a: seq<LedgerRow>, i: nat) returns (b: seq<LedgerRow>)
    requires Clean(h, a) && i < |a| && !Framed(a[i].entry)
    ensures IsTwin(a, b) && Clean(h, b) && AllEncodable(b) && LocalReports(h, b, |b|) == []
  {
    hide Body, Framed, Encodable, LocalReports;
    assert RowOk(h, a, i);
    var e := AnotherReading(a[i].entry);
    b := a[i := a[i].(entry := e)];
    assert b[i].entry != a[i].entry;
    forall j | 0 <= j < |b| ensures RowOk(h, b, j) {
      assert RowOk(h, a, j);
    }
    forall j | 0 <= j < |b| ensures Encodable(b[j].entry) {
      assert RowOk(h, b, j);
    }
    NoReportsIffClean(h, b, |b|);
  }

  lemma TwinIsSilent(h: Digest, a: seq<LedgerRow>, b: seq<LedgerRow>)
    requires IsTwin(a, b)
    ensures a != [] && b != [] && a[|a| - 1].thisHash == b[|b| - 1].thisHash && !SameHistory(a, b)
    ensures CollisionBetween(h, a, b) ==> CollisionBetween(h, a, a)
  {
    hide Body, Collides;
    if CollisionBetween(h, a, b) {
      var j, k :| 0 <= j < |a| && 0 <= k < |b| && Collides(h, Body(a[j].entry), Body(b[k].entry));
      assert Collides(h, Body(a[j].entry), Body(a[k].entry));
    }
  }

  /** What the last hash of a is to guarantee. */
  ghost predicate TipCommits(h: Digest, a: seq<LedgerRow>)
    requires a != []
  {
    forall b: seq<LedgerRow> :: Clean(h, b) && b != [] && a[|a| - 1].thisHash == b[|b| - 1].thisHash ==>
      SameHistory(a, b) || CollisionBetween(h, a, b)
  }

  /** Unless its own rows collide, a clean table's last hash commits to it exactly when every row is framed. */
  lemma TipCommitsExactly(h: Digest, a: seq<LedgerRow>)
    requires Clean(h, a) && a != [] && !CollisionBetween(h, a, a)
    ensures TipCommits(h, a) <==> TableFramed(a)
  {
    hide Clean, Framed, SameHistory, CollisionBetween, IsTwin;
    if TableFramed(a) {
      forall b: seq<LedgerRow> | Clean(h, b) && b != [] && a[|a| - 1].thisHash == b[|b| - 1].thisHash
        ensures SameHistory(a, b) || CollisionBetween(h, a, b)
      {
        TipCommitsToHistory(h, a, b);
      }
    } else {
      var i :| 0 <= i < |a| && !Framed(a[i].entry);
      var b := UnframedHasTwin(h, a, i);
      TwinIsSilent(h, a, b);
    }
  }

  function OneRow(h: Digest, e: Entry): seq<LedgerRow> { [LedgerRow(1, 0, "", e, EntryHash(h, e), "", 0)] }

  /** Two clean one-row tables with one hash and one body that differ in payload and policy SHA. */
  lemma TwoReadingsOfOneRow(h: Digest)
    ensures var (d, e) := (Entry(None, "\0", "", "genesis", 1), Entry(None, "", "\0", "genesis", 1));
      && Clean(h, OneRow(h, d)) && Clean(h, OneRow(h, e)) && IsTwin(OneRow(h, d), OneRow(h, e))
  {
    hide Body;
    var (d, e) := (Entry(None, "\0", "", "genesis", 1), Entry(None, "", "\0", "genesis", 1));
    FramingAmbiguousWithNul(None, "", "genesis", 1);
    assert "" + "\0" == "\0";
    assert RowOk(h, OneRow(h, d), 0) && RowOk(h, OneRow(h, e), 0);
    assert OneRow(h, d)[0].entry != OneRow(h, e)[0].entry;
  }

  /** The limit of the check: every prefix of a clean ledger is clean, so a cut-off tail is not seen. */
  lemma TruncationIsInvisible(h: Digest, rows: seq<LedgerRow>, n: nat)
    requires Clean(h, rows) && n <= |rows|
    ensures LocalReports(h, rows[..n], n) == [] && AllEncodable(rows[..n])
  {
    CleanPrefix(h, rows, n);
    forall i | 0 <= i < n ensures Encodable(rows[..n][i].entry) {
      assert RowOk(h, rows[..n], i);
    }
    NoReportsIffClean(h, rows[..n], n);
  }

  // ----- the reports, spelled out -----

  /** Row i does not name the hash recomputed from the entry before it. */
  ghost predicate PrevBreakAt(h: Digest, rows: seq<LedgerRow>, i: int, m: Mismatch) {
    && 0 <= i < |rows|
    && var expected := if i == 0 then None else Some(h(Body(rows[i - 1].entry)));
       rows[i].entry.prev != expected && m == PrevHashChainBreak(rows[i].id, rows[i].entry.prev, expected)
  }

  /** Row i does not carry the hash recomputed from its own entry. */
  ghost predicate HashMismatchAt(h: Digest, rows: seq<LedgerRow>, i: int, m: Mismatch) {
    && 0 <= i < |rows|
    && var recomputed := h(Body(rows[i].entry));
       rows[i].thisHash != recomputed && m == ThisHashMismatch(rows[i].id, rows[i].thisHash, recomputed)
  }

  lemma RowReportsExactly(h: Digest, rows: seq<LedgerRow>, i: nat, m: Mismatch)
    requires i < |rows|
    ensures m in RowReports(h, rows, i) <==> PrevBreakAt(h, rows, i, m) || HashMismatchAt(h, rows, i, m)
  {
    hide Body;
  }

  /** What is reported: exactly the rows that break the link to the recomputed hash before them or their own hash. */
  lemma {:induction false} ReportsExactly(h: Digest, rows: seq<LedgerRow>, n: nat, m: Mismatch)
    requires n <= |rows|
    ensures m in LocalReports(h, rows, n) <==>
      exists i :: 0 <= i < n && (PrevBreakAt(h, rows, i, m) || HashMismatchAt(h, rows, i, m))
  {
    hide LocalReports, RowReports, PrevBreakAt, HashMismatchAt;
    LocalReportsStep(h, rows, n);
    if n > 0 {
      ReportsExactly(h, rows, n - 1, m);
      RowReportsExactly(h, rows, n - 1, m);
    }
  }

  /** A row with both faults is reported twice, its link first. */
  lemma RowReportedTwice(h: Digest, rows: seq<LedgerRow>, i: nat, m: Mismatch, m': Mismatch)
    requires PrevBreakAt(h, rows, i, m) && HashMismatchAt(h, rows, i, m')
    ensures RowReports(h, rows, i) == [m, m']
  {
    hide Body;
  }

  /** Links are checked against recomputed hashes: no stored hash has a say in them. */
  lemma PrevReportsIgnoreStoredHashes(h: Digest, rows: seq<LedgerRow>, rows': seq<LedgerRow>, i: nat)
    requires i < |rows| == |rows'|
    requires forall j :: 0 <= j < |rows| ==> rows[j].id == rows'[j].id && rows[j].entry == rows'[j].entry
    ensures PrevReport(h, rows, i) == PrevReport(h, rows', i)
  {
    hide EntryHash;
  }

  lemma {:induction false} QuietRows(h: Digest, rows: seq<LedgerRow>, lo: nat, hi: nat)
    requires lo <= hi <= |rows| && forall j :: lo <= j < hi ==> RowReports(h, rows, j) == []
    ensures LocalReports(h, rows, hi) == LocalReports(h, rows, lo)
    decreases hi
  {
    hide LocalReports, RowReports;
    LocalReportsStep(h, rows, hi);
    if lo < hi {
      QuietRows(h, rows, lo, hi - 1);
    }
  }

  lemma CleanRowIsQuiet(h: Digest, rows: seq<LedgerRow>, rows': seq<LedgerRow>, j: nat)
    requires Clean(h, rows) && j < |rows| == |rows'|
    requires rows'[j] == rows[j] && (j > 0 ==> rows'[j - 1].entry == rows[j - 1].entry)
    ensures RowReports(h, rows', j) == []
  {
    hide EntryHash, Encodable;
    assert RowOk(h, rows, j);
  }

  /** One stored hash overwritten in a clean table: one report, about that row alone. */
  lemma OneHashChanged(h: Digest, rows: seq<LedgerRow>, i: nat, forged: string)
    requires Clean(h, rows) && i < |rows| && forged != rows[i].thisHash
    ensures var rows' := rows[i := rows[i].(thisHash := forged)];
      LocalReports(h, rows', |rows|) == [ThisHashMismatch(rows[i].id, forged, h(Body(rows[i].entry)))]
  {
    hide LocalReports, RowReports, Clean, Body;
    var rows' := rows[i := rows[i].(thisHash := forged)];
    forall j | 0 <= j < |rows| && j != i ensures RowReports(h, rows', j) == [] {
      CleanRowIsQuiet(h, rows, rows', j);
    }
    QuietRows(h, rows', 0, i);
    ChangedHashReports(h, rows, i, forged);
    LocalReportsStep(h, rows', 0);
    LocalReportsStep(h, rows', i + 1);
    QuietRows(h, rows', i + 1, |rows|);
  }

  lemma ChangedHashReports(h: Digest, rows: seq<LedgerRow>, i: nat, forged: string)
    requires Clean(h, rows) && i < |rows| && forged != rows[i].thisHash
    ensures var rows' := rows[i := rows[i].(thisHash := forged)];
      RowReports(h, rows', i) == [ThisHashMismatch(rows[i].id, forged, h(Body(rows[i].entry)))]
  {
    hide Body, Encodable;
    assert RowOk(h, rows, i);
  }

  /**
   * One entry changed under a kept prev and stored hash: its own report and, unless it is the last row, the next row's.
   */
  lemma OneEntryChanged(h: Digest, rows: seq<LedgerRow>, i: nat, e: Entry)
    requires Clean(h, rows) && i < |rows| && e.prev == rows[i].entry.prev && h(Body(e)) != rows[i].thisHash
    ensures var rows' := rows[i := rows[i].(entry := e)];
      LocalReports(h, rows', |rows|)
        == [ThisHashMismatch(rows[i].id, rows[i].thisHash, h(Body(e)))]
           + (if i + 1 == |rows| then []
              else [PrevHashChainBreak(rows[i + 1].id, rows[i + 1].entry.prev, Some(h(Body(e))))])
  {
    hide LocalReports, RowReports, Clean, Body;
    var rows' := rows[i := rows[i].(entry := e)];
    forall j | 0 <= j < |rows| && j != i && j != i + 1 ensures RowReports(h, rows', j) == [] {
      CleanRowIsQuiet(h, rows, rows', j);
    }
    ChangedEntryReports(h, rows, i, e);
    OnlyTwoRowsReport(h, rows', i);
  }

  lemma FirstToReport(h: Digest, rows: seq<LedgerRow>, i: nat)
    requires i < |rows| && forall j :: 0 <= j < i ==> RowReports(h, rows, j) == []
    ensures LocalReports(h, rows, i + 1) == RowReports(h, rows, i)
  {
    hide LocalReports, RowReports;
    QuietRows(h, rows, 0, i);
    LocalReportsStep(h, rows, 0);
    LocalReportsStep(h, rows, i + 1);
  }

  lemma OnlyTwoRowsReport(h: Digest, rows: seq<LedgerRow>, i: nat)
    requires i < |rows| && forall j :: 0 <= j < |rows| && j != i && j != i + 1 ==> RowReports(h, rows, j) == []
    ensures LocalReports(h, rows, |rows|)
         == RowReports(h, rows, i) + (if i + 1 == |rows| then [] else RowReports(h, rows, i + 1))
  {
    hide LocalReports, RowReports;
    FirstToReport(h, rows, i);
    if i + 1 < |rows| {
      LocalReportsStep(h, rows, i + 2);
      QuietRows(h, rows, i + 2, |rows|);
    }
  }

  lemma ChangedEntryReports(h: Digest, rows: seq<LedgerRow>, i: nat, e: Entry)
    requires Clean(h, rows) && i < |rows| && e.prev == rows[i].entry.prev && h(Body(e)) != rows[i].thisHash
    ensures var rows' := rows[i := rows[i].(entry := e)];
      && RowReports(h, rows', i) == [ThisHashMismatch(rows[i].id, rows[i].thisHash, h(Body(e)))]
      && (i + 1 < |rows| ==>
            RowReports(h, rows', i + 1)
              == [PrevHashChainBreak(rows[i + 1].id, rows[i + 1].entry.prev, Some(h(Body(e))))])
  {
    hide Body, Encodable;
    assert RowOk(h, rows, i);
    assert i + 1 < |rows| ==> RowOk(h, rows, i + 1);
  }
}
