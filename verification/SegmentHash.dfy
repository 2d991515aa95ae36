/** Monthly segments: the ids of one UTC month, digested and chained to the month before. */
module SegmentHash {
  import opened Basics
  import opened Encoding
  import opened Calendar
  import opened HashChain
  import opened LedgerTable
  import opened Sorting

  datatype SegmentResult = SegmentResult(
    year: int, month: int,
    segmentHash: string,
    prevSegmentHash: Option<string>,
    entryCount: nat,
    firstId: Option<int>,
    lastId: Option<int>)

  /** Ids of the rows created in [lo, hi), in row order. */
  function IdsBetween(rows: seq<LedgerRow>, lo: int, hi: int): seq<int> {
    if rows == [] then []
    else (if lo <= rows[0].createdAt < hi then [rows[0].id] else []) + IdsBetween(rows[1..], lo, hi)
  }

  /** "\n".join(str(i) for i in ids) */
  function JoinIds(ids: seq<int>): string
    decreases |ids|, 0
  {
    if ids == [] then "" else Str(ids[0]) + JoinRest(ids[1..])
  }

  /** The ids after the first, each behind its separator. */
  function JoinRest(ids: seq<int>): string
    decreases |ids|, 1
  {
    if ids == [] then "" else "\n" + JoinIds(ids)
  }

  function IdsBody(ids: seq<int>): Bytes { Utf8(JoinIds(ids)) }

  /** The outer pre-image of a segment hash. */
  function SegmentBody(h: Digest, prev: Option<string>, ids: seq<int>, sha: string): Bytes {
    JoinNul([OrEmpty(prev), h(IdsBody(ids)), sha])
  }

  function SegmentDigest(h: Digest, prev: Option<string>, ids: seq<int>, sha: string): string {
    h(SegmentBody(h, prev, ids, sha))
  }

  /** compute_segment_hash on rows in id order. */
  function ComputeSegmentHash(
      h: Digest, rows: seq<LedgerRow>, year: int, month: int, prev: Option<string>, sha: string): (r: SegmentResult)
    requires 1 <= month <= 12
  {
    var next := NextMonth(year, month);
    var ids := IdsBetween(rows, MonthStart(year, month), MonthStart(next.0, next.1));
    SegmentResult(year, month, SegmentDigest(h, prev, ids, sha), prev, |ids|,
                  if ids == [] then None else Some(ids[0]),
                  if ids == [] then None else Some(ids[|ids| - 1]))
  }

  predicate Ascending(ids: seq<int>) {
    forall i, j :: 0 <= i < j < |ids| ==> ids[i] < ids[j]
  }

  /** An id is listed exactly when a row created in the window has it. */
  lemma {:induction false} IdsBetweenExact(rows: seq<LedgerRow>, lo: int, hi: int, id: int)
    ensures id in IdsBetween(rows, lo, hi) <==>
      exists i :: 0 <= i < |rows| && rows[i].id == id && lo <= rows[i].createdAt < hi
  {
    if rows != [] {
      var rest := rows[1..];
      IdsBetweenExact(rest, lo, hi, id);
      if id in IdsBetween(rest, lo, hi) {
        var i :| 0 <= i < |rest| && rest[i].id == id && lo <= rest[i].createdAt < hi;
        assert rows[i + 1] == rest[i];
      }
      if i :| 0 <= i < |rows| && rows[i].id == id && lo <= rows[i].createdAt < hi {
        assert i > 0 ==> rest[i - 1] == rows[i];
      }
    }
  }

  /** With rows in id order the list ascends. */
  lemma {:induction false} IdsBetweenAscend(rows: seq<LedgerRow>, lo: int, hi: int)
    requires IdsIncrease(rows)
    ensures Ascending(IdsBetween(rows, lo, hi))
  {
    if rows != [] {
      var tail := IdsBetween(rows[1..], lo, hi);
      IdsBetweenAscend(rows[1..], lo, hi);
      forall j | 0 <= j < |tail| ensures rows[0].id < tail[j] {
        IdsBetweenExact(rows[1..], lo, hi, tail[j]);
      }
    }
  }

  /** The result's count and end ids are those of the month's rows, and bound all of them. */
  lemma SegmentEnds(h: Digest, rows: seq<LedgerRow>, k: int, prev: Option<string>, sha: string)
    requires IdsIncrease(rows)
    ensures var r := ComputeSegmentHash(h, rows, YearOf(k), MonthOf(k), prev, sha); var ids := MonthIds(rows, k);
      && r.entryCount == |ids| && (r.firstId.None? <==> ids == []) && (r.lastId.None? <==> ids == [])
      && (forall id :: id in ids ==> r.firstId.Some? && r.lastId.Some? && r.firstId.value <= id <= r.lastId.value)
      && (ids != [] ==> r.firstId.value in ids && r.lastId.value in ids)
  {
    hide ComputeSegmentHash, SegmentDigest, MonthIds, IdsIncrease;
    SegmentCoversItsMonth(h, rows, k, prev, sha);
    MonthIdsAscend(rows, k);
  }

  lemma MonthIdsAscend(rows: seq<LedgerRow>, k: int)
    requires IdsIncrease(rows)
    ensures Ascending(MonthIds(rows, k))
  {
    IdsBetweenAscend(rows, Start(k), Start(k + 1));
  }

  // ----- consecutive months partition the rows of their span -----

  function MonthIds(rows: seq<LedgerRow>, k: int): seq<int> { IdsBetween(rows, Start(k), Start(k + 1)) }

  /** The id lists of n months from month k on, one after the other. */
  function SpanIds(rows: seq<LedgerRow>, k: int, n: nat): seq<int> {
    if n == 0 then [] else SpanIds(rows, k, n - 1) + MonthIds(rows, k + n - 1)
  }

  function EntryCounts(h: Digest, rows: seq<LedgerRow>, k: int, n: nat, prev: Option<string>, sha: string): nat {
    if n == 0 then 0
    else EntryCounts(h, rows, k, n - 1, prev, sha)
         + ComputeSegmentHash(h, rows, YearOf(k + n - 1), MonthOf(k + n - 1), prev, sha).entryCount
  }

  predicate CreatedInOrder(rows: seq<LedgerRow>) {
    forall i, j :: 0 <= i < j < |rows| ==> rows[i].createdAt <= rows[j].createdAt
  }

  lemma {:induction false} IdsSplit(rows: seq<LedgerRow>, lo: int, mid: int, hi: int)
    requires lo <= mid <= hi
    ensures multiset(IdsBetween(rows, lo, mid) + IdsBetween(rows, mid, hi)) == multiset(IdsBetween(rows, lo, hi))
  {
    if rows != [] {
      IdsSplit(rows[1..], lo, mid, hi);
    }
  }

  lemma {:induction false} IdsEmpty(rows: seq<LedgerRow>, lo: int, hi: int)
    requires forall i :: 0 <= i < |rows| ==> !(lo <= rows[i].createdAt < hi)
    ensures IdsBetween(rows, lo, hi) == []
  {
    if rows != [] {
      IdsEmpty(rows[1..], lo, hi);
    }
  }

  lemma {:induction false} IdsSplitInOrder(rows: seq<LedgerRow>, lo: int, mid: int, hi: int)
    requires lo <= mid <= hi && CreatedInOrder(rows)
    ensures IdsBetween(rows, lo, mid) + IdsBetween(rows, mid, hi) == IdsBetween(rows, lo, hi)
  {
    if rows != [] {
      IdsSplitInOrder(rows[1..], lo, mid, hi);
      if rows[0].createdAt >= mid {
        IdsEmpty(rows, lo, mid);
      }
    }
  }

  /** The window compute_segment_hash queries is the month's tile. */
  lemma SegmentCoversItsMonth(h: Digest, rows: seq<LedgerRow>, k: int, prev: Option<string>, sha: string)
    ensures var r := ComputeSegmentHash(h, rows, YearOf(k), MonthOf(k), prev, sha);
      var ids := MonthIds(rows, k);
      && r.entryCount == |ids| && r.segmentHash == SegmentDigest(h, prev, ids, sha)
      && r.firstId == (if ids == [] then None else Some(ids[0]))
      && r.lastId == (if ids == [] then None else Some(ids[|ids| - 1]))
  {
    hide SegmentDigest;
    var n := NextMonth(YearOf(k), MonthOf(k));
    assert MonthNumber(YearOf(k), MonthOf(k)) == k;
    assert n.0 == YearOf(k + 1) && n.1 == MonthOf(k + 1);
  }

  /** Any run of months lists exactly the ids created in its span, each once per row. */
  lemma {:induction false} MonthsPartitionSpan(
      h: Digest, rows: seq<LedgerRow>, k: int, n: nat, prev: Option<string>, sha: string)
    ensures multiset(SpanIds(rows, k, n)) == multiset(IdsBetween(rows, Start(k), Start(k + n)))
    ensures EntryCounts(h, rows, k, n, prev, sha) == |IdsBetween(rows, Start(k), Start(k + n))|
    decreases n
  {
    hide ComputeSegmentHash, Start, IdsBetween, SegmentDigest, YearOf, MonthOf, MonthIds;
    if n == 0 {
      IdsEmpty(rows, Start(k), Start(k));
    } else {
      var j := k + n - 1;
      MonthsPartitionSpan(h, rows, k, n - 1, prev, sha);
      SegmentCoversItsMonth(h, rows, j, prev, sha);
      SpanCounts(rows, k, n - 1);
    }
  }

  lemma SpanCounts(rows: seq<LedgerRow>, k: int, n: nat)
    requires multiset(SpanIds(rows, k, n)) == multiset(IdsBetween(rows, Start(k), Start(k + n)))
    ensures var all := IdsBetween(rows, Start(k), Start(k + n + 1));
      && multiset(SpanIds(rows, k, n) + MonthIds(rows, k + n)) == multiset(all)
      && |IdsBetween(rows, Start(k), Start(k + n))| + |MonthIds(rows, k + n)| == |all|
  {
    hide SpanIds, Start, IdsBetween;
    var (lo, mid, hi) := (Start(k), Start(k + n), Start(k + n + 1));
    StartOrder(k, k + n);
    IdsSplit(rows, lo, mid, hi);
    SameElements(IdsBetween(rows, lo, mid) + IdsBetween(rows, mid, hi), IdsBetween(rows, lo, hi));
  }

  /** If rows were created in id order, the months' lists joined are the span's ids in id order. */
  lemma {:induction false} MonthsInOrder(rows: seq<LedgerRow>, k: int, n: nat)
    requires CreatedInOrder(rows)
    ensures SpanIds(rows, k, n) == IdsBetween(rows, Start(k), Start(k + n))
    decreases n
  {
    hide Start, IdsBetween, CreatedInOrder;
    if n == 0 {
      IdsEmpty(rows, Start(k), Start(k));
    } else {
      var j := k + n - 1;
      MonthsInOrder(rows, k, n - 1);
      StartOrder(k, j);
      IdsSplitInOrder(rows, Start(k), Start(j), Start(j + 1));
    }
  }

  lemma StartOrder(j: int, k: int)
    requires j <= k
    ensures Start(j) <= Start(k) <= Start(k + 1)
  {
    StartMonotone(j, k);
    StartMonotone(k, k + 1);
  }

  // ----- the last segment hash commits to every month -----

  /** One published month: the ids it covered and the policy SHA it was computed under. */
  datatype Segment = Segment(ids: seq<int>, sha: string)

  /** The hash of the last segment when each month is fed the one before, the first month none. */
  function ChainHash(h: Digest, chain: seq<Segment>): (r: Option<string>)
    ensures r.None? <==> chain == []
    ensures r.Some? ==> |r.value| == 64 && NulFree(r.value)
  {
    if chain == [] then None
    else
      var last := chain[|chain| - 1];
      var s := SegmentDigest(h, ChainHash(h, chain[..|chain| - 1]), last.ids, last.sha);
      assert IsHex64(s);
      Some(s)
  }

  /** The two pre-images behind month i of a chain. */
  function OuterBody(h: Digest, chain: seq<Segment>, i: nat): Bytes
    requires i < |chain|
  {
    SegmentBody(h, ChainHash(h, chain[..i]), chain[i].ids, chain[i].sha)
  }

  ghost predicate SegmentCollision(h: Digest, a: seq<Segment>, b: seq<Segment>) {
    exists i, j :: 0 <= i < |a| && 0 <= j < |b| && MonthsCollide(h, a, i, b, j)
  }

  predicate MonthsCollide(h: Digest, a: seq<Segment>, i: nat, b: seq<Segment>, j: nat)
    requires i < |a| && j < |b|
  {
    Collides(h, OuterBody(h, a, i), OuterBody(h, b, j)) || Collides(h, IdsBody(a[i].ids), IdsBody(b[j].ids))
  }

  /** The id text determines the id list; an empty month has the only empty text. */
  lemma {:induction false} JoinIdsInjective(a: seq<int>, b: seq<int>)
    requires JoinIds(a) == JoinIds(b)
    ensures a == b
  {
    hide Str;
    if a != [] && b != [] {
      StrUnique(a[0], JoinRest(a[1..]), b[0], JoinRest(b[1..]));
      if a[1..] != [] {
        CutAt("\n", JoinIds(a[1..]), "\n", JoinIds(b[1..]));
      }
      JoinIdsInjective(a[1..], b[1..]);
      assert a == [a[0]] + a[1..] && b == [b[0]] + b[1..];
    }
  }

  lemma IdsBodyInjective(a: seq<int>, b: seq<int>)
    requires IdsBody(a) == IdsBody(b)
    ensures a == b
  {
    Utf8Injective(JoinIds(a), JoinIds(b));
    JoinIdsInjective(a, b);
  }

  /** Two framings with NUL-free heads agree field by field; the last field may hold anything. */
  lemma JoinNulHeads(p: string, x: string, s: string, q: string, y: string, t: string)
    requires NulFree(p) && NulFree(x) && NulFree(q) && NulFree(y)
    requires JoinNul([p, x, s]) == JoinNul([q, y, t])
    ensures p == q && x == y && s == t
  {
    hide Utf8;
    JoinNulTriple(p, x, s);
    JoinNulTriple(q, y, t);
    SplitUnique(NotNul, Utf8(p), [0] + (Utf8(x) + ([0] + Utf8(s))), Utf8(q), [0] + (Utf8(y) + ([0] + Utf8(t))));
    CutAt([0], Utf8(x) + ([0] + Utf8(s)), [0], Utf8(y) + ([0] + Utf8(t)));
    SplitUnique(NotNul, Utf8(x), [0] + Utf8(s), Utf8(y), [0] + Utf8(t));
    CutAt([0], Utf8(s), [0], Utf8(t));
    Utf8Injective(p, q);
    Utf8Injective(x, y);
    Utf8Injective(s, t);
  }

  lemma JoinNulTriple(p: string, x: string, s: string)
    ensures JoinNul([p, x, s]) == Utf8(p) + ([0] + (Utf8(x) + ([0] + Utf8(s))))
  {
    JoinNulCons(p, [x, s]);
    JoinNulCons(x, [s]);
    assert [p, x, s] == [p] + [x, s] && [x, s] == [x] + [s];
  }

  /** One step back: equal chain hashes give the same month and equal hashes before it, or a collision. */
  lemma ChainStep(h: Digest, a: seq<Segment>, b: seq<Segment>)
    requires a != [] && b != [] && ChainHash(h, a) == ChainHash(h, b)
    ensures var (m, n) := (|a| - 1, |b| - 1);
      MonthsCollide(h, a, m, b, n) || (a[m] == b[n] && ChainHash(h, a[..m]) == ChainHash(h, b[..n]))
  {
    hide Utf8, JoinNul;
    var (m, n) := (|a| - 1, |b| - 1);
    if OuterBody(h, a, m) == OuterBody(h, b, n) {
      var (p, q) := (ChainHash(h, a[..m]), ChainHash(h, b[..n]));
      var (x, y) := (h(IdsBody(a[m].ids)), h(IdsBody(b[n].ids)));
      assert IsHex64(x) && IsHex64(y);
      HexIsPlain(x);
      HexIsPlain(y);
      JoinNulHeads(OrEmpty(p), x, a[m].sha, OrEmpty(q), y, b[n].sha);
      if IdsBody(a[m].ids) == IdsBody(b[n].ids) {
        IdsBodyInjective(a[m].ids, b[n].ids);
      }
    }
  }

  /** Segment chain commitment: one last hash, one history of months, or an explicit collision. */
  lemma {:induction false} ChainCommits(h: Digest, a: seq<Segment>, b: seq<Segment>)
    requires ChainHash(h, a) == ChainHash(h, b)
    ensures a == b || SegmentCollision(h, a, b)
    decreases |a|
  {
    hide ChainHash, MonthsCollide;
    if a != [] && b != [] {
      var (m, n) := (|a| - 1, |b| - 1);
      ChainStep(h, a, b);
      if !MonthsCollide(h, a, m, b, n) {
        ChainCommits(h, a[..m], b[..n]);
        if SegmentCollision(h, a[..m], b[..n]) {
          SegmentCollisionInLonger(h, a, m, b, n);
        } else {
          assert a == a[..m] + [a[m]] && b == b[..n] + [b[n]];
        }
      }
    }
  }

  lemma SegmentCollisionInLonger(h: Digest, a: seq<Segment>, m: nat, b: seq<Segment>, n: nat)
    requires m <= |a| && n <= |b| && SegmentCollision(h, a[..m], b[..n])
    ensures SegmentCollision(h, a, b)
  {
    hide ChainHash, Collides, SegmentBody, IdsBody;
    var i, j :| 0 <= i < m && 0 <= j < n && MonthsCollide(h, a[..m], i, b[..n], j);
    assert a[..m][..i] == a[..i] && b[..n][..j] == b[..j];
    assert MonthsCollide(h, a, i, b, j);
  }

  /**
   * A month without entries still moves the chain: its hash differs from the one before it, or a collision is at hand.
   */
  lemma EmptyMonthIsCounted(h: Digest, chain: seq<Segment>, sha: string)
    ensures var longer := chain + [Segment([], sha)];
      ChainHash(h, longer) != ChainHash(h, chain) || SegmentCollision(h, longer, chain)
  {
    hide ChainHash, SegmentCollision;
    var longer := chain + [Segment([], sha)];
    assert |longer| != |chain|;
    if ChainHash(h, longer) == ChainHash(h, chain) {
      ChainCommits(h, longer, chain);
    }
  }

  /**
   * The month itself is not hashed: on top of one hash and SHA, two months share a segment hash exactly when they list
   * the same ids, up to a collision.
   */
  lemma MonthLabelNotHashed(
      h: Digest, a: seq<LedgerRow>, j: int, b: seq<LedgerRow>, k: int, prev: Option<string>, sha: string)
    ensures var (x, y) := (MonthIds(a, j), MonthIds(b, k));
      var equal := ComputeSegmentHash(h, a, YearOf(j), MonthOf(j), prev, sha).segmentHash
                == ComputeSegmentHash(h, b, YearOf(k), MonthOf(k), prev, sha).segmentHash;
      && (x == y ==> equal)
      && (equal ==>
            || x == y
            || Collides(h, IdsBody(x), IdsBody(y))
            || Collides(h, SegmentBody(h, prev, x, sha), SegmentBody(h, prev, y, sha)))
  {
    hide ComputeSegmentHash, MonthIds, JoinNul, IdsBody;
    SegmentCoversItsMonth(h, a, j, prev, sha);
    SegmentCoversItsMonth(h, b, k, prev, sha);
    var (x, y) := (MonthIds(a, j), MonthIds(b, k));
    if SegmentBody(h, prev, x, sha) == SegmentBody(h, prev, y, sha) {
      JoinNulMiddle(OrEmpty(prev), h(IdsBody(x)), h(IdsBody(y)), sha);
      if IdsBody(x) == IdsBody(y) {
        IdsBodyInjective(x, y);
      }
    }
  }

  /** Between the same outer fields, the middle one is determined. */
  lemma JoinNulMiddle(p: string, x: string, y: string, s: string)
    requires JoinNul([p, x, s]) == JoinNul([p, y, s])
    ensures x == y
  {
    hide Utf8;
    JoinNulTriple(p, x, s);
    JoinNulTriple(p, y, s);
    var tail := [0] + Utf8(s);
    assert Utf8(p) + ([0] + (Utf8(x) + tail)) == Utf8(p) + ([0] + (Utf8(y) + tail));
    CutAt(Utf8(p), [0] + (Utf8(x) + tail), Utf8(p), [0] + (Utf8(y) + tail));
    CutAt([0], Utf8(x) + tail, [0], Utf8(y) + tail);
    assert |Utf8(x) + tail| == |Utf8(y) + tail|;
    CutAt(Utf8(x), tail, Utf8(y), tail);
    Utf8Injective(x, y);
  }

  /** The last of the first n months of the monthly job: each month is fed the hash of the one before. */
  function MonthlyRun(h: Digest, rows: seq<LedgerRow>, k: int, shas: seq<string>, n: nat): Option<string>
    requires n <= |shas|
    decreases n, 0
  {
    if n == 0 then None else Some(Published(h, rows, k, shas, n - 1).segmentHash)
  }

  /** What the monthly job publishes for month k + i. */
  function Published(h: Digest, rows: seq<LedgerRow>, k: int, shas: seq<string>, i: nat): SegmentResult
    requires i < |shas|
    decreases i, 1
  {
    ComputeSegmentHash(h, rows, YearOf(k + i), MonthOf(k + i), MonthlyRun(h, rows, k, shas, i), shas[i])
  }

  function MonthlySegments(rows: seq<LedgerRow>, k: int, shas: seq<string>, n: nat): seq<Segment>
    requires n <= |shas|
  {
    seq(n, i requires 0 <= i < n => Segment(MonthIds(rows, k + i), shas[i]))
  }

  lemma PublishedIsDigest(h: Digest, rows: seq<LedgerRow>, k: int, shas: seq<string>, i: nat)
    requires i < |shas|
    ensures Published(h, rows, k, shas, i).segmentHash
         == SegmentDigest(h, MonthlyRun(h, rows, k, shas, i), MonthIds(rows, k + i), shas[i])
  {
    hide ComputeSegmentHash, MonthIds, SegmentDigest, YearOf, MonthOf, MonthlyRun;
    SegmentCoversItsMonth(h, rows, k + i, MonthlyRun(h, rows, k, shas, i), shas[i]);
  }

  lemma ChainStepBack(h: Digest, chain: seq<Segment>)
    requires chain != []
    ensures var n := |chain| - 1;
      ChainHash(h, chain) == Some(SegmentDigest(h, ChainHash(h, chain[..n]), chain[n].ids, chain[n].sha))
  {
    hide SegmentDigest;
  }

  lemma SegmentsStepBack(rows: seq<LedgerRow>, k: int, shas: seq<string>, n: nat)
    requires 0 < n <= |shas|
    ensures var segs := MonthlySegments(rows, k, shas, n);
      && |segs| == n && segs[..n - 1] == MonthlySegments(rows, k, shas, n - 1)
      && segs[n - 1] == Segment(MonthIds(rows, k + n - 1), shas[n - 1])
  {
    hide MonthIds;
  }

  /** The monthly job produces the chain hash of its months' segments. */
  lemma {:induction false} MonthlyRunIsChain(h: Digest, rows: seq<LedgerRow>, k: int, shas: seq<string>, n: nat)
    requires n <= |shas|
    ensures MonthlyRun(h, rows, k, shas, n) == ChainHash(h, MonthlySegments(rows, k, shas, n))
    decreases n
  {
    hide Published, ChainHash, MonthIds, SegmentDigest;
    if n > 0 {
      MonthlyRunIsChain(h, rows, k, shas, n - 1);
      PublishedIsDigest(h, rows, k, shas, n - 1);
      SegmentsStepBack(rows, k, shas, n);
      ChainStepBack(h, MonthlySegments(rows, k, shas, n));
    }
  }

  /**
   * Two ledgers whose monthly runs end in one hash had the same months' id lists and SHAs, or a collision is at hand.
   */
  lemma MonthlyRunsCommit(
      h: Digest, a: seq<LedgerRow>, j: int, shasA: seq<string>, b: seq<LedgerRow>, k: int, shasB: seq<string>)
    requires MonthlyRun(h, a, j, shasA, |shasA|) == MonthlyRun(h, b, k, shasB, |shasB|)
    ensures var (x, y) := (MonthlySegments(a, j, shasA, |shasA|), MonthlySegments(b, k, shasB, |shasB|));
      x == y || SegmentCollision(h, x, y)
  {
    hide MonthlySegments, MonthlyRun, ChainHash, SegmentCollision;
    MonthlyRunIsChain(h, a, j, shasA, |shasA|);
    MonthlyRunIsChain(h, b, k, shasB, |shasB|);
    ChainCommits(h, MonthlySegments(a, j, shasA, |shasA|), MonthlySegments(b, k, shasB, |shasB|));
  }

  // ----- later rows change no earlier month -----

  /** b is a, with rows appended that were created at or after this instant. */
  predicate GrowsAfter(a: seq<LedgerRow>, b: seq<LedgerRow>, at: int) {
    a <= b && forall i :: |a| <= i < |b| ==> b[i].createdAt >= at
  }

  lemma {:induction false} IdsConcat(a: seq<LedgerRow>, b: seq<LedgerRow>, lo: int, hi: int)
    ensures IdsBetween(a + b, lo, hi) == IdsBetween(a, lo, hi) + IdsBetween(b, lo, hi)
  {
    if a == [] {
      assert a + b == b;
    } else {
      IdsConcat(a[1..], b, lo, hi);
      assert (a + b)[0] == a[0] && (a + b)[1..] == a[1..] + b;
      var first := if lo <= a[0].createdAt < hi then [a[0].id] else [];
      Associate(first, IdsBetween(a[1..], lo, hi), IdsBetween(b, lo, hi));
    }
  }

  /** Appends created after a month leave its id list as it was. */
  lemma MonthIsClosed(a: seq<LedgerRow>, b: seq<LedgerRow>, k: int)
    requires GrowsAfter(a, b, Start(k + 1))
    ensures MonthIds(b, k) == MonthIds(a, k)
  {
    hide Start;
    var more := b[|a|..];
    assert b == a + more;
    IdsConcat(a, more, Start(k), Start(k + 1));
    IdsEmpty(more, Start(k), Start(k + 1));
  }

  /** The monthly job as it happens: month k + i is hashed on the table of its own day. */
  function MonthlyJobs(h: Digest, tables: nat -> seq<LedgerRow>, k: int, shas: seq<string>, n: nat): Option<string>
    requires n <= |shas|
    decreases n
  {
    if n == 0 then None
    else
      var (i, prev) := (n - 1, MonthlyJobs(h, tables, k, shas, n - 1));
      Some(ComputeSegmentHash(h, tables(i), YearOf(k + i), MonthOf(k + i), prev, shas[i]).segmentHash)
  }

  lemma SameIdsSameHash(h: Digest, a: seq<LedgerRow>, b: seq<LedgerRow>, k: int, prev: Option<string>, sha: string)
    requires MonthIds(a, k) == MonthIds(b, k)
    ensures ComputeSegmentHash(h, a, YearOf(k), MonthOf(k), prev, sha).segmentHash
         == ComputeSegmentHash(h, b, YearOf(k), MonthOf(k), prev, sha).segmentHash
  {
    hide *;
    MonthLabelNotHashed(h, a, k, b, k, prev, sha);
  }

  lemma MonthlyJobsUnfold(h: Digest, tables: nat -> seq<LedgerRow>, k: int, shas: seq<string>, i: nat)
    requires i < |shas|
    ensures var prev := MonthlyJobs(h, tables, k, shas, i);
      MonthlyJobs(h, tables, k, shas, i + 1)
        == Some(ComputeSegmentHash(h, tables(i), YearOf(k + i), MonthOf(k + i), prev, shas[i]).segmentHash)
  {
    hide ComputeSegmentHash, YearOf, MonthOf;
  }

  lemma MonthlyRunUnfold(h: Digest, rows: seq<LedgerRow>, k: int, shas: seq<string>, i: nat)
    requires i < |shas|
    ensures var prev := MonthlyRun(h, rows, k, shas, i);
      MonthlyRun(h, rows, k, shas, i + 1)
        == Some(ComputeSegmentHash(h, rows, YearOf(k + i), MonthOf(k + i), prev, shas[i]).segmentHash)
  {
    hide ComputeSegmentHash, YearOf, MonthOf;
  }

  /** Every month was hashed on a table to which later only rows created after that month were added. */
  ghost predicate MonthsClosed(tables: nat -> seq<LedgerRow>, later: seq<LedgerRow>, k: int, n: nat) {
    forall i: nat :: i < n ==> GrowsAfter(tables(i), later, Start(k + i + 1))
  }

  /** Reproducibility: a later table that only appended rows created after each month gives the same hashes. */
  lemma {:induction false} SegmentsReproduce(
      h: Digest, tables: nat -> seq<LedgerRow>, later: seq<LedgerRow>, k: int, shas: seq<string>, n: nat)
    requires n <= |shas| && MonthsClosed(tables, later, k, n)
    ensures MonthlyJobs(h, tables, k, shas, n) == MonthlyRun(h, later, k, shas, n)
    decreases n
  {
    hide *;
    if n > 0 {
      var i := n - 1;
      ClosedAt(tables, later, k, n, i);
      SegmentsReproduce(h, tables, later, k, shas, i);
      MonthlyJobsUnfold(h, tables, k, shas, i);
      MonthlyRunUnfold(h, later, k, shas, i);
      SameIdsSameHash(h, tables(i), later, k + i, MonthlyRun(h, later, k, shas, i), shas[i]);
    } else {
      NoMonths(h, tables, later, k, shas);
    }
  }

  lemma ClosedAt(tables: nat -> seq<LedgerRow>, later: seq<LedgerRow>, k: int, n: nat, i: nat)
    requires i < n && MonthsClosed(tables, later, k, n)
    ensures MonthsClosed(tables, later, k, i) && MonthIds(tables(i), k + i) == MonthIds(later, k + i)
  {
    hide GrowsAfter, Start, MonthIds;
    MonthIsClosed(tables(i), later, k + i);
  }

  lemma NoMonths(h: Digest, tables: nat -> seq<LedgerRow>, later: seq<LedgerRow>, k: int, shas: seq<string>)
    ensures MonthlyJobs(h, tables, k, shas, 0) == MonthlyRun(h, later, k, shas, 0)
  {
  }

  // ----- the digested texts, spelled out -----

  /** The id text: decimal numbers with a newline between them. */
  lemma {:induction false} JoinIdsSpelled(ids: seq<int>, id: int)
    ensures JoinIds([]) == "" && JoinIds([id]) == Str(id)
    ensures ids != [] ==> JoinIds(ids + [id]) == JoinIds(ids) + "\n" + Str(id)
  {
    hide Str;
    assert [id][1..] == [] && JoinIds([id]) == Str(id) + "";
    if ids != [] {
      var all := ids + [id];
      assert all[0] == ids[0] && all[1..] == ids[1..] + [id];
      if |ids| > 1 {
        JoinIdsSpelled(ids[1..], id);
        RegroupIds(Str(ids[0]), JoinIds(ids[1..]), Str(id));
      } else {
        assert ids[1..] == [] && JoinIds(ids) == Str(ids[0]) + "";
        JoinIdsSpelled([], id);
        assert all[1..] == [id];
      }
    }
  }

  lemma RegroupIds(a: string, b: string, c: string)
    ensures a + ("\n" + (b + "\n" + c)) == (a + ("\n" + b)) + "\n" + c
  {
  }

  /** The pre-image: previous hash or nothing, digest of the id text, policy SHA, with a NUL between them. */
  lemma SegmentSpelled(h: Digest, rows: seq<LedgerRow>, k: int, prev: Option<string>, sha: string)
    ensures var r := ComputeSegmentHash(h, rows, YearOf(k), MonthOf(k), prev, sha);
      && r.segmentHash
         == h(Utf8(if prev.Some? then prev.value else "") + [0] + Utf8(h(Utf8(JoinIds(MonthIds(rows, k))))) + [0]
              + Utf8(sha))
      && r.year == YearOf(k) && r.month == MonthOf(k) && r.prevSegmentHash == prev
  {
    hide Utf8, MonthIds, JoinIds, IdsBetween;
    SegmentCoversItsMonth(h, rows, k, prev, sha);
    var x := h(Utf8(JoinIds(MonthIds(rows, k))));
    JoinNulTriple(OrEmpty(prev), x, sha);
    FlattenSegment(Utf8(OrEmpty(prev)), Utf8(x), Utf8(sha));
  }

  lemma FlattenSegment(a: Bytes, b: Bytes, c: Bytes)
    ensures a + ([0] + (b + ([0] + c))) == a + [0] + b + [0] + c
  {
  }
}
