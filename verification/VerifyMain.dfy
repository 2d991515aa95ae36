/** The verifier's entry point: the replay, then the continuity check against the previous month's archive. */
module VerifyMain {
  import opened Basics
  import opened Encoding
  import opened CanonicalJson
  import opened HashChain
  import opened LedgerTable
  import opened Calendar
  import opened SegmentHash
  import opened VerifyLedger

  // ----- the previous month's archive file -----

  /** What the checks of _load_prev_segment let through. */
  datatype PrevSegment = PrevSegment(segmentHash: string, month: Json)

  datatype PrevError = Unreadable | NotAnObject | MissingKeys(keys: seq<string>) | NotHex

  datatype Loaded = Valid(segment: PrevSegment) | Invalid(error: PrevError)

  function Lookup(fs: seq<Field>, key: string): Option<Json> {
    if fs == [] then None else if fs[0].key == key then Some(fs[0].value) else Lookup(fs[1..], key)
  }

  /** `^[0-9a-f]{64}$`, where `$` also matches before a final newline. */
  predicate IsSegmentHash(s: string) {
    IsHex64(s) || (|s| == 65 && s[64] == '\n' && IsHex64(s[..64]))
  }

  /** _load_prev_segment; the file is None when reading or parsing it raises. */
  function LoadPrevSegment(file: Option<Json>): Loaded {
    match file
    case Some(Obj(fs)) =>
      var (month, hash) := (Lookup(fs, "month"), Lookup(fs, "segment_hash"));
      var missing := (if month.None? then ["month"] else []) + (if hash.None? then ["segment_hash"] else []);
      if missing != [] then Invalid(MissingKeys(missing))
      else if hash.value.Text? && IsSegmentHash(hash.value.s) then Valid(PrevSegment(hash.value.s, month.value))
      else Invalid(NotHex)
    case Some(_) => Invalid(NotAnObject)
    case None => Invalid(Unreadable)
  }

  // ----- main -----

  datatype Verdict = Ok | ChainBroken | VerifyFailed

  datatype Failure = HashingRaised | BadPrevSegment(error: PrevError)

  datatype Continuity = Continuity(
    prevMonth: Json, prevSegmentHash: string, thisSegmentHash: string, thisYear: int, thisMonth: int)

  datatype Report = Report(
    verdict: Verdict, mismatches: seq<Mismatch>, continuity: Option<Continuity>, error: Option<Failure>)

  /** The month's segment recomputed on top of a loaded one. */
  function Recompute(h: Digest, rows: seq<LedgerRow>, prev: PrevSegment, year: int, month: int, sha: string): Continuity
    requires 1 <= month <= 12
  {
    var seg := ComputeSegmentHash(h, rows, year, month, Some(prev.segmentHash), sha);
    Continuity(prev.month, prev.segmentHash, seg.segmentHash, seg.year, seg.month)
  }

  /** The script's main on an open database; prevFile is None without --prev-segment-json. */
  method Audit(
      h: Digest, rows: seq<LedgerRow>, prevFile: Option<Option<Json>>, year: Option<int>, month: Option<int>,
      sha: string)
    returns (r: Report)
    requires year.Some? ==> 2020 <= year.value <= 2100
    requires month.Some? ==> 1 <= month.value <= 12
    ensures var asked := prevFile.Some? && year.Some? && month.Some?;
      var usable := asked ==> LoadPrevSegment(prevFile.value).Valid?;
      && (r.verdict.Ok? <==> Clean(h, rows) && usable)
      && (r.verdict.ChainBroken? <==> AllEncodable(rows) && !Clean(h, rows) && usable)
      && r.mismatches == (if AllEncodable(rows) then LocalReports(h, rows, |rows|) else [])
      && (r.continuity.Some? <==> AllEncodable(rows) && asked && usable)
      && (r.continuity.Some? ==>
            var prev := LoadPrevSegment(prevFile.value).segment;
            r.continuity.value == Recompute(h, rows, prev, year.value, month.value, sha))
      && r.error == (if !AllEncodable(rows) then Some(HashingRaised)
                     else if !usable then Some(BadPrevSegment(LoadPrevSegment(prevFile.value).error)) else None)
  {
    hide AllEncodable, Clean, LocalReports, LoadPrevSegment, ComputeSegmentHash;
    r := Report(Ok, [], None, None);
    var mismatches := VerifyChain(h, rows);
    if mismatches.None? {
      NotEncodableNotClean(h, rows);
      return r.(verdict := VerifyFailed, error := Some(HashingRaised));
    }
    r := r.(mismatches := mismatches.value);
    if mismatches.value != [] {
      r := r.(verdict := ChainBroken);
    }
    if prevFile.Some? && year.Some? && month.Some? {
      match LoadPrevSegment(prevFile.value)
      case Invalid(error) =>
        r := r.(verdict := VerifyFailed, error := Some(BadPrevSegment(error)));
      case Valid(prev) =>
        var seg := ComputeSegmentHash(h, rows, year.value, month.value, Some(prev.segmentHash), sha);
        r := r.(continuity := Some(Continuity(prev.month, prev.segmentHash, seg.segmentHash, seg.year, seg.month)));
    }
  }

  lemma NotEncodableNotClean(h: Digest, rows: seq<LedgerRow>)
    requires !AllEncodable(rows)
    ensures !Clean(h, rows)
  {
    hide Encodable, EntryHash;
    var i :| 0 <= i < |rows| && !Encodable(rows[i].entry);
    assert !RowOk(h, rows, i);
  }

  // ----- the archive the monthly job writes -----

  function ZeroPad(s: string, width: nat): string
    decreases width - |s|
  {
    if |s| >= width then s else ZeroPad("0" + s, width)
  }

  /** f"{year:04d}-{month:02d}" */
  function MonthLabel(year: nat, month: nat): string {
    ZeroPad(Digits(year), 4) + "-" + ZeroPad(Digits(month), 2)
  }

  function OptInt(n: Option<int>): Json { if n.Some? then Int(n.value) else Null }

  function OptText(s: Option<string>): Json { if s.Some? then Text(s.value) else Null }

  /** The JSON object of one month, keys sorted. */
  function Archive(s: SegmentResult, computedAt: string, sha: string): Json
    requires s.year >= 0 && s.month >= 0
  {
    Obj([Field("computed_at_utc", Text(computedAt)),
         Field("entry_count", Int(s.entryCount)),
         Field("first_id", OptInt(s.firstId)),
         Field("last_id", OptInt(s.lastId)),
         Field("month", Text(MonthLabel(s.year, s.month))),
         Field("policy_version_git_sha", Text(sha)),
         Field("prev_segment_hash", OptText(s.prevSegmentHash)),
         Field("segment_hash", Text(s.segmentHash))])
  }

  lemma {:induction false} LookupAt(fs: seq<Field>, key: string, i: nat)
    requires i < |fs| && fs[i].key == key && forall j :: 0 <= j < i ==> fs[j].key != key
    ensures Lookup(fs, key) == Some(fs[i].value)
  {
    if i > 0 {
      LookupAt(fs[1..], key, i - 1);
    }
  }

  /** Every archive the monthly job writes is accepted, under its own hash and month. */
  lemma ArchiveLoads(s: SegmentResult, computedAt: string, sha: string)
    requires s.year >= 0 && s.month >= 0 && IsHex64(s.segmentHash)
    ensures LoadPrevSegment(Some(Archive(s, computedAt, sha)))
         == Valid(PrevSegment(s.segmentHash, Text(MonthLabel(s.year, s.month))))
  {
    hide MonthLabel, IsHex64;
    var fs := Archive(s, computedAt, sha).fields;
    LookupAt(fs, "month", 4);
    LookupAt(fs, "segment_hash", 7);
  }

  // ----- what comparing recomputed hashes tells -----

  lemma LoadedHashIsPlain(file: Option<Json>)
    requires LoadPrevSegment(file).Valid?
    ensures NulFree(LoadPrevSegment(file).segment.segmentHash)
  {
    hide Lookup;
    var s := LoadPrevSegment(file).segment.segmentHash;
    if !IsHex64(s) {
      HexIsPlain(s[..64]);
      assert s == s[..64] + [s[64]];
    } else {
      HexIsPlain(s);
    }
  }

  lemma PublishedIsRun(h: Digest, rows: seq<LedgerRow>, k: int, shas: seq<string>, i: nat)
    requires i < |shas|
    ensures var s := Published(h, rows, k, shas, i);
      && MonthlyRun(h, rows, k, shas, i + 1) == Some(s.segmentHash) && IsHex64(s.segmentHash)
      && s.year == YearOf(k + i) && s.month == MonthOf(k + i)
  {
    hide IdsBetween, MonthStart, NextMonth, SegmentBody, YearOf, MonthOf;
  }

  /** Fed the archive of the month before, the verifier recomputes exactly what the monthly job publishes next. */
  lemma ContinuityReproduces(
      h: Digest, rows: seq<LedgerRow>, k: int, shas: seq<string>, i: nat, computedAt: string)
    requires i + 1 < |shas| && k >= 0
    ensures var before := Published(h, rows, k, shas, i);
      && before.year >= 0 && before.month >= 0
      && var loaded := LoadPrevSegment(Some(Archive(before, computedAt, shas[i])));
         && loaded.Valid?
         && Recompute(h, rows, loaded.segment, YearOf(k + i + 1), MonthOf(k + i + 1), shas[i + 1]).thisSegmentHash
            == Published(h, rows, k, shas, i + 1).segmentHash
  {
    hide ComputeSegmentHash, MonthlyRun, Archive, LoadPrevSegment, MonthLabel;
    PublishedIsRun(h, rows, k, shas, i);
    ArchiveLoads(Published(h, rows, k, shas, i), computedAt, shas[i]);
  }

  /**
   * Equal recomputed hashes mean one previous hash, one id list and one policy SHA, or an explicit collision; and only
   * those are compared.
   */
  lemma ContinuityCommits(
      h: Digest, a: seq<LedgerRow>, f: Option<Json>, j: int, s: string, b: seq<LedgerRow>, g: Option<Json>, k: int,
      t: string)
    requires LoadPrevSegment(f).Valid? && LoadPrevSegment(g).Valid?
    ensures var (p, q) := (LoadPrevSegment(f).segment, LoadPrevSegment(g).segment);
      var equal := Recompute(h, a, p, YearOf(j), MonthOf(j), s).thisSegmentHash
                == Recompute(h, b, q, YearOf(k), MonthOf(k), t).thisSegmentHash;
      var (x, y) := (MonthIds(a, j), MonthIds(b, k));
      var same := p.segmentHash == q.segmentHash && x == y && s == t;
      && (same ==> equal)
      && (equal ==>
            || same
            || Collides(h, IdsBody(x), IdsBody(y))
            || Collides(h, SegmentBody(h, Some(p.segmentHash), x, s), SegmentBody(h, Some(q.segmentHash), y, t)))
  {
    hide ComputeSegmentHash, MonthIds, JoinNul, Utf8, LoadPrevSegment, IdsBody;
    var (p, q) := (LoadPrevSegment(f).segment.segmentHash, LoadPrevSegment(g).segment.segmentHash);
    var (x, y) := (MonthIds(a, j), MonthIds(b, k));
    SegmentCoversItsMonth(h, a, j, Some(p), s);
    SegmentCoversItsMonth(h, b, k, Some(q), t);
    if SegmentBody(h, Some(p), x, s) == SegmentBody(h, Some(q), y, t) {
      var (u, v) := (h(IdsBody(x)), h(IdsBody(y)));
      assert IsHex64(u) && IsHex64(v);
      HexIsPlain(u);
      HexIsPlain(v);
      LoadedHashIsPlain(f);
      LoadedHashIsPlain(g);
      JoinNulHeads(p, u, s, q, v, t);
      if IdsBody(x) == IdsBody(y) {
        IdsBodyInjective(x, y);
      }
    }
  }

  /**
   * A final newline passes the shape check, and then the recomputed hash is not the one of the clean file, or a
   * collision is at hand.
   */
  lemma NewlineIsAcceptedAndDiverges(h: Digest, rows: seq<LedgerRow>, hash: string, month: Json, k: int, sha: string)
    requires IsHex64(hash)
    ensures var clean := Some(Obj([Field("month", month), Field("segment_hash", Text(hash))]));
      var bent := Some(Obj([Field("month", month), Field("segment_hash", Text(hash + "\n"))]));
      var (p, q) := (LoadPrevSegment(clean), LoadPrevSegment(bent));
      var ids := MonthIds(rows, k);
      && p.Valid? && q.Valid?
      && (Recompute(h, rows, p.segment, YearOf(k), MonthOf(k), sha).thisSegmentHash
            != Recompute(h, rows, q.segment, YearOf(k), MonthOf(k), sha).thisSegmentHash
          || Collides(h, SegmentBody(h, Some(hash), ids, sha), SegmentBody(h, Some(hash + "\n"), ids, sha)))
  {
    hide Recompute, MonthIds, SegmentBody, IdsBody;
    var clean := Obj([Field("month", month), Field("segment_hash", Text(hash))]);
    var bent := Obj([Field("month", month), Field("segment_hash", Text(hash + "\n"))]);
    LookupAt(clean.fields, "month", 0);
    LookupAt(clean.fields, "segment_hash", 1);
    LookupAt(bent.fields, "month", 0);
    LookupAt(bent.fields, "segment_hash", 1);
    assert (hash + "\n")[..64] == hash;
    assert IsSegmentHash(hash + "\n");
    assert LoadPrevSegment(Some(bent)) == Valid(PrevSegment(hash + "\n", month));
    ContinuityCommits(h, rows, Some(clean), k, sha, rows, Some(bent), k, sha);
  }

  /** The archive of month k + i with another segment hash put in. */
  function Altered(
      h: Digest, rows: seq<LedgerRow>, k: int, shas: seq<string>, i: nat, hash: string, computedAt: string): Json
    requires i < |shas| && k >= 0
  {
    assert Published(h, rows, k, shas, i).year == YearOf(k + i);
    Archive(Published(h, rows, k, shas, i).(segmentHash := hash), computedAt, shas[i])
  }

  /**
   * An archive with any wrong digest in it passes as well as the right one; only comparing the recomputed hash with the
   * one published next tells them apart, up to a collision.
   */
  lemma WrongArchivePasses(
      h: Digest, rows: seq<LedgerRow>, k: int, shas: seq<string>, i: nat, hash: string, computedAt: string)
    requires i + 1 < |shas| && k >= 0 && IsHex64(hash)
    ensures var loaded := LoadPrevSegment(Some(Altered(h, rows, k, shas, i, hash, computedAt)));
      var right := Published(h, rows, k, shas, i).segmentHash;
      var (ids, sha) := (MonthIds(rows, k + i + 1), shas[i + 1]);
      && loaded.Valid? && loaded.segment.segmentHash == hash
      && var equal :=
           Recompute(h, rows, loaded.segment, YearOf(k + i + 1), MonthOf(k + i + 1), shas[i + 1]).thisSegmentHash
           == Published(h, rows, k, shas, i + 1).segmentHash;
         && (hash == right ==> equal)
         && (equal ==>
               || hash == right
               || Collides(h, SegmentBody(h, Some(hash), ids, sha), SegmentBody(h, Some(right), ids, sha)))
  {
    hide ComputeSegmentHash, MonthlyRun, Archive, LoadPrevSegment, MonthLabel, Recompute, MonthIds, SegmentBody;
    hide IdsBody;
    PublishedIsRun(h, rows, k, shas, i);
    var before := Published(h, rows, k, shas, i);
    var (bent, right) := (before.(segmentHash := hash), Some(Archive(before, computedAt, shas[i])));
    ArchiveLoads(bent, computedAt, shas[i]);
    ArchiveLoads(before, computedAt, shas[i]);
    ContinuityReproduces(h, rows, k, shas, i, computedAt);
    ContinuityCommits(h, rows, Some(Archive(bent, computedAt, shas[i])), k + i + 1, shas[i + 1],
                      rows, right, k + i + 1, shas[i + 1]);
  }

  // ----- which archives are refused -----

  /** 64 lowercase hex digits, and perhaps one newline. */
  predicate LooksLikeHash(s: string) {
    && (|s| == 64 || (|s| == 65 && s[64] == '\n'))
    && forall i :: 0 <= i < 64 ==> '0' <= s[i] <= '9' || 'a' <= s[i] <= 'f'
  }

  /** Every key of a parsed object has one value. */
  ghost predicate Holds(fs: seq<Field>, key: string, value: Json) {
    exists i :: 0 <= i < |fs| && fs[i] == Field(key, value)
  }

  lemma {:induction false} LookupMeans(fs: seq<Field>, key: string)
    requires forall i, j :: 0 <= i < j < |fs| ==> fs[i].key != fs[j].key
    ensures Lookup(fs, key).Some? <==> exists i :: 0 <= i < |fs| && fs[i].key == key
    ensures forall v :: Lookup(fs, key) == Some(v) <==> Holds(fs, key, v)
  {
    if i :| 0 <= i < |fs| && fs[i].key == key {
      LookupAt(fs, key, i);
      assert Holds(fs, key, fs[i].value);
    } else {
      LookupNone(fs, key);
    }
  }

  lemma {:induction false} LookupNone(fs: seq<Field>, key: string)
    requires forall i :: 0 <= i < |fs| ==> fs[i].key != key
    ensures Lookup(fs, key) == None
  {
    if fs != [] {
      LookupNone(fs[1..], key);
    }
  }

  /** An archive is accepted exactly when it is an object with both keys and a hash under the one. */
  lemma AcceptsExactly(file: Option<Json>, hash: string, month: Json)
    requires file.Some? && file.value.Obj? ==>
      forall i, j :: 0 <= i < j < |file.value.fields| ==> file.value.fields[i].key != file.value.fields[j].key
    ensures LoadPrevSegment(file) == Valid(PrevSegment(hash, month)) <==>
      && file.Some? && file.value.Obj? && LooksLikeHash(hash)
      && Holds(file.value.fields, "segment_hash", Text(hash)) && Holds(file.value.fields, "month", month)
  {
    hide Lookup, Holds, IsSegmentHash, LooksLikeHash;
    HashLooks(hash);
    if file.Some? && file.value.Obj? {
      LookupMeans(file.value.fields, "month");
      LookupMeans(file.value.fields, "segment_hash");
    }
  }

  lemma HashLooks(s: string)
    ensures IsSegmentHash(s) <==> LooksLikeHash(s)
  {
    if |s| == 65 {
      assert forall i :: 0 <= i < 64 ==> s[..64][i] == s[i];
    }
  }

  /** The error of a refused one: unreadable, no object, its missing keys in order, or no hash. */
  lemma RefusalsSpelled(file: Option<Json>)
    requires file.Some? && file.value.Obj? ==>
      forall i, j :: 0 <= i < j < |file.value.fields| ==> file.value.fields[i].key != file.value.fields[j].key
    ensures var r := LoadPrevSegment(file);
      && (r == Invalid(Unreadable) <==> file.None?)
      && (r == Invalid(NotAnObject) <==> file.Some? && !file.value.Obj?)
      && (file.Some? && file.value.Obj? ==>
            var (m, h) := (Lookup(file.value.fields, "month").Some?, Lookup(file.value.fields, "segment_hash").Some?);
            && (!m && !h ==> r == Invalid(MissingKeys(["month", "segment_hash"])))
            && (!m && h ==> r == Invalid(MissingKeys(["month"])))
            && (m && !h ==> r == Invalid(MissingKeys(["segment_hash"])))
            && (m && h ==> r.Valid? || r == Invalid(NotHex)))
  {
    hide Lookup, IsSegmentHash;
    assert ["month"] + [] == ["month"] && [] + ["segment_hash"] == ["segment_hash"];
    assert ["month"] + ["segment_hash"] == ["month", "segment_hash"];
  }

  /** The archive's columns, each under its key, the keys in ascending order; labels have four and two digits. */
  lemma ArchiveSpelled(s: SegmentResult, computedAt: string, sha: string)
    requires s.year >= 0 && s.month >= 0
    ensures var a := Archive(s, computedAt, sha);
      && a.Obj? && |a.fields| == 8
      && Holds(a.fields, "month", Text(MonthLabel(s.year, s.month)))
      && Holds(a.fields, "segment_hash", Text(s.segmentHash))
      && Holds(a.fields, "prev_segment_hash", match s.prevSegmentHash case Some(p) => Text(p) case None => Null)
      && Holds(a.fields, "entry_count", Int(s.entryCount))
      && Holds(a.fields, "first_id", match s.firstId case Some(n) => Int(n) case None => Null)
      && Holds(a.fields, "last_id", match s.lastId case Some(n) => Int(n) case None => Null)
      && Holds(a.fields, "computed_at_utc", Text(computedAt))
      && Holds(a.fields, "policy_version_git_sha", Text(sha))
  {
    hide MonthLabel;
    var a := Archive(s, computedAt, sha);
    assert a.fields[0].value == Text(computedAt) && a.fields[1].value == Int(s.entryCount);
    assert a.fields[2] == Field("first_id", OptInt(s.firstId)) && a.fields[3] == Field("last_id", OptInt(s.lastId));
    assert a.fields[4] == Field("month", Text(MonthLabel(s.year, s.month)));
    assert a.fields[5] == Field("policy_version_git_sha", Text(sha));
    assert a.fields[6] == Field("prev_segment_hash", OptText(s.prevSegmentHash));
    assert a.fields[7] == Field("segment_hash", Text(s.segmentHash));
  }

  lemma {:induction false} PrependedZero(s: string)
    requires All(IsDigit, s)
    ensures All(IsDigit, "0" + s) && ReadDigits("0" + s) == ReadDigits(s)
  {
    var z := "0" + s;
    if s == [] {
      assert z[..0] == [] && ReadDigits([]) == 0;
    } else {
      assert z[..|z| - 1] == "0" + s[..|s| - 1];
      PrependedZero(s[..|s| - 1]);
    }
  }

  lemma {:induction false} ZeroPadReads(s: string, width: nat)
    requires All(IsDigit, s) && |s| <= width
    ensures var z := ZeroPad(s, width); |z| == width && All(IsDigit, z) && ReadDigits(z) == ReadDigits(s)
    decreases width - |s|
  {
    if |s| < width {
      PrependedZero(s);
      ZeroPadReads("0" + s, width);
    }
  }

  lemma DigitsLength(n: nat)
    ensures n < 100 ==> |Digits(n)| <= 2
    ensures n < 10_000 ==> |Digits(n)| <= 4
  {
    hide ReadDigits;
    if n >= 10 {
      var m := n / 10;
      assert |Digits(n)| == |Digits(m)| + 1;
      if m >= 10 {
        assert |Digits(m)| == |Digits(m / 10)| + 1;
      }
    }
  }

  /** A month label is four digits that read as the year, a hyphen, and two that read as the month. */
  lemma MonthLabelSpelled(year: nat, month: nat)
    requires year < 10_000 && month < 100
    ensures var s := MonthLabel(year, month);
      && |s| == 7 && s[4] == '-' && All(IsDigit, s[..4]) && All(IsDigit, s[5..])
      && ReadDigits(s[..4]) == year && ReadDigits(s[5..]) == month
  {
    hide ZeroPad, Digits, ReadDigits;
    DigitsLength(year);
    DigitsLength(month);
    ZeroPadReads(Digits(year), 4);
    ZeroPadReads(Digits(month), 2);
    var (y, m, s) := (ZeroPad(Digits(year), 4), ZeroPad(Digits(month), 2), MonthLabel(year, month));
    assert s == y + "-" + m;
    assert s[..4] == y && s[5..] == m;
  }

  /** What the continuity part of a report holds: the archive's month and hash, the asked month and its hash on top. */
  lemma RecomputeSpelled(h: Digest, rows: seq<LedgerRow>, prev: PrevSegment, k: int, sha: string)
    ensures var c := Recompute(h, rows, prev, YearOf(k), MonthOf(k), sha);
      && c.prevMonth == prev.month && c.prevSegmentHash == prev.segmentHash
      && c.thisYear == YearOf(k) && c.thisMonth == MonthOf(k)
      && c.thisSegmentHash
         == h(Utf8(prev.segmentHash) + [0] + Utf8(h(Utf8(JoinIds(MonthIds(rows, k))))) + [0] + Utf8(sha))
  {
    hide ComputeSegmentHash, MonthIds, JoinIds, Utf8;
    SegmentSpelled(h, rows, k, Some(prev.segmentHash), sha);
  }
}
