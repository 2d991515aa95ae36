/** The policy SHA cut out of `git describe` output by a leftmost regex search. */
module PolicyVersion {
  import opened Basics
  import opened Encoding

  const UNKNOWN := "unknown-dev"

  /** What `(-dirty)?$` accepts; Python's `$` also matches just before a final newline. */
  predicate IsTail(t: string) {
    t == "" || t == "\n" || t == "-dirty" || t == "-dirty\n"
  }

  function DirtyPart(t: string): string
    requires IsTail(t)
  {
    if t == "" || t == "\n" then "" else "-dirty"
  }

  /** `([0-9a-f]{7,40})(-dirty)?$` at the start of s: the greedy count n is given back one at a time. */
  function MatchTail(s: string, n: nat): (r: Option<string>)
    requires n <= 40
  {
    if n < 7 then None
    else if n <= |s| && All(IsHex, s[..n]) && IsTail(s[n..]) then Some(s[..n] + DirtyPart(s[n..]))
    else MatchTail(s, n - 1)
  }

  /** `(?:^|-g)` followed by the tail, at position i. */
  function MatchAt(raw: string, i: nat): Option<string>
    requires i <= |raw|
  {
    if i == 0 && MatchTail(raw, 40).Some? then MatchTail(raw, 40)
    else if i + 2 <= |raw| && raw[i..i + 2] == "-g" then MatchTail(raw[i + 2..], 40)
    else None
  }

  /** re.search: the leftmost position that matches. */
  function Search(raw: string, i: nat): Option<string>
    requires i <= |raw|
    decreases |raw| - i
  {
    if MatchAt(raw, i).Some? then MatchAt(raw, i)
    else if i == |raw| then None
    else Search(raw, i + 1)
  }

  function ExtractPolicySha(raw: string): string {
    match Search(raw, 0)
    case Some(sha) => sha
    case None => UNKNOWN
  }

  /** 7 to 40 hex digits with an optional `-dirty`. */
  ghost predicate IsPolicySha(v: string) {
    exists n :: IsShaOf(v, n)
  }

  ghost predicate IsShaOf(v: string, n: int) {
    7 <= n <= 40 && n <= |v| && All(IsHex, v[..n]) && (v[n..] == "" || v[n..] == "-dirty")
  }

  /** raw is v, possibly after something that ends in `-g`, possibly before one newline. */
  ghost predicate EndsIn(raw: string, v: string) {
    exists pre: string, nl: string :: EndsWith(raw, pre, v, nl)
  }

  ghost predicate EndsWith(raw: string, pre: string, v: string, nl: string) {
    && raw == pre + v + nl && (nl == "" || nl == "\n")
    && (pre == "" || (|pre| >= 2 && pre[|pre| - 2..] == "-g"))
  }

  lemma {:induction false} MatchTailSound(s: string, n: nat)
    requires n <= 40 && MatchTail(s, n).Some?
    ensures var v := MatchTail(s, n).value;
      IsPolicySha(v) && (s == v || s == v + "\n")
  {
    if n <= |s| && All(IsHex, s[..n]) && IsTail(s[n..]) {
      var v := s[..n] + DirtyPart(s[n..]);
      assert v[..n] == s[..n] && v[n..] == DirtyPart(s[n..]);
      assert IsShaOf(v, n);
      assert s == s[..n] + s[n..];
    } else {
      MatchTailSound(s, n - 1);
    }
  }

  lemma {:induction false} MatchTailComplete(s: string, v: string, nl: string, k: nat, n: nat)
    requires IsShaOf(v, k) && s == v + nl && (nl == "" || nl == "\n")
    requires k <= n <= 40
    ensures MatchTail(s, n).Some?
  {
    assert s[..k] == v[..k] && s[k..] == v[k..] + nl;
    if k < n {
      MatchTailComplete(s, v, nl, k, n - 1);
    }
  }

  lemma MatchAtSound(raw: string, i: nat)
    requires i <= |raw| && MatchAt(raw, i).Some?
    ensures IsPolicySha(MatchAt(raw, i).value) && EndsIn(raw, MatchAt(raw, i).value)
  {
    if i == 0 && MatchTail(raw, 40).Some? {
      MatchTailSound(raw, 40);
      var v := MatchTail(raw, 40).value;
      assert EndsWith(raw, "", v, raw[|v|..]);
    } else {
      MatchTailSound(raw[i + 2..], 40);
      var v := MatchTail(raw[i + 2..], 40).value;
      var pre := raw[..i + 2];
      assert pre[|pre| - 2..] == raw[i..i + 2];
      assert raw == pre + raw[i + 2..];
      assert EndsWith(raw, pre, v, raw[i + 2..][|v|..]);
    }
  }

  lemma {:induction false} SearchSound(raw: string, i: nat)
    requires i <= |raw| && Search(raw, i).Some?
    ensures IsPolicySha(Search(raw, i).value) && EndsIn(raw, Search(raw, i).value)
    decreases |raw| - i
  {
    if MatchAt(raw, i).Some? {
      MatchAtSound(raw, i);
    } else {
      SearchSound(raw, i + 1);
    }
  }

  lemma {:induction false} SearchComplete(raw: string, i: nat, j: nat)
    requires i <= j <= |raw| && MatchAt(raw, j).Some?
    ensures Search(raw, i).Some?
    decreases j - i
  {
    if i < j && MatchAt(raw, i).None? {
      SearchComplete(raw, i + 1, j);
    }
  }

  /** Two texts with one hex run at the end, each cut off by a non-hex character, have the same run. */
  lemma HexRunUnique(p: string, x: string, q: string, y: string)
    requires p + x == q + y && All(IsHex, x) && All(IsHex, y)
    requires p == "" || p[|p| - 1] == 'g'
    requires q == "" || q[|q| - 1] == 'g'
    ensures p == q && x == y
  {
    if 0 < |p| {
      ConcatAt(p, x, |p| - 1);
      ConcatAt(q, y, |p| - 1);
    }
    if 0 < |q| {
      ConcatAt(p, x, |q| - 1);
      ConcatAt(q, y, |q| - 1);
    }
    assert |p| == |q|;
    CutAt(p, x, q, y);
  }

  lemma Regroup(pre: string, x: string, d: string, nl: string)
    ensures pre + (x + d) + nl == (pre + x) + (d + nl)
  {
  }

  /** Where a SHA ends a text: stem and hex digits, then a tail that tells the suffix. */
  lemma Decompose(raw: string, pre: string, v: string, nl: string, n: nat)
    requires EndsWith(raw, pre, v, nl) && IsShaOf(v, n)
    ensures raw == (pre + v[..n]) + (v[n..] + nl)
    ensures IsTail(v[n..] + nl) && DirtyPart(v[n..] + nl) == v[n..]
    ensures var s := pre + v[..n]; s != "" && IsHex(s[|s| - 1])
  {
    hide IsTail, DirtyPart;
    var (x, d) := (v[..n], v[n..]);
    assert v == x + d;
    Regroup(pre, x, d, nl);
    TailJoin(d, nl);
    ConcatAt(pre, x, |pre + x| - 1);
  }

  lemma TailJoin(d: string, nl: string)
    requires (d == "" || d == "-dirty") && (nl == "" || nl == "\n")
    ensures IsTail(d + nl) && DirtyPart(d + nl) == d
  {
    if d == "" {
      assert d + nl == nl;
    } else if nl == "" {
      assert d + nl == d;
    } else {
      assert d + nl == "-dirty\n";
    }
  }

  lemma EndsInUnique(raw: string, v: string, w: string)
    requires IsPolicySha(v) && IsPolicySha(w) && EndsIn(raw, v) && EndsIn(raw, w)
    ensures v == w
  {
    var m :| IsShaOf(v, m);
    var n :| IsShaOf(w, n);
    var p: string, a: string :| EndsWith(raw, p, v, a);
    var q: string, b: string :| EndsWith(raw, q, w, b);
    Decompose(raw, p, v, a, m);
    Decompose(raw, q, w, b, n);
    TailUnique(p + v[..m], v[m..] + a, q + w[..n], w[n..] + b);
    assert p != "" ==> p[|p| - 1] == p[|p| - 2..][1];
    assert q != "" ==> q[|q| - 1] == q[|q| - 2..][1];
    HexRunUnique(p, v[..m], q, w[..n]);
    assert v == v[..m] + v[m..] && w == w[..n] + w[n..];
  }

  /** A text that ends in a SHA ends in a hex digit, the `y` of `-dirty`, or a newline. */
  lemma EndsInLast(raw: string, v: string)
    requires IsPolicySha(v) && EndsIn(raw, v)
    ensures raw != "" && (IsHex(raw[|raw| - 1]) || raw[|raw| - 1] == 'y' || raw[|raw| - 1] == '\n')
  {
    var n :| IsShaOf(v, n);
    var p: string, a: string :| EndsWith(raw, p, v, a);
    Decompose(raw, p, v, a, n);
    ConcatAt(p + v[..n], v[n..] + a, |raw| - 1);
  }

  lemma TailUnique(s: string, d: string, t: string, e: string)
    requires s + d == t + e && IsTail(d) && IsTail(e)
    requires s != "" && t != "" && IsHex(s[|s| - 1]) && IsHex(t[|t| - 1])
    ensures s == t && d == e
  {
    var r := s + d;
    var k := |r| - 1;
    assert r[k] == if d == "" then s[|s| - 1] else d[|d| - 1];
    assert r[k] == if e == "" then t[|t| - 1] else e[|e| - 1];
    assert |d| > 1 ==> r[k - 1] == d[|d| - 2];
    assert |e| > 1 ==> r[k - 1] == e[|e| - 2];
    assert d == "\n" ==> r[k - 1] == s[|s| - 1];
    assert e == "\n" ==> r[k - 1] == t[|t| - 1];
    assert |d| == |e|;
    CutAt(s, d, t, e);
  }

  /** The result is a bare SHA, or the fallback. */
  lemma ExtractNormalForm(raw: string)
    ensures IsPolicySha(ExtractPolicySha(raw)) || ExtractPolicySha(raw) == UNKNOWN
  {
    if Search(raw, 0).Some? {
      SearchSound(raw, 0);
    }
  }

  /** Exactly the texts that end in a SHA, at the start or after `-g`, give that SHA. */
  lemma ExtractExact(raw: string, v: string)
    requires IsPolicySha(v)
    ensures ExtractPolicySha(raw) == v <==> EndsIn(raw, v)
  {
    UnknownIsNotSha();
    if Search(raw, 0).Some? {
      SearchSound(raw, 0);
    }
    if EndsIn(raw, v) {
      var pre: string, nl: string :| EndsWith(raw, pre, v, nl);
      var k :| IsShaOf(v, k);
      assert raw == pre + (v + nl);
      if pre == "" {
        assert raw == v + nl;
        MatchTailComplete(raw, v, nl, k, 40);
        SearchComplete(raw, 0, 0);
      } else {
        var i := |pre| - 2;
        assert raw[i..i + 2] == pre[i..];
        assert raw[i + 2..] == v + nl;
        MatchTailComplete(raw[i + 2..], v, nl, k, 40);
        SearchComplete(raw, 0, i);
      }
      EndsInUnique(raw, v, Search(raw, 0).value);
    }
  }

  lemma UnknownIsNotSha()
    ensures !IsPolicySha(UNKNOWN)
  {
    assert !IsHex(UNKNOWN[0]);
    forall n ensures !IsShaOf(UNKNOWN, n) {
      assert 7 <= n <= |UNKNOWN| ==> UNKNOWN[..n][0] == 'u';
    }
  }

  /** Whatever the tag is, the SHA and suffix after the last `-g` are returned. */
  lemma ExtractAfterTag(tag: string, v: string)
    requires IsPolicySha(v)
    ensures ExtractPolicySha(tag + "-g" + v) == v
  {
    var pre := tag + "-g";
    assert pre[|pre| - 2..] == "-g";
    assert EndsWith(pre + v, pre, v, "") by {
      assert pre + v + "" == pre + v;
    }
    ExtractExact(pre + v, v);
  }

  lemma ExtractIdempotent(raw: string)
    ensures ExtractPolicySha(ExtractPolicySha(raw)) == ExtractPolicySha(raw)
  {
    ExtractNormalForm(raw);
    var v := ExtractPolicySha(raw);
    if IsPolicySha(v) {
      assert EndsWith(v, "", v, "") by {
        assert "" + v + "" == v;
      }
      ExtractExact(v, v);
    } else if Search(UNKNOWN, 0).Some? {
      SearchSound(UNKNOWN, 0);
      EndsInLast(UNKNOWN, Search(UNKNOWN, 0).value);
    }
  }

  /** A SHA, and the fallback, are ASCII without NUL. */
  lemma ExtractIsAscii(raw: string)
    ensures IsAscii(ExtractPolicySha(raw)) && NulFree(ExtractPolicySha(raw))
  {
    ExtractNormalForm(raw);
    var v := ExtractPolicySha(raw);
    if IsPolicySha(v) {
      var n :| IsShaOf(v, n);
      forall i | 0 <= i < |v| ensures '\0' < v[i] < '\U{0080}' {
        assert v[i] == if i < n then v[..n][i] else v[n..][i - n];
      }
    }
  }

  /** The characters a policy SHA is written with. */
  predicate IsShaChar(c: char) { '0' <= c <= '9' || 'a' <= c <= 'z' || c == '-' }

  /**
   * What is extracted when nothing else is: exactly the text `unknown-dev`; every extraction is of plain characters.
   */
  lemma ExtractOrUnknown(raw: string)
    ensures All(IsShaChar, ExtractPolicySha(raw))
    ensures (exists v :: IsPolicySha(v) && EndsIn(raw, v)) || ExtractPolicySha(raw) == "unknown-dev"
  {
    ExtractNormalForm(raw);
    var v := ExtractPolicySha(raw);
    if IsPolicySha(v) {
      ExtractExact(raw, v);
      var n :| IsShaOf(v, n);
      assert v == v[..n] + v[n..];
      assert All(IsShaChar, v[n..]);
      forall i | 0 <= i < |v| ensures IsShaChar(v[i]) {
        assert v[i] == if i < n then v[..n][i] else v[n..][i - n];
      }
    }
  }
}
