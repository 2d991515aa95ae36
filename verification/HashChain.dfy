/** The hash of one ledger entry: five fields framed with NUL bytes and digested. */
module HashChain {
  import opened Basics
  import opened Encoding

  predicate IsHex64(s: string) { |s| == 64 && All(IsHex, s) }

  /** The test-only sentinel of 64 zeros. */
  const HASH_PLACEHOLDER: string := seq(64, _ => '0')

  /** SHA-256 as any function from bytes to 64 lowercase hex characters; nothing says it is injective. */
  type Digest = h: Bytes -> string | forall b :: IsHex64(h(b))
    witness (b: Bytes) => HASH_PLACEHOLDER

  /** Two given pre-images that refute collision resistance. */
  predicate Collides(h: Digest, x: Bytes, y: Bytes) { x != y && h(x) == h(y) }

  /** The hashed columns of one row. */
  datatype Entry = Entry(prev: Option<string>, payloadJson: string, policySha: string, eventType: string, userId: int)

  /** `prev_hash or ""` */
  function OrEmpty(prev: Option<string>): string {
    match prev
    case Some(p) => p
    case None => ""
  }

  /** prev and policy SHA are encoded as ASCII, which raises on any other character. */
  predicate Encodable(e: Entry) { IsAscii(OrEmpty(e.prev)) && IsAscii(e.policySha) }

  function Fields(e: Entry): (f: seq<string>)
    ensures |f| == 5
  {
    [OrEmpty(e.prev), e.payloadJson, e.policySha, e.eventType, Str(e.userId)]
  }

  /** b"\x00".join(fields) */
  function JoinNul(f: seq<string>): Bytes
    requires f != []
  {
    if |f| == 1 then Utf8(f[0]) else Utf8(f[0]) + [0] + JoinNul(f[1..])
  }

  function Body(e: Entry): Bytes { JoinNul(Fields(e)) }

  function EntryHash(h: Digest, e: Entry): (s: string)
    ensures |s| == 64
  {
    h(Body(e))
  }

  predicate FieldsNulFree(e: Entry) {
    NulFree(OrEmpty(e.prev)) && NulFree(e.payloadJson) && NulFree(e.policySha) && NulFree(e.eventType)
  }

  // ----- the framing is unambiguous as soon as one side is free of NUL -----

  function Nuls(b: Bytes): nat { multiset(b)[0] }

  lemma FieldNuls(s: string)
    ensures Nuls(Utf8(s)) == 0 <==> NulFree(s)
  {
    var b := Utf8(s);
    assert 0 in b <==> 0 in multiset(b);
  }

  lemma {:induction false} JoinNulCount(f: seq<string>)
    requires f != []
    ensures Nuls(JoinNul(f)) >= |f| - 1
    ensures Nuls(JoinNul(f)) == |f| - 1 <==> forall i :: 0 <= i < |f| ==> NulFree(f[i])
  {
    hide Utf8, NulFree;
    FieldNuls(f[0]);
    if |f| > 1 {
      var rest := f[1..];
      JoinNulCount(rest);
      assert f == [f[0]] + rest;
      JoinNulCons(f[0], rest);
      assert Nuls(JoinNul(f)) == Nuls(Utf8(f[0])) + 1 + Nuls(JoinNul(rest));
      assert forall i :: 0 < i < |f| ==> f[i] == rest[i - 1];
      assert forall i :: 0 <= i < |rest| ==> rest[i] == f[i + 1];
    }
  }

  predicate NotNul(b: Byte) { b != 0 }

  lemma {:induction false} JoinNulUnique(f: seq<string>, g: seq<string>)
    requires |f| == |g| && f != [] && JoinNul(f) == JoinNul(g)
    requires forall i :: 0 <= i < |f| ==> NulFree(f[i]) && NulFree(g[i])
    ensures f == g
  {
    if |f| == 1 {
      Utf8Injective(f[0], g[0]);
    } else {
      var (x, y) := (Utf8(f[0]), Utf8(g[0]));
      var (r, t) := ([0] + JoinNul(f[1..]), [0] + JoinNul(g[1..]));
      assert JoinNul(f) == x + r && JoinNul(g) == y + t;
      assert 0 !in x && 0 !in y by {
        assert NulFree(f[0]) && NulFree(g[0]);
      }
      SplitUnique(NotNul, x, r, y, t);
      CutAt([0], JoinNul(f[1..]), [0], JoinNul(g[1..]));
      Utf8Injective(f[0], g[0]);
      JoinNulUnique(f[1..], g[1..]);
      assert f == [f[0]] + f[1..] && g == [g[0]] + g[1..];
    }
  }

  lemma JoinNulOneSided(f: seq<string>, g: seq<string>)
    requires |f| == |g| && f != [] && JoinNul(f) == JoinNul(g)
    requires forall i :: 0 <= i < |f| ==> NulFree(f[i])
    ensures f == g
  {
    JoinNulCount(f);
    JoinNulCount(g);
    JoinNulUnique(f, g);
  }

  /** One NUL-free side is enough: equal bodies have equal fields, up to null and empty prev. */
  lemma BodyUnique(d: Entry, e: Entry)
    requires FieldsNulFree(d) && Body(d) == Body(e)
    ensures FieldsNulFree(e)
    ensures OrEmpty(d.prev) == OrEmpty(e.prev)
    ensures d.(prev := None) == e.(prev := None)
  {
    StrNulFree(d.userId);
    JoinNulOneSided(Fields(d), Fields(e));
    FieldsDetermine(d, e);
  }

  lemma FieldsDetermine(d: Entry, e: Entry)
    requires Fields(d) == Fields(e)
    ensures OrEmpty(d.prev) == OrEmpty(e.prev) && d.(prev := None) == e.(prev := None)
  {
    var (f, g) := (Fields(d), Fields(e));
    assert f[0] == g[0] && f[1] == g[1] && f[2] == g[2] && f[3] == g[3] && f[4] == g[4];
    assert Some(d.userId) == ReadInt(f[4]) == ReadInt(g[4]) == Some(e.userId);
  }

  lemma StrNulFree(n: int)
    ensures NulFree(Str(n))
  {
    var s := Str(n);
    forall i | 0 <= i < |s| ensures s[i] != '\0' {
      assert i > 0 ==> s[i] == s[1..][i - 1];
    }
  }

  /** Without a NUL-free side the framing is ambiguous: a NUL can move from one field to the next. */
  lemma FramingAmbiguousWithNul(prev: Option<string>, payload: string, eventType: string, userId: int)
    ensures Body(Entry(prev, payload + "\0", "", eventType, userId))
         == Body(Entry(prev, payload, "\0", eventType, userId))
  {
    hide Str, Utf8, JoinNul;
    var rest := [eventType, Str(userId)];
    var f := Fields(Entry(prev, payload + "\0", "", eventType, userId));
    var g := Fields(Entry(prev, payload, "\0", eventType, userId));
    JoinNulMoved(payload, rest);
    assert f == [OrEmpty(prev)] + ([payload + "\0"] + ([""] + rest));
    assert g == [OrEmpty(prev)] + ([payload] + (["\0"] + rest));
    JoinNulCons(OrEmpty(prev), [payload + "\0"] + ([""] + rest));
    JoinNulCons(OrEmpty(prev), [payload] + (["\0"] + rest));
  }

  lemma JoinNulCons(x: string, rest: seq<string>)
    requires rest != []
    ensures JoinNul([x] + rest) == Utf8(x) + ([0] + JoinNul(rest))
  {
    assert ([x] + rest)[1..] == rest;
  }

  lemma MoveNul(p: Bytes, r: Bytes)
    ensures (p + [0]) + ([0] + ([] + ([0] + r))) == p + ([0] + ([0] + ([0] + r)))
  {
  }

  lemma JoinNulMoved(payload: string, rest: seq<string>)
    requires rest != []
    ensures JoinNul([payload + "\0"] + ([""] + rest)) == JoinNul([payload] + (["\0"] + rest))
  {
    JoinNulCons(payload + "\0", [""] + rest);
    JoinNulCons("", rest);
    JoinNulCons(payload, ["\0"] + rest);
    JoinNulCons("\0", rest);
    Utf8Concat(payload, "\0");
    assert Utf8("\0") == [0] && Utf8("") == [];
    MoveNul(Utf8(payload), JoinNul(rest));
  }

  /** The pre-image, spelled out. */
  lemma BodySpelled(e: Entry)
    ensures Body(e)
         == Utf8(OrEmpty(e.prev)) + [0] + Utf8(e.payloadJson) + [0] + Utf8(e.policySha) + [0]
            + Utf8(e.eventType) + [0] + Utf8(Str(e.userId))
    ensures OrEmpty(None) == "" && (e.prev.Some? ==> OrEmpty(e.prev) == e.prev.value)
  {
    hide Utf8, Str;
    var f := Fields(e);
    JoinNulCons(f[0], f[1..]);
    JoinNulCons(f[1], f[2..]);
    JoinNulCons(f[2], f[3..]);
    JoinNulCons(f[3], f[4..]);
    assert f == [f[0]] + f[1..] && f[1..] == [f[1]] + f[2..] && f[2..] == [f[2]] + f[3..] && f[3..] == [f[3]] + f[4..];
    FlattenBody(Utf8(f[0]), Utf8(f[1]), Utf8(f[2]), Utf8(f[3]), Utf8(f[4]));
  }

  lemma FlattenBody(a: Bytes, b: Bytes, c: Bytes, d: Bytes, e: Bytes)
    ensures a + ([0] + (b + ([0] + (c + ([0] + (d + ([0] + e))))))) == a + [0] + b + [0] + c + [0] + d + [0] + e
  {
  }
}
