/** What the NUL framing determines, exactly: the pieces between the NULs, and which entries they leave open. */
module Framing {
  import opened Basics
  import opened Encoding
  import opened HashChain

  // ----- a text as the pieces between its NULs -----

  function Glue(ps: seq<string>): string
    requires ps != []
  {
    if |ps| == 1 then ps[0] else ps[0] + ("\0" + Glue(ps[1..]))
  }

  function Pieces(s: string): (ps: seq<string>)
    ensures ps != []
  {
    if s == [] then [""]
    else
      var r := Pieces(s[1..]);
      if s[0] == '\0' then [""] + r else [[s[0]] + r[0]] + r[1..]
  }

  predicate AllNulFree(ps: seq<string>) { forall i :: 0 <= i < |ps| ==> NulFree(ps[i]) }

  /** Every piece from lo on and before hi is ASCII. */
  predicate AllAscii(ps: seq<string>, lo: nat, hi: nat)
    requires hi <= |ps|
  {
    forall i :: lo <= i < hi ==> IsAscii(ps[i])
  }

  /** No piece from lo on and before hi is ASCII. */
  predicate NoneAscii(ps: seq<string>, lo: nat, hi: nat)
    requires hi <= |ps|
  {
    forall i :: lo <= i < hi ==> !IsAscii(ps[i])
  }

  lemma PrependGlued(c: char, ps: seq<string>)
    requires ps != []
    ensures Glue([[c] + ps[0]] + ps[1..]) == [c] + Glue(ps)
  {
    var qs := [[c] + ps[0]] + ps[1..];
    if |ps| > 1 {
      assert qs[1..] == ps[1..];
      assert ([c] + ps[0]) + ("\0" + Glue(ps[1..])) == [c] + (ps[0] + ("\0" + Glue(ps[1..])));
    }
  }

  lemma {:induction false} GluePieces(s: string)
    ensures Glue(Pieces(s)) == s && AllNulFree(Pieces(s))
  {
    if s != [] {
      var r := Pieces(s[1..]);
      GluePieces(s[1..]);
      assert s == [s[0]] + s[1..];
      if s[0] == '\0' {
        assert ([""] + r)[1..] == r;
        assert "" + ("\0" + Glue(r)) == "\0" + Glue(r);
      } else {
        PrependGlued(s[0], r);
      }
    }
  }

  lemma {:induction false} PiecesOfPlain(s: string)
    requires NulFree(s)
    ensures Pieces(s) == [s]
  {
    if s != [] {
      PiecesOfPlain(s[1..]);
      assert s == [s[0]] + s[1..];
    }
  }

  lemma {:induction false} PiecesOfJoin(a: string, b: string)
    ensures Pieces(a + ("\0" + b)) == Pieces(a) + Pieces(b)
  {
    var s := a + ("\0" + b);
    if a == [] {
      assert s[1..] == b;
    } else {
      PiecesOfJoin(a[1..], b);
      assert s[0] == a[0] && s[1..] == a[1..] + ("\0" + b);
      PrependThenAppend(a[0], Pieces(a[1..]), Pieces(b));
    }
  }

  lemma PrependThenAppend(c: char, r: seq<string>, t: seq<string>)
    requires r != []
    ensures [""] + (r + t) == ([""] + r) + t
    ensures [[c] + (r + t)[0]] + (r + t)[1..] == ([[c] + r[0]] + r[1..]) + t
  {
  }

  lemma {:induction false} PiecesOfGlue(ps: seq<string>)
    requires ps != [] && AllNulFree(ps)
    ensures Pieces(Glue(ps)) == ps
  {
    PiecesOfPlain(ps[0]);
    if |ps| > 1 {
      PiecesOfJoin(ps[0], Glue(ps[1..]));
      PiecesOfGlue(ps[1..]);
      assert ps == [ps[0]] + ps[1..];
    } else {
      assert ps == [ps[0]];
    }
  }

  lemma NulFreeIsOnePiece(s: string)
    ensures NulFree(s) <==> |Pieces(s)| == 1
  {
    GluePieces(s);
    if NulFree(s) {
      PiecesOfPlain(s);
    }
  }

  lemma AsciiCons(c: char, s: string)
    ensures IsAscii([c] + s) <==> c < '\U{0080}' && IsAscii(s)
  {
    assert ([c] + s)[0] == c && ([c] + s)[1..] == s;
  }

  lemma AllAsciiCons(x: string, ps: seq<string>)
    ensures AllAscii([x] + ps, 0, |ps| + 1) <==> IsAscii(x) && AllAscii(ps, 0, |ps|)
  {
    hide IsAscii;
    var qs := [x] + ps;
    if AllAscii(qs, 0, |qs|) {
      assert IsAscii(qs[0]);
      forall i | 0 <= i < |ps| ensures IsAscii(ps[i]) {
        assert qs[i + 1] == ps[i];
      }
    }
  }

  lemma {:induction false} AsciiByPieces(s: string)
    ensures IsAscii(s) <==> AllAscii(Pieces(s), 0, |Pieces(s)|)
  {
    hide IsAscii, AllAscii;
    if s == [] {
      EmptyIsAscii();
    } else {
      var r := Pieces(s[1..]);
      AsciiByPieces(s[1..]);
      assert s == [s[0]] + s[1..];
      AsciiCons(s[0], s[1..]);
      if s[0] == '\0' {
        EmptyIsAscii();
        AllAsciiCons("", r);
      } else {
        assert r == [r[0]] + r[1..];
        AllAsciiCons(r[0], r[1..]);
        AllAsciiCons([s[0]] + r[0], r[1..]);
        AsciiCons(s[0], r[0]);
      }
    }
  }

  lemma EmptyIsAscii()
    ensures IsAscii("") && AllAscii([""], 0, 1)
  {
  }

  // ----- the pieces of an entry -----

  /** The pieces of the four free texts, in order. */
  function TextPieces(e: Entry): seq<string> {
    Pieces(OrEmpty(e.prev)) + Pieces(e.payloadJson) + Pieces(e.policySha) + Pieces(e.eventType)
  }

  lemma {:induction false} JoinNulIsGlue(f: seq<string>)
    requires f != []
    ensures JoinNul(f) == Utf8(Glue(f))
  {
    hide Utf8;
    if |f| > 1 {
      JoinNulIsGlue(f[1..]);
      Utf8Concat(f[0], "\0" + Glue(f[1..]));
      Utf8Concat("\0", Glue(f[1..]));
      NulByte();
      assert Utf8(f[0]) + ([0] + JoinNul(f[1..])) == Utf8(f[0]) + [0] + JoinNul(f[1..]);
    }
  }

  lemma NulByte()
    ensures Utf8("\0") == [0]
  {
    assert "\0"[1..] == "";
  }

  lemma BodyPieces(e: Entry)
    ensures Pieces(Glue(Fields(e))) == TextPieces(e) + [Str(e.userId)]
  {
    hide Str, Pieces;
    var f := Fields(e);
    var id := Str(e.userId);
    assert Glue([id]) == id;
    assert f[4..] == [id] && f[3..][1..] == f[4..] && f[2..][1..] == f[3..] && f[1..][1..] == f[2..];
    PiecesOfJoin(f[3], Glue(f[4..]));
    PiecesOfJoin(f[2], Glue(f[3..]));
    PiecesOfJoin(f[1], Glue(f[2..]));
    PiecesOfJoin(f[0], Glue(f[1..]));
    StrNulFree(e.userId);
    PiecesOfPlain(id);
    var (p, q, r, s) := (Pieces(f[0]), Pieces(f[1]), Pieces(f[2]), Pieces(f[3]));
    assert p + (q + (r + (s + [id]))) == p + q + r + s + [id];
  }

  /** Two entries have one body exactly when they agree in the pieces of their texts and in the user. */
  lemma SameBodyIffSamePieces(d: Entry, e: Entry)
    ensures Body(d) == Body(e) <==> TextPieces(d) == TextPieces(e) && d.userId == e.userId
  {
    hide Str, Pieces, Utf8, JoinNul, Glue, TextPieces;
    var (x, y) := (Glue(Fields(d)), Glue(Fields(e)));
    JoinNulIsGlue(Fields(d));
    JoinNulIsGlue(Fields(e));
    BodyPieces(d);
    BodyPieces(e);
    GluePieces(x);
    GluePieces(y);
    if Utf8(x) == Utf8(y) {
      Utf8Injective(x, y);
      LastPiece(TextPieces(d), Str(d.userId), TextPieces(e), Str(e.userId));
      assert Some(d.userId) == ReadInt(Str(d.userId)) == ReadInt(Str(e.userId)) == Some(e.userId);
    }
  }

  lemma LastPiece(p: seq<string>, x: string, q: seq<string>, y: string)
    requires p + [x] == q + [y]
    ensures p == q && x == y
  {
    assert |p + [x]| == |q + [y]|;
    CutAt(p, [x], q, [y]);
    assert [x][0] == [y][0];
  }

  // ----- cutting a list of pieces into four texts -----

  /** Where the payload, the SHA and the event begin among the pieces. */
  datatype Cuts = Cuts(payload: nat, sha: nat, event: nat)

  predicate IsCut(ps: seq<string>, c: Cuts) { 0 < c.payload < c.sha < c.event < |ps| }

  function CutsOf(e: Entry): (c: Cuts)
    ensures IsCut(TextPieces(e), c)
  {
    var i := |Pieces(OrEmpty(e.prev))|;
    var j := i + |Pieces(e.payloadJson)|;
    Cuts(i, j, j + |Pieces(e.policySha)|)
  }

  function EntryOf(ps: seq<string>, c: Cuts, prev: Option<string>, userId: int): Entry
    requires IsCut(ps, c)
  {
    Entry(prev, Glue(ps[c.payload..c.sha]), Glue(ps[c.sha..c.event]), Glue(ps[c.event..]), userId)
  }

  lemma SlicesOf(e: Entry)
    ensures var (ps, c) := (TextPieces(e), CutsOf(e));
      && ps[..c.payload] == Pieces(OrEmpty(e.prev)) && ps[c.payload..c.sha] == Pieces(e.payloadJson)
      && ps[c.sha..c.event] == Pieces(e.policySha) && ps[c.event..] == Pieces(e.eventType)
  {
    hide Pieces;
  }

  /** Pieces and cuts fix the fields. */
  lemma CutsDetermine(d: Entry, e: Entry)
    requires TextPieces(d) == TextPieces(e) && d.userId == e.userId && CutsOf(d) == CutsOf(e)
    ensures Fields(d) == Fields(e)
  {
    hide Pieces, TextPieces, CutsOf, Glue, Str;
    SlicesOf(d);
    SlicesOf(e);
    GluePieces(OrEmpty(d.prev));
    GluePieces(OrEmpty(e.prev));
    GluePieces(d.payloadJson);
    GluePieces(e.payloadJson);
    GluePieces(d.policySha);
    GluePieces(e.policySha);
    GluePieces(d.eventType);
    GluePieces(e.eventType);
  }

  lemma TextPiecesPlain(e: Entry)
    ensures AllNulFree(TextPieces(e))
  {
    hide Pieces;
    GluePieces(OrEmpty(e.prev));
    GluePieces(e.payloadJson);
    GluePieces(e.policySha);
    GluePieces(e.eventType);
  }

  /** Every cut of an entry's pieces is an entry with the same body. */
  lemma Recut(d: Entry, c: Cuts, prev: Option<string>) returns (e: Entry)
    requires IsCut(TextPieces(d), c) && OrEmpty(prev) == Glue(TextPieces(d)[..c.payload])
    ensures e.prev == prev && Body(e) == Body(d) && CutsOf(e) == c && TextPieces(e) == TextPieces(d)
  {
    hide Pieces, TextPieces, Glue;
    var ps := TextPieces(d);
    e := EntryOf(ps, c, prev, d.userId);
    TextPiecesPlain(d);
    PiecesOfGlue(ps[..c.payload]);
    PiecesOfGlue(ps[c.payload..c.sha]);
    PiecesOfGlue(ps[c.sha..c.event]);
    PiecesOfGlue(ps[c.event..]);
    RecutPieces(ps, c, e);
    SameBodyIffSamePieces(d, e);
  }

  lemma RecutPieces(ps: seq<string>, c: Cuts, e: Entry)
    requires IsCut(ps, c)
    requires Pieces(OrEmpty(e.prev)) == ps[..c.payload] && Pieces(e.payloadJson) == ps[c.payload..c.sha]
    requires Pieces(e.policySha) == ps[c.sha..c.event] && Pieces(e.eventType) == ps[c.event..]
    ensures TextPieces(e) == ps && CutsOf(e) == c
  {
    hide Pieces;
  }

  lemma FieldsGiveCuts(d: Entry, e: Entry)
    requires Fields(d) == Fields(e)
    ensures CutsOf(d) == CutsOf(e)
  {
    hide Pieces, Str;
    var (f, g) := (Fields(d), Fields(e));
    assert f[0] == g[0] && f[1] == g[1] && f[2] == g[2] && f[3] == g[3];
  }

  // ----- which entries the framing determines -----

  lemma NulFreeIsFourPieces(e: Entry)
    ensures FieldsNulFree(e) <==> |TextPieces(e)| == 4
  {
    hide Pieces, NulFree;
    NulFreeIsOnePiece(OrEmpty(e.prev));
    NulFreeIsOnePiece(e.payloadJson);
    NulFreeIsOnePiece(e.policySha);
    NulFreeIsOnePiece(e.eventType);
  }

  /** The framing determines an entry's fields exactly when they are free of NUL. */
  lemma FramingExact(d: Entry)
    ensures FieldsNulFree(d) <==> forall e :: Body(e) == Body(d) ==> Fields(e) == Fields(d)
  {
    hide Body, Fields, FieldsNulFree, TextPieces, CutsOf, Glue;
    NulFreeIsFourPieces(d);
    var (ps, c) := (TextPieces(d), CutsOf(d));
    if |ps| == 4 {
      forall e | Body(e) == Body(d) ensures Fields(e) == Fields(d) {
        SameBodyIffSamePieces(e, d);
        CutsDetermine(e, d);
      }
    } else {
      var other := if c == Cuts(1, 2, 3) then Cuts(1, 2, 4) else Cuts(1, 2, 3);
      var e := Recut(d, other, Some(Glue(ps[..1])));
      if Fields(e) == Fields(d) {
        FieldsGiveCuts(e, d);
      }
    }
  }

  /**
   * Apart from the prev: a NUL-free SHA, no ASCII piece in the payload after its first NUL, none in the event before
   * its last.
   */
  predicate Framed(e: Entry) {
    var (q, v) := (Pieces(e.payloadJson), Pieces(e.eventType));
    NulFree(e.policySha) && NoneAscii(q, 1, |q|) && NoneAscii(v, 0, |v| - 1)
  }

  /** Framed, in terms of the pieces and their cuts. */
  predicate FramedCut(ps: seq<string>, c: Cuts)
    requires IsCut(ps, c)
  {
    c.event == c.sha + 1 && NoneAscii(ps, c.payload + 1, c.sha) && NoneAscii(ps, c.event, |ps| - 1)
  }

  lemma NoneAsciiSlice(ps: seq<string>, lo: nat, hi: nat, a: nat, b: nat)
    requires lo <= hi <= |ps| && b <= hi - lo
    ensures NoneAscii(ps[lo..hi], a, b) <==> NoneAscii(ps, lo + a, lo + b)
    ensures AllAscii(ps[lo..hi], a, b) <==> AllAscii(ps, lo + a, lo + b)
  {
    hide IsAscii;
    var qs := ps[lo..hi];
    assert forall i :: a <= i < b ==> qs[i] == ps[lo + i];
    assert forall i :: lo + a <= i < lo + b ==> ps[i] == qs[i - lo];
  }

  lemma FramedByCut(e: Entry)
    ensures Framed(e) <==> FramedCut(TextPieces(e), CutsOf(e))
  {
    hide Pieces, NulFree, NoneAscii, AllAscii, TextPieces, CutsOf;
    var (ps, c) := (TextPieces(e), CutsOf(e));
    SlicesOf(e);
    assert ps[c.event..] == ps[c.event..|ps|];
    NulFreeIsOnePiece(e.policySha);
    NoneAsciiSlice(ps, c.payload, c.sha, 1, c.sha - c.payload);
    NoneAsciiSlice(ps, c.event, |ps|, 0, |ps| - c.event - 1);
  }

  /** A cut that both columns stored as ASCII allow. */
  predicate AsciiCut(ps: seq<string>, c: Cuts)
    requires IsCut(ps, c)
  {
    AllAscii(ps, 0, c.payload) && AllAscii(ps, c.sha, c.event)
  }

  lemma EncodableByCut(e: Entry)
    ensures Encodable(e) <==> AsciiCut(TextPieces(e), CutsOf(e))
  {
    hide Pieces, IsAscii, AllAscii, NoneAscii, TextPieces, CutsOf;
    var (ps, c) := (TextPieces(e), CutsOf(e));
    SlicesOf(e);
    AsciiByPieces(OrEmpty(e.prev));
    AsciiByPieces(e.policySha);
    NoneAsciiSlice(ps, 0, c.payload, 0, c.payload);
    NoneAsciiSlice(ps, c.sha, c.event, 0, c.event - c.sha);
  }

  /** Two ASCII cuts with one prev are the same when the first is framed. */
  lemma FramedCutUnique(ps: seq<string>, c: Cuts, d: Cuts)
    requires IsCut(ps, c) && IsCut(ps, d) && d.payload == c.payload
    requires FramedCut(ps, c) && AsciiCut(ps, d)
    ensures c == d
  {
    hide IsAscii;
    assert IsAscii(ps[d.sha]);
    assert IsAscii(ps[d.event - 1]);
  }

  /** An ASCII cut that is not framed has another one with the same prev. */
  lemma UnframedCutMoves(ps: seq<string>, c: Cuts) returns (d: Cuts)
    requires IsCut(ps, c) && AsciiCut(ps, c) && !FramedCut(ps, c)
    ensures IsCut(ps, d) && AsciiCut(ps, d) && d.payload == c.payload && d != c
  {
    hide IsAscii;
    if c.event > c.sha + 1 {
      d := c.(event := c.event - 1);
    } else if !NoneAscii(ps, c.payload + 1, c.sha) {
      var i :| c.payload + 1 <= i < c.sha && IsAscii(ps[i]);
      d := Cuts(c.payload, i, i + 1);
    } else {
      var i :| c.event <= i < |ps| - 1 && IsAscii(ps[i]);
      d := Cuts(c.payload, i, i + 1);
    }
  }

  /** Among entries that can be hashed and carry one prev, the framing determines exactly the framed ones. */
  lemma FramingExactSamePrev(d: Entry)
    requires Encodable(d)
    ensures Framed(d) <==> forall e :: Encodable(e) && e.prev == d.prev && Body(e) == Body(d) ==> e == d
  {
    hide Body, Fields, Encodable, TextPieces, CutsOf, Glue, Framed, FramedCut, AsciiCut, Pieces;
    FramedByCut(d);
    EncodableByCut(d);
    if Framed(d) {
      forall e | Encodable(e) && e.prev == d.prev && Body(e) == Body(d) ensures e == d {
        FramedDetermines(d, e);
      }
    } else {
      var e := AnotherReading(d);
    }
  }

  lemma FramedDetermines(d: Entry, e: Entry)
    requires Encodable(d) && Framed(d) && Encodable(e) && Body(e) == Body(d) && OrEmpty(e.prev) == OrEmpty(d.prev)
    ensures e.(prev := None) == d.(prev := None)
  {
    hide Body, Encodable, TextPieces, Glue, Framed, FramedCut, AsciiCut, Pieces;
    FramedByCut(d);
    EncodableByCut(d);
    EncodableByCut(e);
    SameBodyIffSamePieces(e, d);
    FramedCutUnique(TextPieces(d), CutsOf(d), CutsOf(e));
    CutsDetermine(e, d);
    FieldsDetermine(e, d);
  }

  /** An entry that can be hashed and is not framed has a twin: another one with its body and prev. */
  lemma AnotherReading(d: Entry) returns (e: Entry)
    requires Encodable(d) && !Framed(d)
    ensures Encodable(e) && e.prev == d.prev && Body(e) == Body(d) && e != d
  {
    hide Body, Encodable, TextPieces, CutsOf, Glue, Framed, FramedCut, AsciiCut, Pieces;
    var (ps, c) := (TextPieces(d), CutsOf(d));
    FramedByCut(d);
    EncodableByCut(d);
    var moved := UnframedCutMoves(ps, c);
    SlicesOf(d);
    GluePieces(OrEmpty(d.prev));
    e := Recut(d, moved, d.prev);
    EncodableByCut(e);
  }

  /** Framed, with a NUL-free prev, and no ASCII piece to spare at the start of the payload. */
  predicate FullyFramed(e: Entry) {
    var q := Pieces(e.payloadJson);
    Framed(e) && NulFree(OrEmpty(e.prev)) && (|q| > 1 ==> !IsAscii(q[0]))
  }

  predicate FullyFramedCut(ps: seq<string>, c: Cuts)
    requires IsCut(ps, c)
  {
    FramedCut(ps, c) && c.payload == 1 && (c.sha > c.payload + 1 ==> !IsAscii(ps[c.payload]))
  }

  lemma FullyFramedByCut(e: Entry)
    ensures FullyFramed(e) <==> FullyFramedCut(TextPieces(e), CutsOf(e))
  {
    hide Pieces, NulFree, IsAscii, TextPieces, CutsOf, Framed, FramedCut;
    var (ps, c) := (TextPieces(e), CutsOf(e));
    FramedByCut(e);
    SlicesOf(e);
    NulFreeIsOnePiece(OrEmpty(e.prev));
    assert ps[c.payload..c.sha][0] == ps[c.payload];
  }

  lemma FullyFramedCutUnique(ps: seq<string>, c: Cuts, d: Cuts)
    requires IsCut(ps, c) && IsCut(ps, d) && FullyFramedCut(ps, c) && AsciiCut(ps, d)
    ensures c == d
  {
    hide IsAscii;
    assert IsAscii(ps[d.sha]);
    assert IsAscii(ps[d.payload - 1]) && IsAscii(ps[0]);
    assert IsAscii(ps[if d.payload > 1 then 1 else 0]);
    if d.payload == c.payload {
      FramedCutUnique(ps, c, d);
    }
  }

  lemma SpareCutMoves(ps: seq<string>, c: Cuts) returns (d: Cuts)
    requires IsCut(ps, c) && AsciiCut(ps, c) && !FullyFramedCut(ps, c)
    ensures IsCut(ps, d) && AsciiCut(ps, d) && d != c
  {
    hide IsAscii;
    if !FramedCut(ps, c) {
      d := UnframedCutMoves(ps, c);
    } else {
      d := c.(payload := if c.payload > 1 then c.payload - 1 else 2);
    }
  }

  /** Among the entries that can be hashed, the framing determines the fields of exactly the fully framed ones. */
  lemma FramingExactEncodable(d: Entry)
    requires Encodable(d)
    ensures FullyFramed(d) <==> forall e :: Encodable(e) && Body(e) == Body(d) ==> Fields(e) == Fields(d)
  {
    hide Body, Fields, Encodable, TextPieces, CutsOf, Glue, FullyFramed, FullyFramedCut, AsciiCut, Pieces;
    var (ps, c) := (TextPieces(d), CutsOf(d));
    FullyFramedByCut(d);
    EncodableByCut(d);
    if FullyFramed(d) {
      forall e | Encodable(e) && Body(e) == Body(d) ensures Fields(e) == Fields(d) {
        EncodableByCut(e);
        SameBodyIffSamePieces(e, d);
        FullyFramedCutUnique(ps, c, CutsOf(e));
        CutsDetermine(e, d);
      }
    } else {
      var moved := SpareCutMoves(ps, c);
      var e := Recut(d, moved, Some(Glue(ps[..moved.payload])));
      EncodableByCut(e);
      if Fields(e) == Fields(d) {
        FieldsGiveCuts(e, d);
      }
    }
  }

  /** Two NUL-free prevs in front of one body are the same text. */
  lemma PlainPrevsAgree(d: Entry, e: Entry)
    requires NulFree(OrEmpty(d.prev)) && NulFree(OrEmpty(e.prev)) && Body(d) == Body(e)
    ensures OrEmpty(d.prev) == OrEmpty(e.prev)
  {
    hide Body, Pieces, NulFree;
    SameBodyIffSamePieces(d, e);
    PiecesOfPlain(OrEmpty(d.prev));
    PiecesOfPlain(OrEmpty(e.prev));
    assert TextPieces(d)[0] == OrEmpty(d.prev) && TextPieces(e)[0] == OrEmpty(e.prev);
  }

  /** NUL-free fields are framed. */
  lemma NulFreeIsFramed(e: Entry)
    requires FieldsNulFree(e)
    ensures Framed(e)
  {
    PiecesOfPlain(e.payloadJson);
    PiecesOfPlain(e.eventType);
  }
}
