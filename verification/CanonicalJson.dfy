/** The ledger's serializer: json.dumps with sorted keys, minimal separators and ASCII output. */
module CanonicalJson {
  import opened Basics
  import opened Sorting
  import opened Encoding

  datatype Json =
    | Null
    | Bool(b: bool)
    | Int(n: int)
    | Text(s: string)
    | Arr(elems: seq<Json>)
    | Obj(fields: seq<Field>)

  /** One key and value of a dict, in insertion order. */
  datatype Field = Field(key: string, value: Json)

  /** A dict holds each key once, at every depth. */
  ghost predicate WellFormed(v: Json) {
    match v
    case Arr(es) => forall i :: 0 <= i < |es| ==> WellFormed(es[i])
    case Obj(fs) =>
      && (forall i, j :: 0 <= i < j < |fs| ==> fs[i].key != fs[j].key)
      && (forall i :: 0 <= i < |fs| ==> WellFormed(fs[i].value))
    case _ => true
  }

  ghost function Keys(fs: seq<Field>): set<string> {
    set i | 0 <= i < |fs| :: fs[i].key
  }

  /** Equality of payloads that ignores the order of object keys. */
  ghost predicate SameUpToKeyOrder(v: Json, w: Json) {
    match (v, w)
    case (Arr(a), Arr(b)) =>
      |a| == |b| && forall i :: 0 <= i < |a| ==> SameUpToKeyOrder(a[i], b[i])
    case (Obj(f), Obj(g)) =>
      && Keys(f) == Keys(g)
      && forall i, j :: 0 <= i < |f| && 0 <= j < |g| && f[i].key == g[j].key ==>
           SameUpToKeyOrder(f[i].value, g[j].value)
    case _ => v == w
  }

  predicate KeyLe(a: Field, b: Field) { TextLe(a.key, b.key) }

  /** sort_keys=True, applied at every depth. */
  function SortKeys(v: Json): Json {
    match v
    case Arr(es) => Arr(seq(|es|, i requires 0 <= i < |es| => SortKeys(es[i])))
    case Obj(fs) => Obj(Sort(KeyLe, SortValues(v, fs)))
    case _ => v
  }

  function SortValues(v: Json, fs: seq<Field>): (r: seq<Field>)
    requires v == Obj(fs)
    ensures |r| == |fs|
    ensures forall i :: 0 <= i < |fs| ==> r[i] == Field(fs[i].key, SortKeys(fs[i].value))
    decreases v, 0
  {
    seq(|fs|, i requires 0 <= i < |fs| => Field(fs[i].key, SortKeys(fs[i].value)))
  }

  // ----- printing; every printer writes in front of the text that follows -----

  /** One UTF-16 code unit as an escape. */
  function EscapeUnit(n: nat): (s: string)
    requires n < 0x10000
    ensures |s| == 6 && s[..2] == "\\u" && s[2..] == Hex4(n)
  {
    "\\u" + Hex4(n)
  }

  function HighSurrogate(n: nat): (u: nat)
    requires 0x10000 <= n < 0x110000
    ensures 0xD800 <= u < 0xDC00
  {
    0xD800 + (n - 0x10000) / 1024
  }

  function LowSurrogate(n: nat): (u: nat)
    requires 0x10000 <= n < 0x110000
    ensures 0xDC00 <= u < 0xE000
    ensures n == 0x10000 + 1024 * (HighSurrogate(n) - 0xD800) + (u - 0xDC00)
  {
    0xDC00 + (n - 0x10000) % 1024
  }

  predicate IsShortEscape(c: char) {
    c == '\n' || c == '\r' || c == '\t' || c as int == 0x0C || c as int == 0x08 || ' ' <= c <= '~'
  }

  function EscapeChar(c: char): (s: string)
    ensures IsShortEscape(c) ==> 1 <= |s| <= 2 && (|s| == 2 ==> s[0] == '\\' && s[1] != 'u')
    ensures !IsShortEscape(c) ==> 6 <= |s| && s[0] == '\\' && s[1] == 'u'
    ensures s[0] != '\"'
  {
    var n := c as int;
    if c == '\\' then "\\\\"
    else if c == '\"' then "\\\""
    else if c == '\n' then "\\n"
    else if c == '\r' then "\\r"
    else if c == '\t' then "\\t"
    else if n == 0x0C then "\\f"
    else if n == 0x08 then "\\b"
    else if ' ' <= c <= '~' then [c]
    else if n < 0x10000 then EscapeUnit(n)
    else EscapeUnit(HighSurrogate(n)) + EscapeUnit(LowSurrogate(n))
  }

  function PrintText(s: string, rest: string): string {
    if s == [] then "\"" + rest else EscapeChar(s[0]) + PrintText(s[1..], rest)
  }

  function Print(v: Json, rest: string): string
    decreases v, 0
  {
    match v
    case Null => "null" + rest
    case Bool(b) => (if b then "true" else "false") + rest
    case Int(n) => Str(n) + rest
    case Text(s) => "\"" + PrintText(s, rest)
    case Arr(es) =>
      if es == [] then "[]" + rest else "[" + Print(es[0], PrintElems(es[1..], rest))
    case Obj(fs) =>
      if fs == [] then "{}" + rest else "{" + PrintField(fs[0], PrintFields(fs[1..], rest))
  }

  function PrintElems(es: seq<Json>, rest: string): string
    decreases es, 0
  {
    if es == [] then "]" + rest else "," + Print(es[0], PrintElems(es[1..], rest))
  }

  function PrintField(f: Field, rest: string): string
    decreases f, 0
  {
    "\"" + PrintText(f.key, ":" + Print(f.value, rest))
  }

  function PrintFields(fs: seq<Field>, rest: string): string
    decreases fs, 0
  {
    if fs == [] then "}" + rest else "," + PrintField(fs[0], PrintFields(fs[1..], rest))
  }

  function Serialize(v: Json): string { Print(SortKeys(v), "") }

  // ----- the sorted value is the payload up to key order -----

  lemma KeyOrder()
    ensures TotalPreorder(KeyLe)
  {
    TextOrder();
  }

  lemma {:induction false} SortKeysDecides(v: Json, w: Json)
    requires WellFormed(v) && WellFormed(w)
    ensures SortKeys(v) == SortKeys(w) <==> SameUpToKeyOrder(v, w)
    decreases v, 1
  {
    match (v, w)
    case (Arr(a), Arr(b)) => SortElemsDecides(v, a, w, b);
    case (Obj(f), Obj(g)) => SortFieldsDecides(v, f, w, g);
    case _ =>
  }

  lemma {:induction false} SortElemsDecides(v: Json, a: seq<Json>, w: Json, b: seq<Json>)
    requires v == Arr(a) && w == Arr(b) && WellFormed(v) && WellFormed(w)
    ensures SortKeys(v) == SortKeys(w) <==> SameUpToKeyOrder(v, w)
    decreases v, 0
  {
    var (x, y) := (SortKeys(v).elems, SortKeys(w).elems);
    if |a| == |b| {
      forall i | 0 <= i < |a| ensures x[i] == y[i] <==> SameUpToKeyOrder(a[i], b[i]) {
        SortKeysDecides(a[i], b[i]);
      }
    }
  }

  lemma {:induction false} SortFieldsDecides(v: Json, f: seq<Field>, w: Json, g: seq<Field>)
    requires v == Obj(f) && w == Obj(g) && WellFormed(v) && WellFormed(w)
    ensures SortKeys(v) == SortKeys(w) <==> SameUpToKeyOrder(v, w)
    decreases v, 0
  {
    hide SortKeys, SameFields, SameUpToKeyOrder, UniqueKeys;
    SortFieldsBag(v, f, w, g);
    SortedFieldsUnique(v, f);
    SortedFieldsUnique(w, g);
    BagIsSameFields(SortValues(v, f), SortValues(w, g));
    forall i, j | 0 <= i < |f| && 0 <= j < |g| && f[i].key == g[j].key
      ensures SortKeys(f[i].value) == SortKeys(g[j].value) <==> SameUpToKeyOrder(f[i].value, g[j].value)
    {
      SortKeysDecides(f[i].value, g[j].value);
    }
    SortedFieldsSame(v, f, w, g);
  }

  lemma SortedFieldsUnique(v: Json, f: seq<Field>)
    requires v == Obj(f) && WellFormed(v)
    ensures UniqueKeys(SortValues(v, f))
  {
    hide SortKeys;
  }

  /** When the values are decided, so are the fields. */
  lemma SortedFieldsSame(v: Json, f: seq<Field>, w: Json, g: seq<Field>)
    requires v == Obj(f) && w == Obj(g)
    requires forall i, j :: 0 <= i < |f| && 0 <= j < |g| && f[i].key == g[j].key ==>
      (SortKeys(f[i].value) == SortKeys(g[j].value) <==> SameUpToKeyOrder(f[i].value, g[j].value))
    ensures SameFields(SortValues(v, f), SortValues(w, g)) <==> SameUpToKeyOrder(v, w)
  {
    hide SortKeys;
    var (x, y) := (SortValues(v, f), SortValues(w, g));
    assert Keys(x) == Keys(f) && Keys(y) == Keys(g);
  }

  ghost predicate UniqueKeys(x: seq<Field>) {
    forall i, j :: 0 <= i < j < |x| ==> x[i].key != x[j].key
  }

  ghost predicate SameFields(x: seq<Field>, y: seq<Field>) {
    && Keys(x) == Keys(y)
    && forall i, j :: 0 <= i < |x| && 0 <= j < |y| && x[i].key == y[j].key ==> x[i] == y[j]
  }

  lemma SortFieldsBag(v: Json, f: seq<Field>, w: Json, g: seq<Field>)
    requires v == Obj(f) && w == Obj(g) && WellFormed(v)
    ensures SortKeys(v) == SortKeys(w) <==> multiset(SortValues(v, f)) == multiset(SortValues(w, g))
  {
    KeyOrder();
    TextOrder();
    SortDecidesBags(KeyLe, SortValues(v, f), SortValues(w, g));
  }

  lemma BagIsSameFields(x: seq<Field>, y: seq<Field>)
    requires UniqueKeys(x) && UniqueKeys(y)
    ensures multiset(x) == multiset(y) <==> SameFields(x, y)
  {
    if multiset(x) == multiset(y) {
      SameElements(x, y);
      forall k ensures k in Keys(x) <==> k in Keys(y) {
        if k in Keys(x) {
          var i :| 0 <= i < |x| && x[i].key == k;
          assert x[i] in y;
        }
        if k in Keys(y) {
          var j :| 0 <= j < |y| && y[j].key == k;
          assert y[j] in x;
        }
      }
      forall i, j | 0 <= i < |x| && 0 <= j < |y| && x[i].key == y[j].key ensures x[i] == y[j] {
        assert x[i] in y;
      }
    }
    if SameFields(x, y) {
      forall e ensures e in x <==> e in y {
        assert e in x ==> e.key in Keys(x);
        assert e in y ==> e.key in Keys(y);
      }
      forall e ensures multiset(x)[e] == multiset(y)[e] {
        DistinctCounts(x, e);
        DistinctCounts(y, e);
      }
    }
  }

  lemma SortedFieldsKeep(x: seq<Field>)
    requires UniqueKeys(x)
    ensures var y := Sort(KeyLe, x); UniqueKeys(y) && SameFields(x, y)
  {
    var y := Sort(KeyLe, x);
    SameElements(x, y);
    DistinctRearranged(x, y);
    forall i, j | 0 <= i < j < |y| ensures y[i].key != y[j].key {
      assert y[i] in x && y[j] in x;
    }
    BagIsSameFields(x, y);
  }

  /** Sorting the keys changes a payload only in the order of its keys. */
  lemma {:induction false} SortKeysKeeps(v: Json)
    requires WellFormed(v)
    ensures WellFormed(SortKeys(v)) && SameUpToKeyOrder(v, SortKeys(v))
    decreases v, 1
  {
    match v
    case Arr(es) =>
      forall i | 0 <= i < |es| ensures WellFormed(SortKeys(es[i])) && SameUpToKeyOrder(es[i], SortKeys(es[i])) {
        SortKeysKeeps(es[i]);
      }
    case Obj(fs) => SortFieldsKeep(v, fs);
    case _ =>
  }

  lemma {:induction false} SortFieldsKeep(v: Json, fs: seq<Field>)
    requires v == Obj(fs) && WellFormed(v)
    ensures WellFormed(SortKeys(v)) && SameUpToKeyOrder(v, SortKeys(v))
    decreases v, 0
  {
    var x := SortValues(v, fs);
    var y := Sort(KeyLe, x);
    SortedFieldsKeep(x);
    SameElements(x, y);
    forall i | 0 <= i < |fs| ensures WellFormed(x[i].value) && SameUpToKeyOrder(fs[i].value, x[i].value) {
      SortKeysKeeps(fs[i].value);
    }
    forall j | 0 <= j < |y| ensures WellFormed(y[j].value) {
      assert y[j] in x;
    }
    assert Keys(fs) == Keys(x);
  }

  // ----- the text is printable ASCII -----

  function FirstUnit(c: char): (u: nat)
    ensures u < 0x10000
    ensures c as int < 0x10000 ==> u == c as int && !(0xD800 <= u < 0xE000)
    ensures c as int >= 0x10000 ==> 0xD800 <= u < 0xDC00
  {
    if c as int < 0x10000 then c as int else HighSurrogate(c as int)
  }

  function AfterFirstUnit(c: char, x: string): string {
    if c as int < 0x10000 then x else EscapeUnit(LowSurrogate(c as int)) + x
  }

  lemma LongEscapeShape(c: char, x: string)
    requires !IsShortEscape(c)
    ensures EscapeChar(c) + x == EscapeUnit(FirstUnit(c)) + AfterFirstUnit(c, x)
  {
    var n := c as int;
    if n < 0x10000 {
      assert EscapeChar(c) == EscapeUnit(n);
    } else {
      EscapeOfPair(c);
      Regroup(EscapeUnit(HighSurrogate(n)), EscapeUnit(LowSurrogate(n)), x);
    }
  }

  lemma EscapeOfPair(c: char)
    requires c as int >= 0x10000
    ensures EscapeChar(c) == EscapeUnit(HighSurrogate(c as int)) + EscapeUnit(LowSurrogate(c as int))
  {
    hide EscapeUnit;
  }

  lemma Regroup(p: string, q: string, x: string)
    ensures (p + q) + x == p + (q + x)
  {
  }

  predicate IsPrintable(c: char) { ' ' <= c <= '~' }

  lemma EscapeCharPrintable(c: char)
    ensures All(IsPrintable, EscapeChar(c))
  {
    if !IsShortEscape(c) {
      LongEscapeShape(c, "");
      assert EscapeChar(c) + "" == EscapeChar(c);
      assert forall n: nat | n < 0x10000 :: All(IsPrintable, EscapeUnit(n)) by {
        forall n: nat | n < 0x10000 ensures All(IsPrintable, EscapeUnit(n)) {
          assert EscapeUnit(n) == EscapeUnit(n)[..2] + EscapeUnit(n)[2..];
        }
      }
    }
  }

  lemma {:induction false} PrintTextPrintable(s: string, r: string)
    requires All(IsPrintable, r)
    ensures All(IsPrintable, PrintText(s, r))
  {
    if s != [] {
      EscapeCharPrintable(s[0]);
      PrintTextPrintable(s[1..], r);
    }
  }

  lemma {:induction false} PrintPrintable(v: Json, r: string)
    requires All(IsPrintable, r)
    ensures All(IsPrintable, Print(v, r))
    decreases v, 0
  {
    match v
    case Int(n) =>
      var s := Str(n);
      forall i | 0 <= i < |s| ensures IsPrintable(s[i]) {
        assert i > 0 ==> s[i] == s[1..][i - 1];
      }
    case Text(s) => PrintTextPrintable(s, r);
    case Arr(es) =>
      if es != [] {
        PrintElemsPrintable(es[1..], r);
        PrintPrintable(es[0], PrintElems(es[1..], r));
      }
    case Obj(fs) =>
      if fs != [] {
        PrintFieldsPrintable(fs[1..], r);
        PrintFieldPrintable(fs[0], PrintFields(fs[1..], r));
      }
    case _ =>
  }

  lemma {:induction false} PrintElemsPrintable(es: seq<Json>, r: string)
    requires All(IsPrintable, r)
    ensures All(IsPrintable, PrintElems(es, r))
    decreases es, 0
  {
    if es != [] {
      PrintElemsPrintable(es[1..], r);
      PrintPrintable(es[0], PrintElems(es[1..], r));
    }
  }

  lemma {:induction false} PrintFieldPrintable(f: Field, r: string)
    requires All(IsPrintable, r)
    ensures All(IsPrintable, PrintField(f, r))
    decreases f, 0
  {
    PrintPrintable(f.value, r);
    PrintTextPrintable(f.key, ":" + Print(f.value, r));
  }

  lemma {:induction false} PrintFieldsPrintable(fs: seq<Field>, r: string)
    requires All(IsPrintable, r)
    ensures All(IsPrintable, PrintFields(fs, r))
    decreases fs, 0
  {
    if fs != [] {
      PrintFieldsPrintable(fs[1..], r);
      PrintFieldPrintable(fs[0], PrintFields(fs[1..], r));
    }
  }

  /** The text never holds a raw NUL, nor any other character outside printable ASCII. */
  lemma SerializePrintable(v: Json)
    ensures All(IsPrintable, Serialize(v)) && NulFree(Serialize(v)) && IsAscii(Serialize(v))
  {
    PrintPrintable(SortKeys(v), "");
  }

  // ----- keys are written in ascending order -----

  /** At every depth the keys of an object ascend strictly, character by character. */
  ghost predicate KeysAscend(v: Json) {
    match v
    case Arr(es) => forall i :: 0 <= i < |es| ==> KeysAscend(es[i])
    case Obj(fs) =>
      && (forall i, j :: 0 <= i < j < |fs| ==> Precedes(fs[i].key, fs[j].key))
      && (forall i :: 0 <= i < |fs| ==> KeysAscend(fs[i].value))
    case _ => true
  }

  lemma {:induction false} SortKeysAscend(v: Json)
    requires WellFormed(v)
    ensures KeysAscend(SortKeys(v))
    decreases v, 1
  {
    match v
    case Arr(es) =>
      forall i | 0 <= i < |es| ensures KeysAscend(SortKeys(es[i])) {
        SortKeysAscend(es[i]);
      }
    case Obj(fs) => SortFieldsAscend(v, fs);
    case _ =>
  }

  lemma {:induction false} SortFieldsAscend(v: Json, fs: seq<Field>)
    requires v == Obj(fs) && WellFormed(v)
    ensures KeysAscend(SortKeys(v))
    decreases v, 0
  {
    hide TextLe, Precedes;
    var x := SortValues(v, fs);
    var y := Sort(KeyLe, x);
    KeyOrder();
    SortSorts(KeyLe, x);
    SortedFieldsKeep(x);
    SameElements(x, y);
    forall i, j | 0 <= i < j < |y| ensures Precedes(y[i].key, y[j].key) {
      TextLePrecedes(y[i].key, y[j].key);
    }
    forall j | 0 <= j < |y| ensures KeysAscend(y[j].value) {
      assert y[j] in x;
      var i :| 0 <= i < |x| && x[i] == y[j];
      SortKeysAscend(fs[i].value);
    }
  }

  /** Printable ASCII that needs no escape. */
  predicate PrintsItself(c: char) { ' ' <= c <= '~' && c != '\"' && c != '\\' }

  lemma EscapeOfPlain(c: char)
    requires PrintsItself(c)
    ensures EscapeChar(c) == [c]
  {
  }

  lemma PrintTextStep(s: string, rest: string)
    requires s != []
    ensures PrintText(s, rest) == EscapeChar(s[0]) + PrintText(s[1..], rest)
  {
    hide EscapeChar;
  }

  lemma {:induction false} PrintPlain(a: string, b: string, rest: string)
    requires All(PrintsItself, a)
    ensures PrintText(a + b, rest) == a + PrintText(b, rest)
  {
    hide EscapeChar, PrintText, PrintsItself;
    if a == [] {
      assert a + b == b && a + PrintText(b, rest) == PrintText(b, rest);
    } else {
      assert (a + b)[0] == a[0] && (a + b)[1..] == a[1..] + b;
      PrintTextStep(a + b, rest);
      EscapeOfPlain(a[0]);
      PrintPlain(a[1..], b, rest);
      Associate([a[0]], a[1..], PrintText(b, rest));
      assert a == [a[0]] + a[1..];
    }
  }

  lemma PrintPlainText(a: string, rest: string)
    requires All(PrintsItself, a)
    ensures PrintText(a, rest) == a + ("\"" + rest)
  {
    PrintPlain(a, "", rest);
    assert a + "" == a;
  }

  /** The text of a payload whose keys arrive in descending order. */
  lemma SampleText()
    ensures Serialize(Obj([Field("b", Arr([Null, Bool(true), Bool(false)])), Field("a", Int(1))]))
         == "{\"a\":1,\"b\":[null,true,false]}"
  {
    hide SortKeys;
    var (x, y) := (Field("b", Arr([Null, Bool(true), Bool(false)])), Field("a", Int(1)));
    SampleSorted(x, y);
    LeavesKept(x.value);
    SampleFields();
  }

  lemma LeavesKept(v: Json)
    requires v == Arr([Null, Bool(true), Bool(false)])
    ensures SortKeys(Int(1)) == Int(1) && SortKeys(v) == v
  {
  }

  lemma SampleFields()
    ensures Print(Obj([Field("a", Int(1)), Field("b", Arr([Null, Bool(true), Bool(false)]))]), "")
         == "{\"a\":1,\"b\":[null,true,false]}"
  {
    hide Print, PrintText, PrintField, PrintFields;
    var (x, y) := (Field("a", Int(1)), Field("b", Arr([Null, Bool(true), Bool(false)])));
    var tail := ",\"b\":[null,true,false]}";
    SampleTail(y);
    PrintTwo(x, y);
    SampleFirst(x, tail);
    assert "{\"a\":1" + tail == "{\"a\":1,\"b\":[null,true,false]}";
  }

  lemma PrintTwo(x: Field, y: Field)
    ensures Print(Obj([x, y]), "") == "{" + PrintField(x, PrintFields([y], ""))
  {
    hide PrintField, PrintFields;
    assert [x, y][1..] == [y];
  }

  lemma SampleFirst(x: Field, tail: string)
    requires x == Field("a", Int(1))
    ensures "{" + PrintField(x, tail) == "{\"a\":1" + tail
  {
    hide PrintText, Str;
    PrintedNumbers();
    PrintPlainText("a", ":" + ("1" + tail));
    assert "{" + ("\"" + ("a" + ("\"" + (":" + ("1" + tail))))) == "{\"a\":1" + tail;
  }

  lemma SampleTail(y: Field)
    requires y == Field("b", Arr([Null, Bool(true), Bool(false)]))
    ensures PrintFields([y], "") == ",\"b\":[null,true,false]}"
  {
    hide PrintText, Print, PrintElems;
    var text := "[null,true,false]}";
    assert [y][1..] == [] && PrintFields([], "") == "}";
    SampleArray("}");
    PrintPlainText("b", ":" + text);
    GlueKey("b", text);
    assert ",\"" + "b" + "\":" + text == ",\"b\":[null,true,false]}";
  }

  lemma GlueKey(key: string, text: string)
    ensures "," + ("\"" + (key + ("\"" + (":" + text)))) == ",\"" + key + "\":" + text
  {
  }

  lemma SampleArray(rest: string)
    requires rest == "}"
    ensures Print(Arr([Null, Bool(true), Bool(false)]), rest) == "[null,true,false]}"
  {
    var es := [Null, Bool(true), Bool(false)];
    assert es[1..] == [Bool(true), Bool(false)] && es[1..][1..] == [Bool(false)] && es[1..][1..][1..] == [];
    assert PrintElems([], rest) == "]}";
    assert PrintElems([Bool(false)], rest) == ",false]}" by {
      assert [Bool(false)][1..] == [];
    }
    assert PrintElems([Bool(true), Bool(false)], rest) == ",true,false]}" by {
      assert [Bool(true), Bool(false)][1..] == [Bool(false)];
    }
  }

  /** Payloads of one token. */
  lemma TokensSpelled(b: bool, n: int)
    ensures Serialize(Null) == "null" && Serialize(Bool(b)) == (if b then "true" else "false")
    ensures Serialize(Int(n)) == Str(n)
    ensures Serialize(Text("")) == "\"\"" && Serialize(Arr([])) == "[]" && Serialize(Obj([])) == "{}"
  {
    hide Str;
    assert SortValues(Obj([]), []) == [];
    assert Str(n) + "" == Str(n);
  }

  lemma SampleSorted(x: Field, y: Field)
    requires x.key == "b" && y.key == "a"
    ensures SortKeys(Obj([x, y])) == Obj([Field("a", SortKeys(y.value)), Field("b", SortKeys(x.value))])
  {
    SortKeysOfTwo(x, y);
    assert !TextLe("b", "a");
  }

  lemma SortKeysOfTwo(x: Field, y: Field)
    ensures var (u, v) := (Field(x.key, SortKeys(x.value)), Field(y.key, SortKeys(y.value)));
      SortKeys(Obj([x, y])) == Obj(if TextLe(x.key, y.key) then [u, v] else [v, u])
  {
    hide SortKeys, Sort, TextLe;
    var v := Obj([x, y]);
    SortKeysOfObj(v);
    assert SortValues(v, [x, y]) == [Field(x.key, SortKeys(x.value)), Field(y.key, SortKeys(y.value))];
    SortOfTwo(KeyLe, Field(x.key, SortKeys(x.value)), Field(y.key, SortKeys(y.value)));
  }

  lemma SortKeysOfObj(v: Json)
    requires v.Obj?
    ensures SortKeys(v) == Obj(Sort(KeyLe, SortValues(v, v.fields)))
  {
  }
}
