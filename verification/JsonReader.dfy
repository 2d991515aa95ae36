/** A reader of JSON text (RFC 8259), by which the serializer's output is shown to mean what was serialized. */
module JsonReader {
  import opened Basics
  import opened Encoding
  import opened CanonicalJson

  /** A value and the text after it. */
  type Parsed<T> = Option<(T, string)>

  // ----- strings: RFC 8259, section 7 -----

  /** `\uXXXX` with lowercase digits. */
  function ReadUnit(s: string): (r: Option<nat>)
    ensures r.Some? ==> |s| >= 6
  {
    if |s| >= 6 && s[0] == '\\' && s[1] == 'u' && All(IsHex, s[2..6]) then Some(ReadHex4(s[2..6])) else None
  }

  function ReadLong(s: string): (r: Parsed<char>)
    ensures r.Some? ==> |r.value.1| < |s|
  {
    match ReadUnit(s)
    case None => None
    case Some(u) =>
      if u < 0xD800 || 0xE000 <= u < 0x10000 then Some((u as char, s[6..]))
      else match ReadUnit(s[6..])
        case None => None
        case Some(v) =>
          if u < 0xDC00 && 0xDC00 <= v < 0xE000 then
            Some(((0x10000 + 1024 * (u - 0xD800) + (v - 0xDC00)) as char, s[12..]))
          else None
  }

  /** One character of a string. */
  function ReadChar(s: string): (r: Parsed<char>)
    ensures r.Some? ==> |r.value.1| < |s|
  {
    if s == [] || s[0] == '\"' || s[0] < ' ' then None
    else if s[0] != '\\' then Some((s[0], s[1..]))
    else if |s| < 2 then None
    else match s[1]
      case '\"' => Some(('\"', s[2..]))
      case '\\' => Some(('\\', s[2..]))
      case '/' => Some(('/', s[2..]))
      case 'b' => Some(('\U{0008}', s[2..]))
      case 'f' => Some(('\U{000C}', s[2..]))
      case 'n' => Some(('\n', s[2..]))
      case 'r' => Some(('\r', s[2..]))
      case 't' => Some(('\t', s[2..]))
      case 'u' => ReadLong(s)
      case _ => None
  }

  /** The rest of a string after its opening quote. */
  function ReadText(s: string): (r: Parsed<string>)
    ensures r.Some? ==> |r.value.1| < |s|
    decreases |s|
  {
    if s == [] then None
    else if s[0] == '\"' then Some(("", s[1..]))
    else match ReadChar(s)
      case None => None
      case Some((c, r)) =>
        match ReadText(r)
        case None => None
        case Some((t, q)) => Some(([c] + t, q))
  }

  // ----- values: RFC 8259, sections 3 to 6, integers only -----

  function NumeralLength(s: string): (n: nat)
    ensures n <= |s| && All(IsNumeral, s[..n]) && Stops(IsNumeral, s[n..])
  {
    if s == [] || !IsNumeral(s[0]) then 0
    else
      var n := NumeralLength(s[1..]);
      assert s[..1 + n] == [s[0]] + s[1..][..n] && s[1 + n..] == s[1..][n..];
      1 + n
  }

  function ReadInteger(s: string): (r: Parsed<Json>)
    ensures r.Some? ==> |r.value.1| < |s|
  {
    var n := NumeralLength(s);
    match ReadInt(s[..n])
    case Some(k) => Some((Int(k), s[n..]))
    case None => None
  }

  function ReadValue(s: string): (r: Parsed<Json>)
    ensures r.Some? ==> |r.value.1| < |s|
    decreases |s|, 1
  {
    if s == [] then None
    else match s[0]
      case 'n' => if StartsWith(s, "null") then Some((Null, s[4..])) else None
      case 't' => if StartsWith(s, "true") then Some((Bool(true), s[4..])) else None
      case 'f' => if StartsWith(s, "false") then Some((Bool(false), s[5..])) else None
      case '\"' =>
        (match ReadText(s[1..])
         case Some((t, r)) => Some((Text(t), r))
         case None => None)
      case '[' =>
        if |s| > 1 && s[1] == ']' then Some((Arr([]), s[2..]))
        else (match ReadElems(s[1..])
              case Some((es, r)) => Some((Arr(es), r))
              case None => None)
      case '{' =>
        if |s| > 1 && s[1] == '}' then Some((Obj([]), s[2..]))
        else (match ReadFields(s[1..])
              case Some((fs, r)) => Some((Obj(fs), r))
              case None => None)
      case _ => ReadInteger(s)
  }

  /** One or more elements and the closing bracket. */
  function ReadElems(s: string): (r: Parsed<seq<Json>>)
    ensures r.Some? ==> |r.value.1| < |s|
    decreases |s|, 2
  {
    match ReadValue(s)
    case None => None
    case Some((v, r)) =>
      if StartsWith(r, "]") then Some(([v], r[1..]))
      else if StartsWith(r, ",") then
        match ReadElems(r[1..])
        case Some((vs, q)) => Some(([v] + vs, q))
        case None => None
      else None
  }

  function ReadField(s: string): (r: Parsed<Field>)
    ensures r.Some? ==> |r.value.1| < |s|
    decreases |s|, 2
  {
    if !StartsWith(s, "\"") then None
    else match ReadText(s[1..])
      case None => None
      case Some((k, r)) =>
        if !StartsWith(r, ":") then None
        else match ReadValue(r[1..])
          case Some((v, q)) => Some((Field(k, v), q))
          case None => None
  }

  /** One or more fields and the closing brace. */
  function ReadFields(s: string): (r: Parsed<seq<Field>>)
    ensures r.Some? ==> |r.value.1| < |s|
    decreases |s|, 3
  {
    match ReadField(s)
    case None => None
    case Some((f, r)) =>
      if StartsWith(r, "}") then Some(([f], r[1..]))
      else if StartsWith(r, ",") then
        match ReadFields(r[1..])
        case Some((fs, q)) => Some(([f] + fs, q))
        case None => None
      else None
  }

  // ----- reading undoes printing -----

  /** What may follow a complete value. */
  predicate Closes(rest: string) {
    rest == [] || rest[0] == ',' || rest[0] == ']' || rest[0] == '}'
  }

  lemma StartsWithPrefix(prefix: string, rest: string)
    ensures StartsWith(prefix + rest, prefix) && (prefix + rest)[|prefix|..] == rest
  {
  }

  lemma ReadsUnit(n: nat, x: string)
    requires n < 0x10000
    ensures ReadUnit(EscapeUnit(n) + x) == Some(n) && (EscapeUnit(n) + x)[6..] == x
  {
    var s := EscapeUnit(n) + x;
    assert s[..6] == EscapeUnit(n);
    assert s[0] == EscapeUnit(n)[..2][0] && s[1] == EscapeUnit(n)[..2][1];
    assert s[2..6] == EscapeUnit(n)[2..];
  }

  lemma ReadsLong(c: char, x: string)
    requires !IsShortEscape(c)
    ensures ReadLong(EscapeChar(c) + x) == Some((c, x))
  {
    LongEscapeShape(c, x);
    ReadsUnit(FirstUnit(c), AfterFirstUnit(c, x));
    if c as int >= 0x10000 {
      ReadsUnit(LowSurrogate(c as int), x);
      var s := EscapeChar(c) + x;
      assert s[12..] == s[6..][6..];
      assert c as int == 0x10000 + 1024 * (FirstUnit(c) - 0xD800) + (LowSurrogate(c as int) - 0xDC00);
    }
  }

  lemma ReadsChar(c: char, x: string)
    ensures ReadChar(EscapeChar(c) + x) == Some((c, x))
  {
    var p := EscapeChar(c);
    var s := p + x;
    assert s[0] == p[0] && (|p| > 1 ==> s[1] == p[1]) && s[|p|..] == x;
    if !IsShortEscape(c) {
      ReadsLong(c, x);
    }
  }

  lemma {:induction false} ReadsText(t: string, rest: string)
    ensures ReadText(PrintText(t, rest)) == Some((t, rest))
  {
    hide ReadChar, EscapeChar;
    if t != [] {
      ReadsChar(t[0], PrintText(t[1..], rest));
      ReadsText(t[1..], rest);
      EscapeStarts(t[0], PrintText(t[1..], rest));
      assert t == [t[0]] + t[1..];
    }
  }

  lemma EscapeStarts(c: char, x: string)
    ensures EscapeChar(c) + x != [] && (EscapeChar(c) + x)[0] != '\"'
  {
  }

  lemma ReadsNumeral(n: int, rest: string)
    requires Closes(rest)
    ensures ReadInteger(Str(n) + rest) == Some((Int(n), rest))
  {
    hide Str, ReadInt;
    var s := Str(n) + rest;
    StrIsNumeral(n);
    var k := NumeralLength(s);
    assert s == s[..k] + s[k..];
    SplitUnique(IsNumeral, s[..k], s[k..], Str(n), rest);
  }

  lemma ReadsInteger(n: int, rest: string)
    requires Closes(rest)
    ensures ReadValue(Print(Int(n), rest)) == Some((Int(n), rest))
  {
    hide Str, ReadInteger;
    ReadsNumeral(n, rest);
    assert (Str(n) + rest)[0] == Str(n)[0];
  }

  lemma StrIsNumeral(n: int)
    ensures All(IsNumeral, Str(n))
  {
    var s := Str(n);
    forall i | 0 <= i < |s| ensures IsNumeral(s[i]) {
      assert i > 0 ==> s[i] == s[1..][i - 1];
    }
  }

  /** The first character of a printed value is no delimiter. */
  lemma PrintStarts(v: Json, rest: string)
    ensures Print(v, rest) != [] && Print(v, rest)[0] != ']' && Print(v, rest)[0] != '}'
  {
    if v.Int? {
      ConcatAt(Str(v.n), rest, 0);
    }
  }

  lemma {:induction false} ReadsPrinted(v: Json, rest: string)
    requires Closes(rest)
    ensures ReadValue(Print(v, rest)) == Some((v, rest))
    decreases v, 1
  {
    hide PrintText;
    match v
    case Null => StartsWithPrefix("null", rest);
    case Bool(b) => StartsWithPrefix(if b then "true" else "false", rest);
    case Int(n) => ReadsInteger(n, rest);
    case Text(t) =>
      ReadsText(t, rest);
      StartsWithPrefix("\"", PrintText(t, rest));
    case Arr(es) => ReadsArray(es, rest);
    case Obj(fs) => ReadsObject(fs, rest);
  }

  lemma {:induction false} ReadsArray(es: seq<Json>, rest: string)
    requires Closes(rest)
    ensures ReadValue(Print(Arr(es), rest)) == Some((Arr(es), rest))
    decreases es, 1
  {
    hide ReadElems, PrintElems, ReadText, ReadFields, ReadInteger;
    if es == [] {
      StartsWithPrefix("[]", rest);
    } else {
      var inner := Print(es[0], PrintElems(es[1..], rest));
      ReadsElems(es, rest);
      PrintStarts(es[0], PrintElems(es[1..], rest));
      Opens("[", inner);
    }
  }

  lemma Opens(bracket: string, inner: string)
    requires |bracket| == 1 && inner != []
    ensures var s := bracket + inner; |s| > 1 && s[0] == bracket[0] && s[1] == inner[0] && s[1..] == inner
  {
  }

  lemma {:induction false} ReadsElems(es: seq<Json>, rest: string)
    requires es != [] && Closes(rest)
    ensures ReadElems(Print(es[0], PrintElems(es[1..], rest))) == Some((es, rest))
    decreases es, 0
  {
    hide Print, ReadValue;
    var tail := PrintElems(es[1..], rest);
    TailCloses(es[1..], rest);
    ReadsPrinted(es[0], tail);
    if es[1..] == [] {
      StartsWithPrefix("]", rest);
      assert es == [es[0]];
    } else {
      ReadsElems(es[1..], rest);
      StartsWithPrefix(",", Print(es[1], PrintElems(es[1..][1..], rest)));
      assert !StartsWith(tail, "]") by {
        assert tail[0] == ',';
      }
      assert es == [es[0]] + es[1..];
    }
  }

  lemma TailCloses(es: seq<Json>, rest: string)
    ensures PrintElems(es, rest) != [] && Closes(PrintElems(es, rest))
  {
  }

  lemma {:induction false} ReadsObject(fs: seq<Field>, rest: string)
    requires Closes(rest)
    ensures ReadValue(Print(Obj(fs), rest)) == Some((Obj(fs), rest))
    decreases fs, 1
  {
    hide ReadFields, PrintFields, PrintText, ReadText, ReadElems, ReadInteger;
    if fs == [] {
      StartsWithPrefix("{}", rest);
    } else {
      var inner := PrintField(fs[0], PrintFields(fs[1..], rest));
      ReadsFields(fs, rest);
      Opens("{", inner);
    }
  }

  lemma {:induction false} ReadsFields(fs: seq<Field>, rest: string)
    requires fs != [] && Closes(rest)
    ensures ReadFields(PrintField(fs[0], PrintFields(fs[1..], rest))) == Some((fs, rest))
    decreases fs, 0
  {
    hide PrintField, ReadField;
    var tail := PrintFields(fs[1..], rest);
    FieldTailCloses(fs[1..], rest);
    ReadsField(fs[0], tail);
    if fs[1..] == [] {
      StartsWithPrefix("}", rest);
      assert fs == [fs[0]];
    } else {
      ReadsFields(fs[1..], rest);
      StartsWithPrefix(",", PrintField(fs[1], PrintFields(fs[1..][1..], rest)));
      assert !StartsWith(tail, "}") by {
        assert tail[0] == ',';
      }
      assert fs == [fs[0]] + fs[1..];
    }
  }

  lemma FieldTailCloses(fs: seq<Field>, rest: string)
    ensures PrintFields(fs, rest) != [] && Closes(PrintFields(fs, rest))
  {
  }

  lemma {:induction false} ReadsField(f: Field, rest: string)
    requires Closes(rest)
    ensures ReadField(PrintField(f, rest)) == Some((f, rest))
    decreases f, 0
  {
    hide Print, ReadValue, PrintText, ReadText;
    var value := Print(f.value, rest);
    StartsWithPrefix("\"", PrintText(f.key, ":" + value));
    ReadsText(f.key, ":" + value);
    StartsWithPrefix(":", value);
    ReadsPrinted(f.value, rest);
  }

  // ----- the two main results -----

  lemma ReadsSerialized(v: Json)
    ensures ReadValue(Serialize(v)) == Some((SortKeys(v), ""))
  {
    hide ReadValue, SortKeys;
    ReadsPrinted(SortKeys(v), "");
  }

  /**
   * Round trip: reading the serialized text gives back the payload up to the order of object keys, with nothing left
   * over.
   */
  lemma SerializeRoundTrip(v: Json)
    requires WellFormed(v)
    ensures var r := ReadValue(Serialize(v)); r.Some? && r.value.1 == "" && SameUpToKeyOrder(v, r.value.0)
  {
    hide ReadValue, Serialize, SortKeys, WellFormed, SameUpToKeyOrder;
    ReadsSerialized(v);
    SortKeysKeeps(v);
  }

  /** Canonical form: two payloads have one text exactly when they differ only in the order of object keys. */
  lemma SerializeIsCanonical(v: Json, w: Json)
    requires WellFormed(v) && WellFormed(w)
    ensures Serialize(v) == Serialize(w) <==> SameUpToKeyOrder(v, w)
  {
    hide Serialize, WellFormed, SameUpToKeyOrder, SortKeys, ReadValue;
    ReadsSerialized(v);
    ReadsSerialized(w);
    SerializeOfSorted(v);
    SerializeOfSorted(w);
    SortKeysDecides(v, w);
  }

  lemma SerializeOfSorted(v: Json)
    ensures Serialize(v) == Print(SortKeys(v), "")
  {
  }

  // ----- every character is written in its one shortest form -----

  lemma HexDigitUnique(c: char, d: char)
    requires IsHex(c) && IsHex(d) && HexValue(c) == HexValue(d)
    ensures c == d
  {
  }

  lemma Hex4Unique(s: string, t: string)
    requires |s| == |t| == 4 && All(IsHex, s) && All(IsHex, t) && ReadHex4(s) == ReadHex4(t)
    ensures s == t
  {
    hide IsHex, HexValue;
    HexDigitUnique(s[0], t[0]);
    HexDigitUnique(s[1], t[1]);
    HexDigitUnique(s[2], t[2]);
    HexDigitUnique(s[3], t[3]);
  }

  lemma UnitUnique(s: string, n: nat)
    requires n < 0x10000 && |s| == 6 && ReadUnit(s) == Some(n)
    ensures s == EscapeUnit(n)
  {
    hide IsHex, ReadHex4, Hex4;
    Hex4Unique(s[2..6], Hex4(n));
    assert s == [s[0]] + [s[1]] + s[2..6];
  }

  lemma LongIsShortest(c: char, s: string)
    requires ReadLong(s) == Some((c, ""))
    ensures |EscapeChar(c)| <= |s| && (|s| == |EscapeChar(c)| ==> s == EscapeChar(c))
  {
    hide ReadUnit, EscapeUnit;
    var u := ReadUnit(s).value;
    if u < 0xD800 || 0xE000 <= u < 0x10000 {
      assert |s| == 6;
      UnitUnique(s, u);
    } else {
      var (first, second) := (s[..6], s[6..]);
      var v := ReadUnit(second).value;
      assert |second| == 6;
      UnitPrefix(s);
      UnitUnique(first, u);
      UnitUnique(second, v);
      SurrogatesUnique(u, v);
      assert s == first + second;
    }
  }

  lemma UnitPrefix(s: string)
    requires ReadUnit(s).Some?
    ensures ReadUnit(s[..6]) == ReadUnit(s)
  {
    assert s[..6][2..6] == s[2..6];
  }

  lemma SurrogatesUnique(u: nat, v: nat)
    requires 0xD800 <= u < 0xDC00 <= v < 0xE000
    ensures var n := 0x10000 + 1024 * (u - 0xD800) + (v - 0xDC00);
      n < 0x110000 && HighSurrogate(n) == u && LowSurrogate(n) == v
  {
  }

  /** Of all texts that read as c, EscapeChar(c) is shorter than every other in printable ASCII. */
  lemma EscapeIsShortest(c: char, s: string)
    requires ReadChar(s) == Some((c, "")) && forall i :: 0 <= i < |s| ==> ' ' <= s[i] <= '~'
    ensures |EscapeChar(c)| <= |s| && (|s| == |EscapeChar(c)| ==> s == EscapeChar(c))
  {
    hide ReadLong, EscapeUnit;
    if s[0] != '\\' {
      assert |s| == 1;
    } else if s[1] == 'u' {
      LongIsShortest(c, s);
    } else {
      assert |s| == 2;
    }
  }
}
