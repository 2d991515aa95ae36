/** Reading numbers back from a Prometheus text file: lines, fields and int(float(.)). */
module MetricText {
  import opened Basics
  import opened Encoding

  /** The characters str.splitlines breaks at; "\r\n" counts as one break. */
  predicate IsLineBreak(c: char) {
    || '\U{000A}' <= c <= '\U{000D}' || '\U{001C}' <= c <= '\U{001E}'
    || c == '\U{0085}' || c == '\U{2028}' || c == '\U{2029}'
  }

  /** Length of the first line of s. */
  function LineLength(s: string): (n: nat)
    ensures n <= |s|
    ensures forall i :: 0 <= i < n ==> !IsLineBreak(s[i])
    ensures n < |s| ==> IsLineBreak(s[n])
  {
    if s == [] || IsLineBreak(s[0]) then 0 else 1 + LineLength(s[1..])
  }

  /** str.splitlines() */
  function SplitLines(s: string): seq<string>
    decreases |s|
  {
    if s == [] then []
    else
      var n := LineLength(s);
      var skip := if n + 1 < |s| && s[n] == '\r' && s[n + 1] == '\n' then n + 2 else if n < |s| then n + 1 else n;
      [s[..n]] + (if skip == 0 then [] else SplitLines(s[skip..]))
  }

  predicate OneLine(s: string) { forall i :: 0 <= i < |s| ==> !IsLineBreak(s[i]) }

  lemma LineLengthOf(line: string, rest: string)
    requires OneLine(line) && rest != [] && IsLineBreak(rest[0])
    ensures LineLength(line + rest) == |line|
  {
    var s := line + rest;
    var n := LineLength(s);
    ConcatAt(line, rest, |line|);
    if n < |s| {
      ConcatAt(line, rest, n);
    }
  }

  /** A line written with its newline is read back as the first line. */
  lemma SplitFirst(line: string, rest: string)
    requires OneLine(line)
    ensures SplitLines(line + ("\n" + rest)) == [line] + SplitLines(rest)
  {
    var s := line + ("\n" + rest);
    LineLengthOf(line, "\n" + rest);
    assert s[|line|] == '\n';
    assert s[..|line|] == line && s[|line| + 1..] == rest;
  }

  /** Each line followed by a newline, as the emitters write them. */
  function Unlines(lines: seq<string>): string {
    if lines == [] then "" else lines[0] + ("\n" + Unlines(lines[1..]))
  }

  /** A file written line by line is read back line by line. */
  lemma {:induction false} SplitUnlines(lines: seq<string>)
    requires forall i :: 0 <= i < |lines| ==> OneLine(lines[i])
    ensures SplitLines(Unlines(lines)) == lines
  {
    hide SplitLines, OneLine;
    if lines == [] {
      SplitNothing();
    } else {
      SplitFirst(lines[0], Unlines(lines[1..]));
      SplitUnlines(lines[1..]);
      assert lines == [lines[0]] + lines[1..];
    }
  }

  lemma SplitNothing()
    ensures SplitLines("") == []
  {
  }

  /** Printable ASCII, which no line ends inside. */
  predicate Plain(s: string) { forall i :: 0 <= i < |s| ==> ' ' <= s[i] <= '~' }

  /** Printable ASCII without a blank. */
  predicate Dense(s: string) { s != "" && forall i :: 0 <= i < |s| ==> '!' <= s[i] <= '~' }

  lemma PlainIsOneLine(s: string)
    requires Plain(s)
    ensures OneLine(s)
  {
  }

  lemma DenseIsOneWord(s: string)
    requires Dense(s)
    ensures OneWord(s) && Plain(s)
  {
  }

  lemma InfIsDense()
    ensures Dense("inf")
  {
  }

  lemma StrIsDense(n: int)
    ensures Dense(Str(n))
  {
    var s := Str(n);
    forall i | 0 <= i < |s| ensures '!' <= s[i] <= '~' {
      assert i > 0 ==> s[i] == s[1..][i - 1];
    }
  }

  lemma DenseConcat(s: string, t: string)
    requires Dense(s) && Dense(t)
    ensures Dense(s + t)
  {
  }

  lemma PlainConcat(s: string, t: string)
    requires Plain(s) && Plain(t)
    ensures Plain(s + t)
  {
  }

  lemma {:induction false} UnlinesConcat(a: seq<string>, b: seq<string>)
    ensures Unlines(a + b) == Unlines(a) + Unlines(b)
  {
    if a == [] {
      assert a + b == b;
    } else {
      UnlinesConcat(a[1..], b);
      assert (a + b)[0] == a[0] && (a + b)[1..] == a[1..] + b;
      var (x, y, z) := (a[0], Unlines(a[1..]), Unlines(b));
      assert x + ("\n" + (y + z)) == (x + ("\n" + y)) + z;
    }
  }

  /** What str.split() and str.isspace take for white space. */
  predicate IsSpace(c: char) {
    || '\U{0009}' <= c <= '\U{000D}' || '\U{001C}' <= c <= ' ' || c == '\U{0085}' || c == '\U{00A0}' || c == '\U{1680}'
    || '\U{2000}' <= c <= '\U{200A}' || c == '\U{2028}' || c == '\U{2029}' || c == '\U{202F}'
    || c == '\U{205F}' || c == '\U{3000}'
  }

  function WordLength(s: string): (n: nat)
    ensures n <= |s|
    ensures forall i :: 0 <= i < n ==> !IsSpace(s[i])
    ensures n < |s| ==> IsSpace(s[n])
  {
    if s == [] || IsSpace(s[0]) then 0 else 1 + WordLength(s[1..])
  }

  /** str.split() */
  function SplitWords(s: string): seq<string>
    decreases |s|
  {
    if s == [] then []
    else if IsSpace(s[0]) then SplitWords(s[1..])
    else [s[..WordLength(s)]] + SplitWords(s[WordLength(s)..])
  }

  predicate OneWord(s: string) { s != "" && forall i :: 0 <= i < |s| ==> !IsSpace(s[i]) }

  lemma SplitWord(word: string, rest: string)
    requires OneWord(word) && (rest == [] || IsSpace(rest[0]))
    ensures SplitWords(word + rest) == [word] + SplitWords(rest)
  {
    var s := word + rest;
    var n := WordLength(s);
    assert s[0] == word[0];
    if n < |s| {
      ConcatAt(word, rest, n);
    }
    if |word| < |s| {
      ConcatAt(word, rest, |word|);
    }
    assert n == |word|;
    assert s[..n] == word && s[n..] == rest;
  }

  lemma SplitNameValue(name: string, value: string)
    requires OneWord(name) && OneWord(value)
    ensures SplitWords(name + (" " + value)) == [name, value]
  {
    SplitWord(name, " " + value);
    assert (" " + value)[1..] == value;
    assert value + "" == value;
    SplitWord(value, "");
  }

  /** One differing character rules a prefix out. */
  lemma NotPrefix(s: string, prefix: string, k: nat)
    requires k < |s| && k < |prefix| && s[k] != prefix[k]
    ensures !StartsWith(s, prefix)
  {
    if |prefix| <= |s| {
      assert s[..|prefix|][k] == s[k];
    }
  }

  lemma IsPrefix(prefix: string, rest: string)
    ensures StartsWith(prefix + rest, prefix)
  {
  }

  function Help(name: string, text: string): string { "# HELP " + name + text }

  function TypeLine(name: string): string { "# TYPE " + name + " gauge" }

  function Gauge(name: string, value: string): string { name + (" " + value) }

  lemma CommentsArePlain()
    ensures Plain("# HELP ") && Plain("# TYPE ") && Plain(" gauge")
  {
  }

  /** Comment lines are printable, stay on one line and begin like no gauge does. */
  lemma CommentShape(name: string, text: string)
    requires Dense(name) && Plain(text)
    ensures Plain(Help(name, text)) && OneLine(Help(name, text)) && |Help(name, text)| > 0 && Help(name, text)[0] == '#'
    ensures Plain(TypeLine(name)) && OneLine(TypeLine(name)) && |TypeLine(name)| > 0 && TypeLine(name)[0] == '#'
  {
    CommentsArePlain();
    DenseIsOneWord(name);
    PlainConcat("# HELP ", name);
    PlainConcat("# HELP " + name, text);
    PlainIsOneLine(Help(name, text));
    PlainConcat("# TYPE ", name);
    PlainConcat("# TYPE " + name, " gauge");
    PlainIsOneLine(TypeLine(name));
  }

  lemma ValueLine(name: string, value: string)
    requires Dense(name) && Dense(value)
    ensures Plain(Gauge(name, value)) && OneLine(Gauge(name, value))
  {
    DenseIsOneWord(name);
    DenseIsOneWord(value);
    PlainConcat(" ", value);
    PlainConcat(name, " " + value);
    PlainIsOneLine(Gauge(name, value));
  }

  /** A gauge line written for n is split back into its name and n's text. */
  lemma GaugeLine(name: string, n: int)
    requires Dense(name)
    ensures var line := Gauge(name, Str(n));
      Plain(line) && SplitWords(line) == [name, Str(n)] && StartsWith(line, name + " ")
  {
    StrIsDense(n);
    DenseIsOneWord(name);
    DenseIsOneWord(Str(n));
    PlainConcat(" ", Str(n));
    PlainConcat(name, " " + Str(n));
    SplitNameValue(name, Str(n));
    IsPrefix(name + " ", Str(n));
    assert (name + " ") + Str(n) == name + (" " + Str(n));
  }

  /** A comment: printable, and no gauge begins like it. */
  predicate IsComment(line: string) { Plain(line) && |line| > 0 && line[0] == '#' }

  lemma CommentIsNoGauge(line: string, name: string)
    requires IsComment(line) && |name| > 0 && name[0] == 'a'
    ensures !StartsWith(line, name + " ")
  {
    NotPrefix(line, name + " ", 0);
  }

  lemma CommentsAre(name: string, text: string)
    requires Dense(name) && Plain(text)
    ensures IsComment(Help(name, text)) && IsComment(TypeLine(name))
  {
    CommentShape(name, text);
  }

  // ----- lines that carry a metric -----

  /** j is the first line from i on that starts with the metric's name and a blank. */
  ghost predicate FirstGauge(lines: seq<string>, name: string, i: nat, j: int) {
    && i <= j < |lines| && StartsWith(lines[j], name + " ")
    && forall k :: i <= k < j ==> !StartsWith(lines[k], name + " ")
  }

  predicate AllSpace(s: string) { forall i :: 0 <= i < |s| ==> IsSpace(s[i]) }

  /** Only white space follows the first |name| characters. */
  predicate BlankAfter(line: string, name: string) { |name| <= |line| && AllSpace(line[|name|..]) }

  lemma {:induction false} NoWordsIffBlank(s: string)
    ensures SplitWords(s) == [] <==> AllSpace(s)
    decreases |s|
  {
    if s != [] && IsSpace(s[0]) {
      NoWordsIffBlank(s[1..]);
      assert s == [s[0]] + s[1..];
    }
  }

  /** A gauge line has no value exactly when only white space follows the name. */
  lemma NoValueIffBlank(line: string, name: string)
    requires Dense(name) && StartsWith(line, name + " ")
    ensures |SplitWords(line)| < 2 <==> BlankAfter(line, name)
  {
    var rest := line[|name|..];
    assert line[..|name|] == line[..|name + " "|][..|name|] == name;
    assert line == name + rest;
    assert rest[0] == line[..|name + " "|][|name|] == ' ';
    DenseIsOneWord(name);
    SplitWord(name, rest);
    NoWordsIffBlank(rest);
  }

  /** The value text a scraper finds for a metric: the second word of the first line that carries it. */
  function GaugeText(lines: seq<string>, name: string, i: nat): Option<string>
    requires i <= |lines|
    decreases |lines| - i
  {
    if i == |lines| then None
    else if StartsWith(lines[i], name + " ") then
      (if |SplitWords(lines[i])| < 2 then None else Some(SplitWords(lines[i])[1]))
    else GaugeText(lines, name, i + 1)
  }

  lemma {:induction false} GaugeTextFound(lines: seq<string>, name: string, value: string, i: nat, j: nat)
    requires i <= j < |lines| && forall k :: i <= k < j ==> !StartsWith(lines[k], name + " ")
    requires Dense(name) && Dense(value) && lines[j] == Gauge(name, value)
    ensures GaugeText(lines, name, i) == Some(value)
    decreases j - i
  {
    hide StartsWith, SplitWords, Dense;
    if i < j {
      GaugeTextFound(lines, name, value, i + 1, j);
    } else {
      DenseIsOneWord(name);
      DenseIsOneWord(value);
      SplitNameValue(name, value);
      IsPrefix(name + " ", value);
      assert (name + " ") + value == name + (" " + value);
    }
  }

  // ----- int(float(text)) -----

  /** ValueError on malformed text and nan; OverflowError on inf. */
  datatype FloatInt = Exact(n: int) | ValueError | OverflowError

  const MAX_EXACT := 0x20_0000_0000_0000

  /** `word` in any case. */
  predicate Spells(s: string, word: string) {
    |s| == |word| && forall i :: 0 <= i < |s| ==> s[i] == word[i] || (s[i] < 'a' && s[i] + ' ' == word[i])
  }

  /** float() reads these words as infinities, with or without a sign. */
  predicate SpellsInfinity(s: string) {
    var body := if s != "" && (s[0] == '+' || s[0] == '-') then s[1..] else s;
    Spells(body, "inf") || Spells(body, "infinity")
  }

  /** Any reader of numbers that is exact on decimal integers a double can hold. */
  type FloatReader = f: string -> FloatInt | forall n: int :: -MAX_EXACT <= n <= MAX_EXACT ==> f(Str(n)) == Exact(n)
    witness (s: string) => match ReadInt(s) case Some(n) => Exact(n) case None => ValueError

  /** int(float(word)): the spelled infinities overflow, every other word is left to f. */
  function ReadNumber(f: FloatReader, word: string): FloatInt {
    if SpellsInfinity(word) then OverflowError else f(word)
  }

  predicate IsExact(n: int) { -MAX_EXACT <= n <= MAX_EXACT }

  /** A word that ends in a digit spells no infinity. */
  lemma EndsInDigit(s: string)
    requires |s| > 0 && IsDigit(s[|s| - 1])
    ensures !SpellsInfinity(s)
  {
    var body := if s[0] == '+' || s[0] == '-' then s[1..] else s;
    assert body != "" ==> body[|body| - 1] == s[|s| - 1];
    SpelledEnd(body, "inf");
    SpelledEnd(body, "infinity");
  }

  lemma SpelledEnd(s: string, word: string)
    requires |word| > 0 && 'a' <= word[|word| - 1] <= 'z'
    ensures Spells(s, word) ==> |s| > 0 && !IsDigit(s[|s| - 1])
  {
  }

  lemma ReadsBack(f: FloatReader, n: int)
    requires IsExact(n)
    ensures ReadNumber(f, Str(n)) == Exact(n)
  {
    hide SpellsInfinity;
    var s := Str(n);
    assert IsDigit(s[|s| - 1]) by {
      assert |s| > 1 ==> s[1..][|s| - 2] == s[|s| - 1];
    }
    EndsInDigit(s);
  }

  lemma InfIsInfinite(f: FloatReader)
    ensures ReadNumber(f, "inf") == OverflowError
  {
  }

  // ----- what becomes of a tmp file -----

  /** The process dies before the rename, or the rename is denied some times first. */
  datatype EmitFate = Killed | Denied(times: nat)

  // ----- the character classes and the texts, spelled out -----

  /** Where str.splitlines breaks, by code point. */
  lemma LineBreaksSpelled(c: char)
    ensures IsLineBreak(c) <==> c as int in {10, 11, 12, 13, 28, 29, 30, 0x85, 0x2028, 0x2029}
  {
  }

  /** What str.split takes for white space, by code point. */
  lemma SpacesSpelled(c: char)
    ensures IsSpace(c) <==>
      || c as int in {9, 10, 11, 12, 13, 28, 29, 30, 31, 32, 0x85, 0xA0, 0x1680}
      || c as int in {0x2000, 0x2001, 0x2002, 0x2003, 0x2004, 0x2005, 0x2006, 0x2007, 0x2008, 0x2009, 0x200A}
      || c as int in {0x2028, 0x2029, 0x202F, 0x205F, 0x3000}
  {
  }

  lemma EndsWithReturn(line: string, rest: string)
    requires OneLine(line) && (rest == "" || rest[0] != '\n')
    ensures SplitLines(line + ("\r" + rest)) == [line] + SplitLines(rest)
  {
    var (tail, n) := ("\r" + rest, |line|);
    var s := line + tail;
    LineLengthOf(line, tail);
    ConcatAt(line, tail, n);
    if rest != "" {
      ConcatAt(line, tail, n + 1);
      assert tail[1] == rest[0];
    }
    assert s[..n] == line && s[n + 1..] == rest;
  }

  lemma EndsWithBoth(line: string, rest: string)
    requires OneLine(line)
    ensures SplitLines(line + ("\r\n" + rest)) == [line] + SplitLines(rest)
  {
    var (tail, n) := ("\r\n" + rest, |line|);
    var s := line + tail;
    LineLengthOf(line, tail);
    ConcatAt(line, tail, n);
    ConcatAt(line, tail, n + 1);
    assert tail[0] == '\r' && tail[1] == '\n';
    assert s[..n] == line && s[n + 2..] == rest;
  }

  /** A line ends before a line feed, a carriage return, or both together. */
  lemma LineEnds(line: string, rest: string)
    requires OneLine(line)
    ensures SplitLines(line + ("\n" + rest)) == [line] + SplitLines(rest)
    ensures SplitLines(line + ("\r\n" + rest)) == [line] + SplitLines(rest)
    ensures rest == "" || rest[0] != '\n' ==> SplitLines(line + ("\r" + rest)) == [line] + SplitLines(rest)
  {
    hide SplitLines, OneLine;
    SplitFirst(line, rest);
    EndsWithBoth(line, rest);
    if rest == "" || rest[0] != '\n' {
      EndsWithReturn(line, rest);
    }
  }

  lemma InfinitiesSpelled()
    ensures SpellsInfinity("inf") && SpellsInfinity("-inf") && SpellsInfinity("+Inf") && SpellsInfinity("INFINITY")
    ensures SpellsInfinity("-Infinity") && !SpellsInfinity("nan") && !SpellsInfinity("") && !SpellsInfinity("infin")
  {
    assert "-inf"[1..] == "inf" && "+Inf"[1..] == "Inf" && "-Infinity"[1..] == "Infinity";
    assert "nan"[0] == 'n';
  }
}
