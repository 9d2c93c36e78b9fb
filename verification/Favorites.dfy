/** The text protocol of the favourite modes (src/FavoritesManager.h). */
module Favorites {
  import opened Octets
  import opened Wrappers

  // ---------------------------------------------------------------- numbers as text

  function Digit(d: nat): char
    requires d < 10
  {
    '0' + d as char
  }

  /** itoa in base 10. */
  function Itoa(n: nat): (s: string)
    ensures |s| >= 1
  {
    if n < 10 then [Digit(n)] else Itoa(n / 10) + [Digit(n % 10)]
  }

  predicate IsDigit(c: char) { '0' <= c <= '9' }

  predicate IsSpace(c: char) { c == ' ' || '\t' <= c <= '\r' }

  /** The value of the digits that s starts with, after digits that were worth n. */
  function Digits(n: nat, s: string): nat
    decreases s
  {
    if s == "" || !IsDigit(s[0]) then n else Digits(10 * n + (s[0] - '0') as nat, s[1..])
  }

  function Signed(s: string): int {
    if s != "" && s[0] == '-' then 0 - Digits(0, s[1..])
    else if s != "" && s[0] == '+' then Digits(0, s[1..])
    else Digits(0, s)
  }

  function Atoi(s: string): int {
    if s != "" && IsSpace(s[0]) then Atoi(s[1..]) else Signed(s)
  }

  predicate Numeral(s: string) {
    forall k :: 0 <= k < |s| ==> IsDigit(s[k])
  }

  lemma {:induction false} DigitsConcat(n: nat, s: string, t: string)
    requires Numeral(s)
    ensures Digits(n, s + t) == Digits(Digits(n, s), t)
    decreases s
  {
    if s == "" {
      assert s + t == t;
    } else {
      assert (s + t)[1..] == s[1..] + t;
      DigitsConcat(10 * n + (s[0] - '0') as nat, s[1..], t);
    }
  }

  /** atoi undoes itoa, and itoa writes digits only. */
  lemma {:induction false} AtoiItoa(n: nat)
    ensures Numeral(Itoa(n)) && Digits(0, Itoa(n)) == n && Atoi(Itoa(n)) == n
    decreases n
  {
    if n < 10 {
      assert Digits(n, "") == n;
      assert [Digit(n)][1..] == "";
    } else {
      AtoiItoa(n / 10);
      var last := [Digit(n % 10)];
      DigitsConcat(0, Itoa(n / 10), last);
      assert last[1..] == "" && Digits(n, "") == n;
      assert Digits(n / 10, last) == 10 * (n / 10) + n % 10;
    }
    assert IsDigit(Itoa(n)[0]);
  }

  lemma {:induction false} ItoaLength(n: Word16)
    ensures |Itoa(n)| == if n < 10 then 1 else if n < 100 then 2 else if n < 1000 then 3 else if n < 10000 then 4 else 5
  {
    var a, b, c, d := n / 10, n / 100, n / 1000, n / 10000;
    assert a / 10 == b && b / 10 == c && c / 10 == d && d / 10 == 0;
    assert n >= 10 ==> |Itoa(n)| == |Itoa(a)| + 1;
    assert a >= 10 ==> |Itoa(a)| == |Itoa(b)| + 1;
    assert b >= 10 ==> |Itoa(b)| == |Itoa(c)| + 1;
    assert c >= 10 ==> |Itoa(c)| == |Itoa(d)| + 1;
  }

  // ---------------------------------------------------------------- words

  /** The length of the word that s starts with. */
  function Length(s: string): (n: nat)
    ensures n <= |s|
  {
    if s == "" || s[0] == ' ' then 0 else 1 + Length(s[1..])
  }

  /** The words of a text: its longest runs without a space. */
  function Words(s: string): (words: seq<string>)
    ensures 2 * |words| <= |s| + 1
    decreases |s|
  {
    if s == "" then []
    else if s[0] == ' ' then Words(s[1..])
    else
      var n := Length(s);
      if n < |s| then [s[..n]] + Words(s[n + 1..]) else [s]
  }

  predicate Plain(s: string) {
    forall k :: 0 <= k < |s| ==> s[k] != ' '
  }

  lemma {:induction false} LengthIs(w: string, t: string)
    requires Plain(w) && (t == "" || t[0] == ' ')
    ensures Length(w + t) == |w|
    decreases w
  {
    if w == "" {
      assert w + t == t;
    } else {
      assert (w + t)[1..] == w[1..] + t;
      LengthIs(w[1..], t);
    }
  }

  lemma {:induction false} WordsOfWord(w: string)
    requires Plain(w) && w != ""
    ensures Words(w) == [w]
  {
    LengthIs(w, "");
    assert w + "" == w;
  }

  lemma {:induction false} WordsOfWordAndRest(w: string, t: string)
    requires Plain(w) && w != ""
    ensures Words(w + " " + t) == [w] + Words(t)
  {
    var s := w + " " + t;
    assert s == w + (" " + t);
    LengthIs(w, " " + t);
    assert s[..|w|] == w && s[|w| + 1..] == t;
  }

  /** strtok with the delimiter " ": a text and how far it has been read. */
  class Strtok {
    const text: string
    var pos: nat

    ghost predicate Valid()
      reads this
    {
      pos <= |text|
    }

    ghost function Left(): seq<string>
      reads this
      requires Valid()
    {
      Words(text[pos..])
    }

    constructor (s: string)
      ensures Valid() && Left() == Words(s)
    {
      text := s;
      pos := 0;
      new;
      assert s[0..] == s;
    }

    method SkipSpaces()
      requires Valid()
      modifies `pos
      ensures Valid() && Left() == old(Left())
      ensures pos < |text| ==> text[pos] != ' '
    {
      while pos < |text| && text[pos] == ' '
        invariant Valid() && Left() == old(Left())
      {
        assert text[pos..][1..] == text[pos + 1..];
        pos := pos + 1;
      }
    }

    method SkipWord()
      requires Valid()
      modifies `pos
      ensures Valid() && pos == old(pos) + Length(text[old(pos)..])
    {
      while pos < |text| && text[pos] != ' '
        invariant old(pos) <= pos <= |text|
        invariant Length(text[old(pos)..]) == pos - old(pos) + Length(text[pos..])
      {
        assert text[pos..][1..] == text[pos + 1..];
        pos := pos + 1;
      }
    }

    method Next() returns (word: Option<string>)
      requires Valid()
      modifies `pos
      ensures Valid()
      ensures if old(Left()) == [] then word == None && Left() == []
              else word == Some(old(Left())[0]) && Left() == old(Left())[1..]
    {
      SkipSpaces();
      if pos == |text| { return None; }
      var start := pos;
      SkipWord();
      WordAt(text, start);
      word := Some(text[start..pos]);
      if pos < |text| { pos := pos + 1; }
    }
  }

  lemma {:induction false} WordAt(s: string, p: nat)
    requires p < |s| && s[p] != ' '
    ensures var q: nat := p + Length(s[p..]);
            Words(s[p..]) == [s[p..q]] + if q < |s| then Words(s[q + 1..]) else Words(s[q..])
  {
    var rest, n := s[p..], Length(s[p..]);
    assert rest != "" && rest[0] != ' ';
    assert rest[..n] == s[p..p + n];
    if n < |rest| {
      assert rest[n + 1..] == s[p + n + 1..];
      assert Words(rest) == [rest[..n]] + Words(rest[n + 1..]);
    } else {
      assert rest == s[p..p + n] && s[p + n..] == "";
      assert Words(rest) == [rest];
    }
  }

  const MAX_UDP_BUFFER_SIZE: nat := 255

  /** The parsers copy the text into a buffer of 255 bytes. */
  predicate FitsBuffer(text: string) {
    |text| < MAX_UDP_BUFFER_SIZE
  }

  /** isStatusTextCorrect for n modes. */
  method IsStatusTextCorrect(text: string, n: nat) returns (correct: bool)
    requires FitsBuffer(text) && n <= 250
    ensures correct <==> |Words(text)| == n + 5
  {
    var strtok := new Strtok(text);
    var lexCount: Byte := 0;
    var p := strtok.Next();
    while p != None
      invariant strtok.Valid()
      invariant lexCount + |strtok.Left()| + (if p == None then 0 else 1) == |Words(text)| <= 127
      invariant p == None ==> strtok.Left() == []
      decreases |strtok.Left()| + (if p == None then 0 else 1)
    {
      lexCount := (lexCount + 1) % 256;
      p := strtok.Next();
    }
    correct := lexCount == n + 5;
  }

  /** getLexNo, which yields the word itself. */
  method GetLexNo(text: string, n: nat, pos: Byte) returns (word: Option<string>)
    requires FitsBuffer(text) && n <= 250
    ensures word == if |Words(text)| == n + 5 && pos < n + 5 then Some(Words(text)[pos]) else None
  {
    var correct := IsStatusTextCorrect(text, n);
    if !correct { return None; }
    var strtok := new Strtok(text);
    var lexPos: Byte := 0;
    var p := strtok.Next();
    while p != None
      invariant strtok.Valid()
      invariant lexPos <= pos && lexPos <= |Words(text)| <= 127
      invariant p == if lexPos < |Words(text)| then Some(Words(text)[lexPos]) else None
      invariant strtok.Left() == if lexPos < |Words(text)| then Words(text)[lexPos + 1..] else []
      decreases |Words(text)| - lexPos
    {
      if lexPos == pos { return p; }
      p := strtok.Next();
      lexPos := lexPos + 1;
    }
    return None;
  }

  // ---------------------------------------------------------------- the settings and their text

  datatype Settings = Settings(running: Byte, interval: Word16, dispersion: Word16, useSaved: Byte, modes: Bytes)

  function Entry(n: nat, t: string): string {
    Itoa(n) + " " + t
  }

  function ModesText(modes: Bytes): string {
    if modes == [] then ""
    else if |modes| == 1 then Itoa(modes[0])
    else Entry(modes[0], ModesText(modes[1..]))
  }

  lemma {:induction false} ModesTextStep(text: string, modes: Bytes)
    requires modes != []
    ensures text + ModesText(modes) ==
            text + Itoa(modes[0]) + (if |modes| == 1 then "" else " ") + ModesText(modes[1..])
  {
    if |modes| == 1 {
      assert modes[1..] == [];
    }
  }

  function StatusText(v: Settings): string {
    "FAV" + " " + Entry(v.running, Entry(v.interval, Entry(v.dispersion, Entry(v.useSaved, ModesText(v.modes)))))
  }

  /** The text has the right number of words, and they fit the buffers of the getters. */
  predicate WellFormed(text: string, n: nat) {
    var words := Words(text);
    && FitsBuffer(text) && |words| == n + 5
    && |words[1]| <= 1 && |words[2]| <= 5 && |words[3]| <= 5 && |words[4]| <= 1
    && forall k :: 5 <= k < n + 5 ==> |words[k]| <= 1
  }

  function FlagOf(word: string): Byte {
    if word == "1" then 1 else 0
  }

  function Parsed(text: string, n: nat): Settings
    requires WellFormed(text, n)
  {
    var words := Words(text);
    Settings(FlagOf(words[1]), Atoi(words[2]) % 0x1_0000, Atoi(words[3]) % 0x1_0000, FlagOf(words[4]),
             seq(n, k requires 0 <= k < n => FlagOf(words[k + 5])))
  }

  /** getFavoritesRunning, getUseSavedFavoritesRunning and getModeOnOff. */
  method GetFlag(text: string, n: nat, pos: Byte) returns (flag: Byte)
    requires WellFormed(text, n) && pos < n + 5 && (pos == 1 || pos >= 4) && n <= 250
    ensures flag == FlagOf(Words(text)[pos])
  {
    var lexem := GetLexNo(text, n, pos);
    flag := 0;
    if lexem.Some? {
      if lexem.value == "1" { flag := 1; }
    }
  }

  /** getInterval and getDispersion. */
  method GetNumber(text: string, n: nat, pos: Byte, other: Word16) returns (number: Word16)
    requires WellFormed(text, n) && 2 <= pos <= 3 && n <= 250
    ensures number == Atoi(Words(text)[pos]) % 0x1_0000
  {
    var lexem := GetLexNo(text, n, pos);
    number := other;
    if lexem.Some? {
      number := Atoi(lexem.value) % 0x1_0000;
    }
  }

  class FavoritesManager {
    var running: Byte
    var interval: Word16
    var dispersion: Word16
    var useSaved: Byte
    const modes: array<Byte>
    var nextModeAt: Millis

    ghost function View(): Settings
      reads this, modes
    {
      Settings(running, interval, dispersion, useSaved, modes[..])
    }

    constructor (modeAmount: nat)
      ensures fresh(modes) && modes.Length == modeAmount
    {
      running, interval, dispersion, useSaved, nextModeAt := 0, 300, 0, 0, 0;
      modes := new Byte[modeAmount](_ => 0);
    }

    method SetStatus() returns (text: string)
      ensures text == StatusText(View())
    {
      text := "FAV ";
      text := text + Itoa(running) + " ";
      text := text + Itoa(interval) + " ";
      text := text + Itoa(dispersion) + " ";
      text := text + Itoa(useSaved) + " ";
      assert text + ModesText(modes[0..]) == StatusText(View()) by { assert modes[0..] == modes[..]; }
      for i := 0 to modes.Length
        invariant text + ModesText(modes[i..]) == StatusText(View())
      {
        ModesTextStep(text, modes[i..]);
        assert modes[i..][1..] == modes[i + 1..];
        text := text + Itoa(modes[i]);
        if i < modes.Length - 1 { text := text + " "; }
      }
      assert text + "" == text;
    }

    method ConfigureFavorites(text: string)
      requires WellFormed(text, modes.Length) && modes.Length <= 250
      modifies this, modes
      ensures View() == Parsed(text, modes.Length)
      ensures nextModeAt == if running == 0 then 0 else old(nextModeAt)
    {
      var n := modes.Length;
      running := GetFlag(text, n, 1);
      if running == 0 {
        nextModeAt := 0;
      }
      interval := GetNumber(text, n, 2, 300);
      dispersion := GetNumber(text, n, 3, 0);
      useSaved := GetFlag(text, n, 4);
      var i: Byte := 0;
      while i < n
        invariant i <= n
        invariant forall k :: 0 <= k < i ==> modes[k] == FlagOf(Words(text)[k + 5])
        invariant running == FlagOf(Words(text)[1]) && useSaved == FlagOf(Words(text)[4])
        invariant interval == Atoi(Words(text)[2]) % 0x1_0000 && dispersion == Atoi(Words(text)[3]) % 0x1_0000
        invariant nextModeAt == if running == 0 then 0 else old(nextModeAt)
      {
        var flag := GetFlag(text, n, i + 5);
        modes[i] := flag;
        i := i + 1;
      }
      assert modes[..] == Parsed(text, n).modes;
    }
  }

  // ---------------------------------------------------------------- printing and parsing

  lemma {:induction false} NumeralIsPlain(s: string)
    requires Numeral(s)
    ensures Plain(s)
  {
    forall k | 0 <= k < |s| ensures s[k] != ' ' {
      assert IsDigit(s[k]);
    }
  }

  function Numerals(modes: Bytes): (words: seq<string>)
    ensures |words| == |modes|
  {
    if modes == [] then [] else [Itoa(modes[0])] + Numerals(modes[1..])
  }

  lemma {:induction false} NumeralsAt(modes: Bytes, k: nat)
    requires k < |modes|
    ensures Numerals(modes)[k] == Itoa(modes[k])
    decreases modes
  {
    if k > 0 {
      NumeralsAt(modes[1..], k - 1);
    }
  }

  lemma {:induction false} NumberAndRest(n: nat, t: string)
    ensures Words(Entry(n, t)) == [Itoa(n)] + Words(t)
    ensures Words(Itoa(n)) == [Itoa(n)]
  {
    AtoiItoa(n);
    NumeralIsPlain(Itoa(n));
    WordsOfWordAndRest(Itoa(n), t);
    WordsOfWord(Itoa(n));
  }

  lemma {:induction false} WordsOfModes(modes: Bytes)
    ensures Words(ModesText(modes)) == Numerals(modes)
  {
    if modes != [] {
      NumberAndRest(modes[0], ModesText(modes[1..]));
      WordsOfModes(modes[1..]);
    }
  }

  lemma {:induction false} Flatten(a: string, b: string, c: string, d: string, e: string, t: seq<string>)
    ensures [a] + ([b] + ([c] + ([d] + ([e] + t)))) == [a, b, c, d, e] + t
  {
  }

  /** The words of the text are the fields, for any number of modes. */
  lemma {:induction false} WordsOfStatus(v: Settings)
    ensures Words(StatusText(v)) ==
            ["FAV", Itoa(v.running), Itoa(v.interval), Itoa(v.dispersion), Itoa(v.useSaved)] + Numerals(v.modes)
  {
    var s4 := ModesText(v.modes);
    var s3 := Entry(v.useSaved, s4);
    var s2 := Entry(v.dispersion, s3);
    var s1 := Entry(v.interval, s2);
    assert Words(StatusText(v)) == ["FAV"] + Words(Entry(v.running, s1)) by {
      WordsOfWordAndRest("FAV", Entry(v.running, s1));
    }
    assert Words(Entry(v.running, s1)) == [Itoa(v.running)] + Words(s1) by { NumberAndRest(v.running, s1); }
    assert Words(s1) == [Itoa(v.interval)] + Words(s2) by { NumberAndRest(v.interval, s2); }
    assert Words(s2) == [Itoa(v.dispersion)] + Words(s3) by { NumberAndRest(v.dispersion, s3); }
    assert Words(s3) == [Itoa(v.useSaved)] + Words(s4) by { NumberAndRest(v.useSaved, s4); }
    assert Words(s4) == Numerals(v.modes) by { WordsOfModes(v.modes); }
    Flatten("FAV", Itoa(v.running), Itoa(v.interval), Itoa(v.dispersion), Itoa(v.useSaved), Numerals(v.modes));
  }

  predicate Flags(v: Settings, limit: Byte) {
    v.running <= limit && v.useSaved <= limit && forall k :: 0 <= k < |v.modes| ==> v.modes[k] <= limit
  }

  lemma {:induction false} ModesLength(modes: Bytes)
    requires forall k :: 0 <= k < |modes| ==> modes[k] <= 9
    ensures |ModesText(modes)| == if modes == [] then 0 else 2 * |modes| - 1
  {
    if modes != [] {
      ModesLength(modes[1..]);
    }
  }

  /** 85 modes take at most 189 characters, and 117 modes always fit the buffer. */
  lemma {:induction false} StatusLength(v: Settings)
    requires Flags(v, 9)
    ensures var n := |v.modes|;
            |StatusText(v)| == 10 + |Itoa(v.interval)| + |Itoa(v.dispersion)| + (if n == 0 then 0 else 2 * n - 1)
    ensures |v.modes| == 85 ==> 181 <= |StatusText(v)| <= 189
    ensures |v.modes| <= 117 ==> FitsBuffer(StatusText(v))
  {
    ModesLength(v.modes);
    ItoaLength(v.interval);
    ItoaLength(v.dispersion);
  }

  /** The text of settings with flags of one digit is well formed when it fits. */
  lemma {:induction false} StatusIsWellFormed(v: Settings)
    requires Flags(v, 9) && FitsBuffer(StatusText(v))
    ensures WellFormed(StatusText(v), |v.modes|)
  {
    WordsOfStatus(v);
    ItoaLength(v.interval);
    ItoaLength(v.dispersion);
    var words := Words(StatusText(v));
    forall k | 5 <= k < |v.modes| + 5 ensures |words[k]| <= 1 {
      NumeralsAt(v.modes, k - 5);
      assert v.modes[k - 5] <= 9;
    }
  }

  lemma {:induction false} FlagRestored(flag: Byte)
    requires flag <= 9
    ensures FlagOf(Itoa(flag)) == flag <==> flag <= 1
  {
    assert Itoa(flag)[0] == '1' <==> flag == 1;
  }

  /** Parsing the printed text gives the settings back exactly when all flags are 0 or 1. */
  lemma {:induction false} RoundTrip(v: Settings)
    requires Flags(v, 9) && FitsBuffer(StatusText(v))
    ensures WellFormed(StatusText(v), |v.modes|)
    ensures Parsed(StatusText(v), |v.modes|) == v <==> Flags(v, 1)
  {
    StatusIsWellFormed(v);
    WordsOfStatus(v);
    var w := Parsed(StatusText(v), |v.modes|);
    AtoiItoa(v.interval);
    AtoiItoa(v.dispersion);
    FlagRestored(v.running);
    FlagRestored(v.useSaved);
    forall k | 0 <= k < |v.modes| ensures w.modes[k] == v.modes[k] <==> v.modes[k] <= 1 {
      NumeralsAt(v.modes, k);
      assert v.modes[k] <= 9;
      FlagRestored(v.modes[k]);
    }
    assert w.interval == v.interval && w.dispersion == v.dispersion;
    assert w.running == v.running <==> v.running <= 1;
  }
}
