/** The configuration file: what uf_conf_write prints, how uf_conf_open reads a text, and when
    reading gives back what was printed. */
module ConfigText {
  import opened Options
  import opened Numerals
  import opened ConfigModel

  const LINE_SIZE := 1024
  const TITLE_SIZE := 1024

  const BANNER1 := "# G15Daemon Configuration File"
  const BANNER2 := "# any items entered before" + " a [section] header"
  const BANNER3 := "# will be in the Global config space"
  const BANNER4 := "# comments you wish to keep" + " should start with a semicolon';'"
  function Banner(): string {
    BANNER1 + "\n" + (BANNER2 + "\n" + (BANNER3 + "\n" + (BANNER4 + "\n")))
  }

  /** snprintf into the line buffer. */
  function Clip(line: string): string {
    if |line| < LINE_SIZE then line else line[..LINE_SIZE - 1]
  }

  /** A key beginning with a semicolon is a comment and stands alone. */
  predicate IsComment(key: string) {
    |key| > 0 && key[0] == ';'
  }

  function ItemLine(it: Item): string {
    if IsComment(it.key) then it.key else it.key + ": " + it.value
  }

  function PrintItems(items: seq<Item>): string {
    if |items| == 0 then "" else Clip(ItemLine(items[0]) + "\n") + PrintItems(items[1..])
  }

  function PrintSections(sections: seq<Section>): string {
    if |sections| == 0 then ""
    else Clip("\n[" + sections[0].name + "]\n") + PrintItems(sections[0].items) + PrintSections(sections[1..])
  }

  function PrintConfig(sections: seq<Section>): string {
    Banner() + PrintSections(sections)
  }

  /** The separators of strtok between key and value. */
  predicate IsSeparator(c: char) {
    c == ':' || c == '='
  }

  /** Length of the leading run of separators, or of other characters. */
  function Run(s: string, separators: bool): (i: nat)
    ensures i <= |s| && (i < |s| ==> IsSeparator(s[i]) != separators)
    ensures forall j :: 0 <= j < i ==> IsSeparator(s[j]) == separators
  {
    if |s| > 0 && IsSeparator(s[0]) == separators then 1 + Run(s[1..], separators) else 0
  }

  /** strtok: the next token, if any, and what follows it. */
  function Token(s: string): (Option<string>, string) {
    var t := s[Run(s, true)..];
    if |t| == 0 then (None, "") else (Some(t[..Run(t, false)]), t[Run(t, false)..])
  }

  /** uf_remove_whitespace, which reads a missing token as a blank. */
  function RemoveWhitespace(token: Option<string>): string {
    match token
    case None => ""
    case Some(s) => s[SkipSpace(s)..]
  }

  /** Overrun: a title line whose copy runs over the title buffer - a lone bracket, for which the
      length to copy wraps around, or a name that leaves no room for the end of the string. */
  datatype Line = Ignored | Title(name: string) | Overrun | KeyValue(key: string, value: string)

  /** What one non-empty line means. */
  function ReadLine(line: string): Line {
    var start := line[SkipSpace(line)..];
    if |start| > 0 && start[0] == '#' then Ignored
    else if ']' in start then
      if |start| < 2 || |start| - 2 >= TITLE_SIZE then Overrun else Title(start[1..|start| - 1])
    else
      var (key, rest) := Token(start);
      var (value, _) := Token(rest);
      KeyValue(RemoveWhitespace(key), RemoveWhitespace(value))
  }

  /** The sections read so far and the one items go to. stray: a title line has overrun its buffer;
      what the code does from there on is not followed. */
  datatype Reader = Reader(sections: seq<Section>, current: Option<nat>, stray: bool)

  const EMPTY := Reader([], None, false)

  predicate Sound(r: Reader) {
    r.current.Some? ==> r.current.value < |r.sections|
  }

  function Enter(r: Reader, name: string): (r': Reader)
    ensures Sound(r') && r'.current.Some?
  {
    Reader(Loaded(r.sections, name), Some(FindSection(r.sections, name)), r.stray)
  }

  function Store(r: Reader, key: string, value: string): (r': Reader)
    requires Sound(r) && r.current.Some?
    ensures Sound(r')
  {
    var s := r.sections[r.current.value];
    r.(sections := r.sections[r.current.value := s.(items := Written(s.items, key, value))])
  }

  function Take(r: Reader, line: string): (r': Reader)
    requires Sound(r)
    ensures Sound(r')
  {
    if r.stray then r
    else match ReadLine(line)
    case Ignored => r
    case Title(name) => Enter(r, name)
    case Overrun => r.(stray := true)
    case KeyValue(key, value) => Store(if r.current.None? then Enter(r, "Global") else r, key, value)
  }

  /** Length of the first line. */
  function LineEnd(text: string): (n: nat)
    ensures n <= |text| && (n < |text| ==> text[n] == '\n')
    ensures forall i :: 0 <= i < n ==> text[i] != '\n'
  {
    if |text| == 0 || text[0] == '\n' then 0 else 1 + LineEnd(text[1..])
  }

  /** Reading a text line by line; strtok skips empty lines. */
  function Read(r: Reader, text: string): (r': Reader)
    requires Sound(r)
    decreases |text|
  {
    if |text| == 0 then r
    else if text[0] == '\n' then Read(r, text[1..])
    else Read(Take(r, text[..LineEnd(text)]), text[LineEnd(text)..])
  }

  lemma {:induction false} StaysStray(r: Reader, text: string)
    requires Sound(r) && r.stray
    ensures Read(r, text) == r
    decreases |text|
  {
    if |text| == 0 {
    } else if text[0] == '\n' {
      StaysStray(r, text[1..]);
    } else {
      StaysStray(r, text[LineEnd(text)..]);
    }
  }

  /** What opening a file with this text yields, unless a line of it overruns. */
  function ReadConfig(text: string): Option<seq<Section>> {
    var r := Read(EMPTY, text);
    if r.stray then None else Some(r.sections)
  }

  predicate Free(s: string, bad: set<char>) {
    forall c :: c in s ==> c !in bad
  }

  /** The items a line carries faithfully: no separator, bracket or leading blank anywhere; a
      comment has no value; and an empty key, if any, has an empty value. */
  predicate Faithful(it: Item) {
    && Free(it.key, {':', '=', ']'})
    && (IsComment(it.key) ==> it.value == "")
    && Free(it.value, {':', '=', ']'})
    && (|it.value| > 0 ==> !IsSpace(it.value[0]) && |it.key| > 0)
    && (|it.key| > 0 ==> !IsSpace(it.key[0]) && it.key[0] != '#')
  }

  lemma {:induction false} RunOf(a: string, b: string, separators: bool)
    requires forall i :: 0 <= i < |a| ==> IsSeparator(a[i]) == separators
    requires |b| > 0 ==> IsSeparator(b[0]) != separators
    ensures Run(a + b, separators) == |a|
  {
    if |a| > 0 {
      assert (a + b)[1..] == a[1..] + b;
      RunOf(a[1..], b, separators);
    }
  }

  lemma NoSpaceToSkip(s: string)
    requires |s| > 0 ==> !IsSpace(s[0])
    ensures SkipSpace(s) == 0 && s[SkipSpace(s)..] == s
  {
  }

  /** The first token of a text that begins with a. */
  lemma FirstToken(a: string, b: string)
    requires |a| > 0 && Free(a, {':', '='}) && (|b| > 0 ==> IsSeparator(b[0]))
    ensures Token(a + b) == (Some(a), b)
  {
    RunOf("", a + b, true);
    assert "" + (a + b) == a + b && (a + b)[0..] == a + b;
    RunOf(a, b, false);
  }

  /** A separator and a blank before the value are read away again. */
  lemma ValueToken(value: string)
    requires Free(value, {':', '='}) && (|value| > 0 ==> !IsSpace(value[0]))
    ensures RemoveWhitespace(Token(": " + value).0) == value
  {
    var s := ": " + value;
    RunOf(":", " " + value, true);
    assert s == ":" + (" " + value) && s[1..] == " " + value;
    RunOf(" " + value, "", false);
    assert " " + value + "" == " " + value;
    var t := " " + value;
    assert t[1..] == value;
    NoSpaceToSkip(value);
  }

  lemma Clean(s: string)
    requires |s| > 0 ==> !IsSpace(s[0])
    ensures RemoveWhitespace(Some(s)) == s
  {
    NoSpaceToSkip(s);
  }

  lemma NoToken()
    ensures Token("") == (None, "") && RemoveWhitespace(None) == ""
  {
  }

  /** A line that is neither ignored nor a title is split into its two tokens. */
  lemma SplitLine(line: string)
    requires |line| > 0 && !IsSpace(line[0]) && line[0] != '#' && ']' !in line
    ensures var (key, rest) := Token(line);
            ReadLine(line) == KeyValue(RemoveWhitespace(key), RemoveWhitespace(Token(rest).0))
  {
    hide Token, RemoveWhitespace;
    NoSpaceToSkip(line);
  }

  lemma KeyLineRead(it: Item)
    requires Faithful(it) && |it.key| > 0
    ensures ReadLine(ItemLine(it)) == KeyValue(it.key, it.value)
  {
    hide Token, RemoveWhitespace, ReadLine;
    var line := ItemLine(it);
    SplitLine(line);
    Clean(it.key);
    NoToken();
    if IsComment(it.key) {
      FirstToken(it.key, "");
      assert it.key + "" == it.key;
    } else {
      FirstToken(it.key, ": " + it.value);
      assert it.key + (": " + it.value) == line;
      ValueToken(it.value);
    }
  }

  lemma TailFree(s: string, k: nat)
    requires k <= |s| && forall i :: 0 <= i < |s| ==> !IsSeparator(s[i])
    ensures Free(s[k..], {':', '='})
  {
  }

  lemma TokenClean(s: string)
    ensures var t := RemoveWhitespace(Token(s).0);
            Free(t, {':', '='}) && (|t| > 0 ==> !IsSpace(t[0]))
  {
    var t := s[Run(s, true)..];
    if |t| > 0 {
      var token := t[..Run(t, false)];
      TailFree(token, SkipSpace(token));
    }
  }

  lemma EmptyItemRead()
    ensures ReadLine(": ") == KeyValue("", "")
  {
    hide Token, RemoveWhitespace, ReadLine;
    SplitLine(": ");
    ValueToken("");
    RunOf(":", " ", true);
    assert ": "[1..] == " " && ":" + " " == ": " && ": " + "" == ": ";
    RunOf(" ", "", false);
    assert " " + "" == " ";
    BlankToken();
    NoToken();
  }

  lemma BlankToken()
    ensures Token(": ").1 == ""
  {
    RunOf(":", " ", true);
    assert ": "[1..] == " " && ":" + " " == ": ";
    RunOf(" ", "", false);
    assert " " + "" == " ";
  }

  /** An item's own line reads back as that item exactly when the item is faithful. */
  lemma ItemLineExact(it: Item)
    ensures ReadLine(ItemLine(it)) == KeyValue(it.key, it.value) <==> Faithful(it)
  {
    var line := ItemLine(it);
    if Faithful(it) {
      if |it.key| > 0 {
        KeyLineRead(it);
      } else {
        EmptyItemRead();
        assert line == ": ";
      }
    }
    if ReadLine(line) == KeyValue(it.key, it.value) {
      FaithfulIfRead(it);
    }
  }

  lemma FreeOfAll(s: string)
    requires Free(s, {':', '='}) && ']' !in s
    ensures Free(s, {':', '=', ']'})
  {
  }

  lemma FaithfulIfRead(it: Item)
    requires ReadLine(ItemLine(it)) == KeyValue(it.key, it.value)
    ensures Faithful(it)
  {
    hide Token, RemoveWhitespace, ReadLine, Free, SkipSpace, IsSpace;
    var line := ItemLine(it);
    var start := line[SkipSpace(line)..];
    NoBracket(line);
    KeyValueParts(line);
    TokenClean(start);
    TokenClean(Token(start).1);
    assert ']' !in it.key by {
      assert forall c :: c in it.key ==> c in line;
    }
    FreeOfAll(it.key);
    if |it.key| > 0 {
      NoSpaceToSkip(line);
    }
    if IsComment(it.key) {
      CommentRead(it.key);
    } else {
      assert ']' !in it.value by {
        assert forall c :: c in it.value ==> c in line;
      }
      FreeOfAll(it.value);
      if |it.key| == 0 {
        assert line == ": " + it.value;
        ColonFirst(it.value);
        ValueToken(it.value);
      }
    }
    assert Free("", {':', '=', ']'}) by {
      FreeOfAll("");
    }
  }

  lemma ColonFirst(value: string)
    ensures SkipSpace(": " + value) == 0
  {
  }

  lemma CommentRead(key: string)
    requires IsComment(key) && Free(key, {':', '='})
    ensures RemoveWhitespace(Token(Token(key).1).0) == ""
  {
    FirstToken(key, "");
    assert key + "" == key;
    NoToken();
  }

  lemma KeyValueParts(line: string)
    requires ReadLine(line).KeyValue?
    ensures var start := line[SkipSpace(line)..];
            && (|start| > 0 ==> start[0] != '#')
            && ReadLine(line) == KeyValue(RemoveWhitespace(Token(start).0), RemoveWhitespace(Token(Token(start).1).0))
  {
    hide Token, RemoveWhitespace;
  }

  lemma NoBracket(line: string)
    requires ReadLine(line).KeyValue?
    ensures ']' !in line
  {
    hide Token, RemoveWhitespace;
    var i := SkipSpace(line);
    assert line == line[..i] + line[i..];
  }

  lemma {:induction false} LineEndOf(line: string, rest: string)
    requires Free(line, {'\n'}) && |rest| > 0 && rest[0] == '\n'
    ensures LineEnd(line + rest) == |line|
  {
    if |line| > 0 {
      assert (line + rest)[0] == line[0] && line[0] in line;
      assert (line + rest)[1..] == line[1..] + rest;
      assert Free(line[1..], {'\n'});
      LineEndOf(line[1..], rest);
    }
  }

  /** Reading takes the first line and goes on behind it. */
  lemma ReadsLine(r: Reader, line: string, rest: string)
    requires Sound(r) && |line| > 0 && Free(line, {'\n'})
    ensures Read(r, line + "\n" + rest) == Read(Take(r, line), rest)
  {
    hide Take;
    var text := line + "\n" + rest;
    assert text == line + ("\n" + rest);
    LineEndOf(line, "\n" + rest);
    assert text[0] == line[0] && line[0] in line;
    assert text[..|line|] == line && text[|line|..] == "\n" + rest;
    assert ("\n" + rest)[1..] == rest;
  }

  lemma SkipsNewline(r: Reader, rest: string)
    requires Sound(r)
    ensures Read(r, "\n" + rest) == Read(r, rest)
  {
    assert ("\n" + rest)[1..] == rest;
  }

  lemma HashIgnored(r: Reader, line: string)
    requires Sound(r) && |line| > 0 && line[0] == '#'
    ensures Take(r, line) == r
  {
    NoSpaceToSkip(line);
  }

  lemma Banner1Line()
    ensures Free(BANNER1, {'\n'}) && BANNER1[0] == '#'
  {
  }

  lemma Banner2Line()
    ensures Free(BANNER2, {'\n'}) && BANNER2[0] == '#'
  {
    FreeConcat("# any items entered before", " a [section] header");
  }

  lemma Banner3Line()
    ensures Free(BANNER3, {'\n'}) && BANNER3[0] == '#'
  {
  }

  lemma Banner4Line()
    ensures Free(BANNER4, {'\n'}) && BANNER4[0] == '#'
  {
    FreeConcat("# comments you wish to keep", " should start with a semicolon';'");
  }

  lemma FreeConcat(a: string, b: string)
    requires Free(a, {'\n'}) && Free(b, {'\n'})
    ensures Free(a + b, {'\n'})
  {
  }

  lemma BannerIgnored(r: Reader, rest: string)
    requires Sound(r)
    ensures Read(r, Banner() + rest) == Read(r, rest)
  {
    hide Read, Take, Free;
    Banner1Line();
    Banner2Line();
    Banner3Line();
    Banner4Line();
    var t4 := BANNER4 + "\n" + rest;
    var t3 := BANNER3 + "\n" + t4;
    var t2 := BANNER2 + "\n" + t3;
    assert Banner() + rest == BANNER1 + "\n" + t2;
    ReadsLine(r, BANNER1, t2);
    ReadsLine(r, BANNER2, t3);
    ReadsLine(r, BANNER3, t4);
    ReadsLine(r, BANNER4, rest);
    HashIgnored(r, BANNER1);
    HashIgnored(r, BANNER2);
    HashIgnored(r, BANNER3);
    HashIgnored(r, BANNER4);
  }

  lemma TitleRead(name: string)
    requires |name| < TITLE_SIZE
    ensures ReadLine("[" + name + "]") == Title(name)
  {
    var line := "[" + name + "]";
    NoSpaceToSkip(line);
    assert line[|line| - 1] == ']';
    assert line[1..|line| - 1] == name;
  }

  lemma TakeIsTidy(r: Reader, line: string)
    requires Sound(r) && Tidy(r.sections)
    ensures Tidy(Take(r, line).sections)
  {
    hide ReadLine, Tidy, After, Written, FindSection;
    match ReadLine(line)
    case Ignored =>
    case Overrun =>
    case Title(name) => StepKeepsOrder(r.sections, Load(name));
    case KeyValue(key, value) =>
      var q := if r.current.None? then Enter(r, "Global") else r;
      StepKeepsOrder(r.sections, Load("Global"));
      StoreIsTidy(q, key, value);
  }

  lemma StoreIsTidy(r: Reader, key: string, value: string)
    requires Sound(r) && r.current.Some? && Tidy(r.sections)
    ensures Tidy(Store(r, key, value).sections)
  {
    hide Written, UniqueKeys;
    WrittenUnique(r.sections[r.current.value].items, key, value);
  }

  lemma {:induction false} ReadIsTidy(r: Reader, text: string)
    requires Sound(r) && Tidy(r.sections)
    ensures Tidy(Read(r, text).sections)
    decreases |text|
  {
    hide Take, Tidy;
    if |text| == 0 {
    } else if text[0] == '\n' {
      ReadIsTidy(r, text[1..]);
    } else {
      TakeIsTidy(r, text[..LineEnd(text)]);
      ReadIsTidy(Take(r, text[..LineEnd(text)]), text[LineEnd(text)..]);
    }
  }

  /** Whatever a file holds, the store opened from it has no name twice and no key twice in a
      section, so that every run on it is a run on a map. */
  lemma OpenedIsMap(text: string, run: seq<Step>, name: string, key: string)
    requires ReadConfig(text).Some?
    ensures var store := ReadConfig(text).value;
            && Tidy(store) && Tidy(AfterRun(store, run)) && OrderKept(store, AfterRun(store, run))
            && LookupIn(AfterRun(store, run), name, key) == LastStored(store, run, name, key)
  {
    hide Read, OrderKept;
    assert Tidy([]);
    ReadIsTidy(EMPTY, text);
    RunIsMap(ReadConfig(text).value, run, name, key);
  }

  // ---- the file, from its text ----

  /** An empty configuration is four lines of comment. */
  lemma EmptyPrinted()
    ensures PrintConfig([])
         == "# G15Daemon Configuration File" + "\n"
            + ("# any items entered before" + " a [section] header" + "\n"
               + ("# will be in the Global config space" + "\n"
                  + ("# comments you wish to keep" + " should start with a semicolon';'" + "\n")))
  {
    assert PrintSections([]) == "";
    assert Banner() + "" == Banner();
  }

  /** A section of one item, as far as its lines fit 1024 characters: an empty line and the title, then
      key and value on a line, or a comment on its own. What belongs to several sections or items is
      printed one after the other. */
  lemma SectionPrinted(name: string, key: string, value: string)
    requires |name| + 4 < 1024 && |key| + |value| + 3 < 1024
    ensures PrintSections([Section(name, [Item(key, value)])])
         == "\n[" + name + "]\n" + (if |key| > 0 && key[0] == ';' then key + "\n" else key + ": " + value + "\n")
  {
    var it := Item(key, value);
    var title := "\n[" + name + "]\n";
    assert PrintItems([it]) == ItemLine(it) + "\n" + PrintItems([]);
    assert ItemLine(it) + "\n" + "" == ItemLine(it) + "\n";
    assert PrintSections([Section(name, [it])]) == title + PrintItems([it]) + PrintSections([]);
    assert title + PrintItems([it]) + "" == title + PrintItems([it]);
  }

  lemma {:induction false} ItemsPrinted(a: seq<Item>, b: seq<Item>)
    ensures PrintItems(a + b) == PrintItems(a) + PrintItems(b)
    decreases |a|
  {
    hide Clip, ItemLine;
    if |a| == 0 {
      assert a + b == b && "" + PrintItems(b) == PrintItems(b);
    } else {
      ItemsPrinted(a[1..], b);
      assert (a + b)[1..] == a[1..] + b && (a + b)[0] == a[0];
      Associates(Clip(ItemLine(a[0]) + "\n"), PrintItems(a[1..]), PrintItems(b));
    }
  }

  lemma Associates(a: string, b: string, c: string)
    ensures a + (b + c) == a + b + c
  {
  }

  lemma {:induction false} SectionsPrinted(a: seq<Section>, b: seq<Section>)
    ensures PrintConfig(a) == PrintConfig([]) + PrintSections(a)
    ensures PrintSections(a + b) == PrintSections(a) + PrintSections(b)
    decreases |a|
  {
    hide PrintItems, Clip, Banner;
    assert Banner() + "" == Banner();
    if |a| == 0 {
      assert a + b == b;
    } else {
      SectionsPrinted(a[1..], b);
      assert (a + b)[1..] == a[1..] + b;
    }
  }

  /** An item before any title belongs to the section Global. */
  lemma ItemWithoutTitle(it: Item)
    requires Faithful(it) && Free(ItemLine(it), {'\n'})
    ensures ReadConfig(ItemLine(it) + "\n") == Some([Section("Global", [it])])
  {
    hide ReadLine, ItemLine, Faithful, Free;
    LongerThanNothing(it);
    ItemLineExact(it);
    assert ItemLine(it) + "\n" + "" == ItemLine(it) + "\n";
    ReadsLine(EMPTY, ItemLine(it), "");
    GlobalTaken(it, ItemLine(it));
  }

  lemma LongerThanNothing(it: Item)
    ensures |ItemLine(it)| > 0
  {
  }

  lemma GlobalTaken(it: Item, line: string)
    requires ReadLine(line) == KeyValue(it.key, it.value)
    ensures Read(Take(EMPTY, line), "") == Reader([Section("Global", [it])], Some(0), false)
  {
    hide ReadLine;
    var r := Enter(EMPTY, "Global");
    assert r == Reader([Section("Global", [])], Some(0), false);
    assert Written([], it.key, it.value) == [it];
    assert Store(r, it.key, it.value) == Reader([Section("Global", [it])], Some(0), false);
  }

  /** Key and value may be parted by a colon or an equals sign, with or without blanks behind it. */
  lemma EitherSeparator(key: string, separator: char, blanks: string, value: string)
    requires |key| > 0 && Free(key, {':', '=', ']'}) && !IsSpace(key[0]) && key[0] != '#'
    requires separator == ':' || separator == '='
    requires forall i :: 0 <= i < |blanks| ==> blanks[i] == ' '
    requires |value| > 0 && Free(value, {':', '=', ']'}) && !IsSpace(value[0])
    ensures ReadLine(key + ([separator] + (blanks + value))) == KeyValue(key, value)
  {
    hide Token, RemoveWhitespace, ReadLine;
    var rest := [separator] + (blanks + value);
    var line := key + rest;
    assert ']' !in line by {
      NoBracketIn(key, separator, blanks, value);
    }
    assert line[0] == key[0];
    SplitLine(line);
    assert Free(key, {':', '='});
    FirstToken(key, rest);
    Clean(key);
    SecondToken(separator, blanks, value);
  }

  lemma NoBracketIn(key: string, separator: char, blanks: string, value: string)
    requires Free(key, {':', '=', ']'}) && Free(value, {':', '=', ']'}) && separator != ']'
    requires forall i :: 0 <= i < |blanks| ==> blanks[i] == ' '
    ensures ']' !in key + ([separator] + (blanks + value))
  {
  }

  lemma SecondToken(separator: char, blanks: string, value: string)
    requires separator == ':' || separator == '='
    requires forall i :: 0 <= i < |blanks| ==> blanks[i] == ' '
    requires |value| > 0 && Free(value, {':', '=', ']'}) && !IsSpace(value[0])
    ensures RemoveWhitespace(Token([separator] + (blanks + value)).0) == value
  {
    var t := blanks + value;
    var s := [separator] + t;
    assert forall i :: 0 <= i < |t| ==> !IsSeparator(t[i]) by {
      forall i | 0 <= i < |t| ensures !IsSeparator(t[i]) {
        assert t[i] == if i < |blanks| then blanks[i] else value[i - |blanks|];
      }
    }
    RunOf([separator], t, true);
    assert s[1..] == t;
    RunOf(t, "", false);
    assert t + "" == t && t[..|t|] == t;
    BlanksSkipped(blanks, value);
  }
}
