/** Exactly which configurations come back when they are written and opened again. The argument
    counts: opening can add no more entries than the file has lines, and the file has no more lines
    than the configuration has entries; so each line must bring back its own. */
module ConfigExact {
  import opened Options
  import opened Numerals
  import opened ConfigModel
  import opened ConfigText

  // ---- counting ----

  /** Sections and items together. */
  function Size(sections: seq<Section>): nat {
    if |sections| == 0 then 0 else Size(sections[..|sections| - 1]) + 1 + |sections[|sections| - 1].items|
  }

  lemma SizeNext(sections: seq<Section>, s: Section)
    ensures Size(sections + [s]) == Size(sections) + 1 + |s.items|
  {
    assert (sections + [s])[..|sections|] == sections;
  }

  lemma {:induction false} SizeConcat(a: seq<Section>, b: seq<Section>)
    ensures Size(a + b) == Size(a) + Size(b)
  {
    if |b| == 0 {
      assert a + b == a;
    } else {
      SizeConcat(a, b[..|b| - 1]);
      assert (a + b)[..|a + b| - 1] == a + b[..|b| - 1];
    }
  }

  lemma {:induction false} SizeUpdate(sections: seq<Section>, i: nat, s: Section)
    requires i < |sections|
    ensures Size(sections[i := s]) + |sections[i].items| == Size(sections) + |s.items|
  {
    var last := |sections| - 1;
    if i == last {
      assert sections[i := s][..last] == sections[..last];
    } else {
      SizeUpdate(sections[..last], i, s);
      assert sections[i := s][..last] == sections[..last][i := s];
    }
  }

  /** The non-empty lines of a text. */
  function Lines(text: string): nat
    decreases |text|
  {
    if |text| == 0 then 0
    else if text[0] == '\n' then Lines(text[1..])
    else 1 + Lines(text[LineEnd(text)..])
  }

  lemma StoreSize(r: Reader, key: string, value: string)
    requires Sound(r) && r.current.Some?
    ensures var items := r.sections[r.current.value].items;
            Size(Store(r, key, value).sections) == Size(r.sections) + if FindKey(items, key) < |items| then 0 else 1
  {
    hide FindKey, Size;
    var s := r.sections[r.current.value];
    SizeUpdate(r.sections, r.current.value, s.(items := Written(s.items, key, value)));
  }

  lemma EnterSize(r: Reader, name: string)
    ensures Size(Enter(r, name).sections)
         == Size(r.sections) + if FindSection(r.sections, name) < |r.sections| then 0 else 1
  {
    hide FindSection, Size;
    SizeNext(r.sections, Section(name, []));
  }

  lemma TakeSize(r: Reader, line: string)
    requires Sound(r) && r.current.Some?
    ensures Take(r, line).current.Some? && Size(Take(r, line).sections) <= Size(r.sections) + 1
  {
    hide ReadLine, Enter, Written, FindKey, Size;
    match ReadLine(line)
    case Ignored =>
    case Overrun =>
    case Title(name) => EnterSize(r, name);
    case KeyValue(key, value) => StoreSize(r, key, value);
  }

  lemma {:induction false} ReadSize(r: Reader, text: string)
    requires Sound(r) && r.current.Some?
    ensures Size(Read(r, text).sections) <= Size(r.sections) + Lines(text)
    decreases |text|
  {
    hide Take, Size;
    if |text| == 0 {
    } else if text[0] == '\n' {
      ReadSize(r, text[1..]);
    } else {
      TakeSize(r, text[..LineEnd(text)]);
      ReadSize(Take(r, text[..LineEnd(text)]), text[LineEnd(text)..]);
    }
  }

  /** Items go to the last section. */
  predicate AtEnd(r: Reader) {
    !r.stray && r.current.Some? && r.current.value + 1 == |r.sections|
  }

  /** b is a with items added to its last section and sections added behind. */
  ghost predicate Extends(a: seq<Section>, b: seq<Section>) {
    && |a| <= |b| && (forall i :: 0 <= i < |a| - 1 ==> b[i] == a[i])
    && (|a| > 0 ==> b[|a| - 1].name == a[|a| - 1].name && a[|a| - 1].items <= b[|a| - 1].items)
  }

  lemma ExtendsOn(a: seq<Section>, b: seq<Section>, c: seq<Section>)
    requires Extends(a, b) && Extends(b, c)
    ensures Extends(a, c)
  {
  }

  /** A line that adds an entry adds it at the end. */
  lemma TakeOne(r: Reader, line: string)
    requires AtEnd(r) && Size(Take(r, line).sections) == Size(r.sections) + 1
    ensures AtEnd(Take(r, line)) && Extends(r.sections, Take(r, line).sections)
    ensures var s := r.sections[r.current.value];
            match ReadLine(line)
            case Title(name) => Take(r, line).sections == r.sections + [Section(name, [])]
            case KeyValue(key, value) =>
              Take(r, line).sections == r.sections[r.current.value := Section(s.name, s.items + [Item(key, value)])]
            case _ => false
  {
    hide ReadLine, Size, FindKey, FindSection;
    match ReadLine(line)
    case Ignored =>
    case Overrun =>
    case Title(name) => EnterSize(r, name);
    case KeyValue(key, value) => StoreSize(r, key, value);
  }

  /** When every line adds an entry, nothing already read changes. */
  lemma {:induction false} FullRead(r: Reader, text: string)
    requires AtEnd(r) && Size(Read(r, text).sections) >= Size(r.sections) + Lines(text)
    ensures Extends(r.sections, Read(r, text).sections)
    decreases |text|
  {
    hide Take, Size, Extends, ReadLine;
    if |text| == 0 {
      ExtendsItself(r.sections);
    } else if text[0] == '\n' {
      FullRead(r, text[1..]);
    } else {
      var line, rest := text[..LineEnd(text)], text[LineEnd(text)..];
      TakeSize(r, line);
      ReadSize(Take(r, line), rest);
      TakeOne(r, line);
      FullRead(Take(r, line), rest);
      ExtendsOn(r.sections, Take(r, line).sections, Read(r, text).sections);
    }
  }

  lemma ExtendsItself(a: seq<Section>)
    ensures Extends(a, a)
  {
  }

  // ---- lines put into a buffer ----

  /** A line with its newline, clipped to the room in the buffer. */
  function Put(line: string, room: nat): string {
    if |line| < room then line + "\n" else line[..room]
  }

  function Cut(line: string, room: nat): string {
    if |line| <= room then line else line[..room]
  }

  /** The line ends where its text ends: with its newline, at a newline that follows, or with the
      file. */
  predicate Ends(line: string, room: nat, tail: string) {
    |line| < room || |tail| == 0 || tail[0] == '\n'
  }

  lemma {:induction false} LineEndsAt(line: string, tail: string)
    requires Free(line, {'\n'}) && (|tail| == 0 || tail[0] == '\n')
    ensures LineEnd(line + tail) == |line|
  {
    if |line| > 0 {
      assert (line + tail)[0] == line[0] && line[0] in line;
      assert (line + tail)[1..] == line[1..] + tail;
      assert Free(line[1..], {'\n'});
      LineEndsAt(line[1..], tail);
    } else {
      assert line + tail == tail;
    }
  }

  lemma {:induction false} LineEndRunsOn(line: string, tail: string)
    requires Free(line, {'\n'})
    ensures LineEnd(line + tail) == |line| + LineEnd(tail)
  {
    if |line| > 0 {
      assert (line + tail)[0] == line[0] && line[0] in line;
      assert (line + tail)[1..] == line[1..] + tail;
      assert Free(line[1..], {'\n'});
      LineEndRunsOn(line[1..], tail);
    } else {
      assert line + tail == tail;
    }
  }

  /** A line that ends is read as one line. */
  lemma LineRead(r: Reader, line: string, tail: string)
    requires Sound(r) && |line| > 0 && Free(line, {'\n'}) && (|tail| == 0 || tail[0] == '\n')
    ensures Read(r, line + tail) == Read(Take(r, line), tail) && Lines(line + tail) == 1 + Lines(tail)
  {
    hide Take;
    var text := line + tail;
    LineEndsAt(line, tail);
    assert text[0] == line[0] && line[0] in line;
    assert text[..|line|] == line && text[|line|..] == tail;
  }

  /** A line that does not end takes the next one with it. */
  lemma LinesMerge(line: string, tail: string)
    requires Free(line, {'\n'}) && |tail| > 0 && tail[0] != '\n'
    ensures Lines(line + tail) == Lines(tail)
  {
    var text := line + tail;
    LineEndRunsOn(line, tail);
    assert text[|line| + LineEnd(tail)..] == tail[LineEnd(tail)..];
    if |line| > 0 {
      assert text[0] == line[0] && line[0] in line;
    } else {
      assert text == tail;
    }
  }

  lemma FreePrefix(line: string, n: nat)
    requires Free(line, {'\n'}) && n <= |line|
    ensures Free(line[..n], {'\n'})
  {
  }

  lemma PutRead(r: Reader, line: string, room: nat, tail: string)
    requires Sound(r) && 0 < room && |line| > 0 && Free(line, {'\n'})
    ensures if Ends(line, room, tail)
            then Read(r, Put(line, room) + tail) == Read(Take(r, Cut(line, room)), tail)
                 && Lines(Put(line, room) + tail) == 1 + Lines(tail)
            else Lines(Put(line, room) + tail) == Lines(tail)
  {
    hide Read, Take, Lines, Free;
    if |line| < room {
      assert Put(line, room) + tail == line + ("\n" + tail);
      LineRead(r, line, "\n" + tail);
      NewlineRead(Take(r, line), tail);
    } else {
      FreePrefix(line, room);
      assert Put(line, room) == Cut(line, room);
      if Ends(line, room, tail) {
        LineRead(r, Cut(line, room), tail);
      } else {
        LinesMerge(Cut(line, room), tail);
      }
    }
  }

  lemma NewlineRead(r: Reader, tail: string)
    requires Sound(r)
    ensures Read(r, "\n" + tail) == Read(r, tail) && Lines("\n" + tail) == Lines(tail)
  {
    assert ("\n" + tail)[1..] == tail;
  }

  const ITEM_ROOM := LINE_SIZE - 1
  const TITLE_ROOM := LINE_SIZE - 2

  function TitleLine(name: string): string {
    "[" + name + "]"
  }

  lemma ItemPut(it: Item)
    ensures Clip(ItemLine(it) + "\n") == Put(ItemLine(it), ITEM_ROOM) && |ItemLine(it)| > 0
  {
  }

  lemma TitlePut(name: string)
    ensures Clip("\n[" + name + "]\n") == "\n" + Put(TitleLine(name), TITLE_ROOM)
  {
    var line := "\n[" + name + "]\n";
    assert line == "\n" + (TitleLine(name) + "\n");
  }

  /** The line of this item holds no newline, and no bracket that would make it a title. */
  predicate PlainItem(it: Item) {
    Free(ItemLine(it), {'\n'}) && ']' !in ItemLine(it)
  }

  predicate PlainItems(items: seq<Item>) {
    forall i :: 0 <= i < |items| ==> PlainItem(items[i])
  }

  predicate PlainSection(s: Section) {
    Free(s.name, {'\n'}) && PlainItems(s.items)
  }

  lemma PrintsOn(items: seq<Item>, tail: string)
    requires |items| > 0
    ensures PrintItems(items) + tail == Put(ItemLine(items[0]), ITEM_ROOM) + (PrintItems(items[1..]) + tail)
  {
    hide Put, ItemLine;
    ItemPut(items[0]);
  }

  lemma {:induction false} ItemsLines(items: seq<Item>, tail: string)
    requires PlainItems(items)
    ensures Lines(PrintItems(items) + tail) <= |items| + Lines(tail)
    decreases |items|
  {
    hide Lines, Put, Free, ItemLine, Ends;
    if |items| == 0 {
      assert PrintItems(items) + tail == tail;
    } else {
      PrintsOn(items, tail);
      ItemPut(items[0]);
      assert PlainItem(items[0]);
      PutRead(EMPTY, ItemLine(items[0]), ITEM_ROOM, PrintItems(items[1..]) + tail);
      ItemsLines(items[1..], tail);
    }
  }

  lemma SectionPrintsOn(sections: seq<Section>)
    requires |sections| > 0
    ensures PrintSections(sections)
         == "\n" + (Put(TitleLine(sections[0].name), TITLE_ROOM)
                    + (PrintItems(sections[0].items) + PrintSections(sections[1..])))
  {
    hide Put, PrintItems;
    TitlePut(sections[0].name);
  }

  lemma TitleIsLine(name: string)
    requires Free(name, {'\n'})
    ensures Free(TitleLine(name), {'\n'}) && |TitleLine(name)| == |name| + 2
  {
  }

  lemma SizeFirst(sections: seq<Section>)
    requires |sections| > 0
    ensures Size(sections) == 1 + |sections[0].items| + Size(sections[1..])
  {
    hide Size;
    assert sections == [sections[0]] + sections[1..];
    SizeConcat([sections[0]], sections[1..]);
    SizeNext([], sections[0]);
    assert [] + [sections[0]] == [sections[0]];
    NoSize();
  }

  lemma NoSize()
    ensures Size([]) == 0
  {
  }

  lemma {:induction false} SectionsLines(sections: seq<Section>)
    requires forall i :: 0 <= i < |sections| ==> PlainSection(sections[i])
    ensures Lines(PrintSections(sections)) <= Size(sections)
    decreases |sections|
  {
    hide Lines, Put, Free, ItemLine, Ends, Size, PrintItems, TitleLine, PlainItems;
    if |sections| == 0 {
      NoLines();
    } else {
      var s := sections[0];
      assert PlainSection(s);
      var tail := PrintItems(s.items) + PrintSections(sections[1..]);
      SectionPrintsOn(sections);
      NewlineRead(EMPTY, Put(TitleLine(s.name), TITLE_ROOM) + tail);
      TitleIsLine(s.name);
      PutRead(EMPTY, TitleLine(s.name), TITLE_ROOM, tail);
      ItemsLines(s.items, PrintSections(sections[1..]));
      SectionsLines(sections[1..]);
      SizeFirst(sections);
    }
  }

  lemma NoLines()
    ensures PrintSections([]) == "" && Lines("") == 0
  {
  }

  // ---- items ----

  /** What is left of the item's line is read as the item, and it ends as a line. */
  predicate ItemReturns(it: Item, last: bool) {
    ReadLine(Cut(ItemLine(it), ITEM_ROOM)) == KeyValue(it.key, it.value) && (|ItemLine(it)| < ITEM_ROOM || last)
  }

  predicate ItemsReturn(items: seq<Item>) {
    forall i :: 0 <= i < |items| ==> ItemReturns(items[i], i == |items| - 1)
  }

  /** A reader in the middle of a section. */
  function Within(before: seq<Section>, name: string, done: seq<Item>): Reader {
    Reader(before + [Section(name, done)], Some(|before|), false)
  }

  predicate Closes(tail: string) {
    |tail| == 0 || tail[0] == '\n'
  }

  /** Only the last item of a section is followed by the end of a line in any case. */
  lemma WhoEnds(items: seq<Item>, tail: string)
    requires |items| > 0 && PlainItems(items) && Closes(tail)
    ensures Ends(ItemLine(items[0]), ITEM_ROOM, PrintItems(items[1..]) + tail)
       <==> |ItemLine(items[0])| < ITEM_ROOM || |items| == 1
  {
    if |items| > 1 {
      hide ItemLine;
      PrintsOn(items[1..], tail);
      ItemPut(items[1]);
      var line := ItemLine(items[1]);
      assert PlainItem(items[1]) && line[0] in line;
    } else {
      assert PrintItems(items[1..]) + tail == tail;
    }
  }

  lemma NoTitleInside(line: string)
    requires ']' !in line
    ensures !ReadLine(line).Title? && !ReadLine(line).Overrun?
  {
    hide Token, RemoveWhitespace;
    var i := SkipSpace(line);
    assert forall c :: c in line[i..] ==> c in line;
  }

  /** An item line that adds an entry adds the item it is read as. */
  lemma ItemAdded(before: seq<Section>, name: string, done: seq<Item>, line: string)
    requires ']' !in line
    requires Size(Take(Within(before, name, done), line).sections) == Size(before + [Section(name, done)]) + 1
    ensures ReadLine(line).KeyValue?
    ensures Take(Within(before, name, done), line)
         == Within(before, name, done + [Item(ReadLine(line).key, ReadLine(line).value)])
  {
    hide ReadLine, Size, Take;
    var r := Within(before, name, done);
    TakeOne(r, line);
    NoTitleInside(line);
    TakeKeepsPlace(r, line);
    var it := Item(ReadLine(line).key, ReadLine(line).value);
    assert r.sections[|before| := Section(name, done + [it])] == before + [Section(name, done + [it])];
  }

  /** If the first item adds an entry and nothing read changes later, the entry is that item. */
  lemma FirstReturns(before: seq<Section>, name: string, done: seq<Item>, items: seq<Item>, line: string,
                     final: seq<Section>)
    requires |items| > 0 && ']' !in line
    requires Size(Take(Within(before, name, done), line).sections) == Size(before + [Section(name, done)]) + 1
    requires Extends(Take(Within(before, name, done), line).sections, final)
    requires |final| > |before| && done + items <= final[|before|].items
    ensures ReadLine(line) == KeyValue(items[0].key, items[0].value)
    ensures Take(Within(before, name, done), line) == Within(before, name, done + [items[0]])
  {
    hide ReadLine, Size, Take;
    ItemAdded(before, name, done, line);
    var it, got := Item(ReadLine(line).key, ReadLine(line).value), final[|before|].items;
    assert (done + [it])[|done|] == got[|done|] && (done + items)[|done|] == got[|done|];
  }

  lemma TakeKeepsPlace(r: Reader, line: string)
    requires Sound(r) && r.current.Some? && ReadLine(line).KeyValue?
    ensures Take(r, line).current == r.current && Take(r, line).stray == r.stray
  {
    hide ReadLine;
  }

  lemma {:induction false} ItemsNeeded(before: seq<Section>, name: string, done: seq<Item>, items: seq<Item>,
                                   tail: string)
    requires PlainItems(items) && Closes(tail)
    requires var final := Read(Within(before, name, done), PrintItems(items) + tail);
             && Size(final.sections) >= Size(before + [Section(name, done)]) + |items| + Lines(tail)
             && |final.sections| > |before| && done + items <= final.sections[|before|].items
    ensures ItemsReturn(items)
    ensures Read(Within(before, name, done), PrintItems(items) + tail) == Read(Within(before, name, done + items), tail)
    decreases |items|
  {
    hide Read, Take, Lines, Put, Cut, Free, ItemLine, Ends, Size, PrintItems, ReadLine, Closes, Extends;
    var r := Within(before, name, done);
    if |items| == 0 {
      NoItemsPrinted(tail);
      assert done + items == done;
    } else {
      var line, rest := ItemLine(items[0]), PrintItems(items[1..]) + tail;
      var final := Read(r, PrintItems(items) + tail);
      PrintsOn(items, tail);
      ItemPut(items[0]);
      assert PlainItem(items[0]);
      PutRead(r, line, ITEM_ROOM, rest);
      ItemsLines(items[1..], tail);
      ReadSize(r, PrintItems(items) + tail);
      WhoEnds(items, tail);
      var cut := Cut(line, ITEM_ROOM);
      var r1 := Take(r, cut);
      TakeSize(r, cut);
      ReadSize(r1, rest);
      TakeOne(r, cut);
      FullRead(r1, rest);
      CutInside(line, ITEM_ROOM);
      FirstReturns(before, name, done, items, cut, final.sections);
      assert done + [items[0]] + items[1..] == done + items;
      ItemsNeeded(before, name, done + [items[0]], items[1..], tail);
      assert forall i :: 0 < i < |items| ==> items[i] == items[1..][i - 1];
    }
  }

  lemma CutInside(line: string, room: nat)
    ensures forall c :: c in Cut(line, room) ==> c in line
  {
  }

  lemma NoItemsPrinted(tail: string)
    ensures PrintItems([]) + tail == tail
  {
  }

  lemma KeyIsNew(done: seq<Item>, items: seq<Item>)
    requires UniqueKeys(done + items) && |items| > 0
    ensures forall i :: 0 <= i < |done| ==> done[i].key != items[0].key
  {
    var all := done + items;
    forall i | 0 <= i < |done| ensures done[i].key != items[0].key {
      assert all[i].key != all[|done|].key;
    }
  }

  lemma WrittenNew(done: seq<Item>, it: Item)
    requires forall i :: 0 <= i < |done| ==> done[i].key != it.key
    ensures Written(done, it.key, it.value) == done + [it]
  {
  }

  lemma NewItemTaken(before: seq<Section>, name: string, done: seq<Item>, it: Item, line: string)
    requires ReadLine(line) == KeyValue(it.key, it.value) && forall i :: 0 <= i < |done| ==> done[i].key != it.key
    ensures Take(Within(before, name, done), line) == Within(before, name, done + [it])
  {
    hide ReadLine, Written;
    WrittenNew(done, it);
    var sections := before + [Section(name, done)];
    assert sections[|before| := Section(name, done + [it])] == before + [Section(name, done + [it])];
  }

  lemma {:induction false} ItemsSuffice(before: seq<Section>, name: string, done: seq<Item>, items: seq<Item>,
                                    tail: string)
    requires PlainItems(items) && Closes(tail) && UniqueKeys(done + items) && ItemsReturn(items)
    ensures Read(Within(before, name, done), PrintItems(items) + tail) == Read(Within(before, name, done + items), tail)
    decreases |items|
  {
    hide Read, Take, Lines, Put, Cut, Free, ItemLine, Ends, PrintItems, ReadLine, Closes, UniqueKeys;
    if |items| == 0 {
      NoItemsPrinted(tail);
      assert done + items == done;
    } else {
      var line := ItemLine(items[0]);
      PrintsOn(items, tail);
      ItemPut(items[0]);
      assert PlainItem(items[0]) && ItemReturns(items[0], 0 == |items| - 1);
      PutRead(Within(before, name, done), line, ITEM_ROOM, PrintItems(items[1..]) + tail);
      WhoEnds(items, tail);
      KeyIsNew(done, items);
      NewItemTaken(before, name, done, items[0], Cut(line, ITEM_ROOM));
      assert done + [items[0]] + items[1..] == done + items;
      assert forall i :: 0 <= i < |items[1..]| ==> items[1..][i] == items[i + 1];
      ItemsSuffice(before, name, done + [items[0]], items[1..], tail);
    }
  }

  // ---- sections ----

  /** The title's line is whole and ends as a line: with its own newline, or with the empty line
      before the next title when the section has no items. */
  predicate TitleReturns(s: Section) {
    |s.name| + 2 < TITLE_ROOM || (|s.name| + 2 == TITLE_ROOM && |s.items| == 0)
  }

  predicate SectionReturns(s: Section) {
    TitleReturns(s) && ItemsReturn(s.items)
  }

  lemma SectionsClose(sections: seq<Section>)
    ensures Closes(PrintSections(sections))
  {
    hide PrintItems, Put;
    if |sections| > 0 {
      SectionPrintsOn(sections);
    }
  }

  /** Whether a title ends as a line depends on what is printed behind it. */
  lemma TitleEnds(s: Section, rest: seq<Section>)
    requires PlainItems(s.items)
    ensures Ends(TitleLine(s.name), TITLE_ROOM, PrintItems(s.items) + PrintSections(rest))
       <==> |s.name| + 2 < TITLE_ROOM || |s.items| == 0
  {
    hide PrintSections, Put;
    SectionsClose(rest);
    if |s.items| > 0 {
      hide ItemLine;
      PrintsOn(s.items, PrintSections(rest));
      ItemPut(s.items[0]);
      var line := ItemLine(s.items[0]);
      assert PlainItem(s.items[0]) && line[0] in line;
      PutStarts(line, ITEM_ROOM, PrintItems(s.items[1..]) + PrintSections(rest));
    } else {
      NoItemsPrinted(PrintSections(rest));
    }
  }

  lemma PutStarts(line: string, room: nat, tail: string)
    requires |line| > 0 && room > 0
    ensures |Put(line, room) + tail| > 0 && (Put(line, room) + tail)[0] == line[0]
  {
  }

  lemma NameIsNew(before: seq<Section>, sections: seq<Section>)
    requires UniqueNames(before + sections) && |sections| > 0
    ensures FindSection(before, sections[0].name) == |before|
  {
    var all := before + sections;
    forall i | 0 <= i < |before| ensures before[i].name != sections[0].name {
      assert all[i].name != all[|before|].name;
    }
    FindSectionIs(before, sections[0].name, |before|);
  }

  lemma TitleTaken(r: Reader, name: string)
    requires Sound(r) && !r.stray && |name| < TITLE_SIZE && FindSection(r.sections, name) == |r.sections|
    ensures Take(r, TitleLine(name)) == Within(r.sections, name, [])
  {
    hide ReadLine, FindSection;
    TitleRead(name);
  }

  /** The text of a section behind its title is that of its items. */
  lemma SectionStarts(r: Reader, sections: seq<Section>)
    requires |sections| > 0 && Sound(r) && !r.stray && PlainSection(sections[0]) && TitleReturns(sections[0])
    requires UniqueNames(r.sections + sections)
    ensures var s := sections[0];
            Read(r, PrintSections(sections))
            == Read(Within(r.sections, s.name, []), PrintItems(s.items) + PrintSections(sections[1..]))
  {
    hide Read, Take, Put, Free, ItemLine, Ends, PrintItems, ReadLine, UniqueNames, TitleLine, PrintSections, PlainItems;
    var s := sections[0];
    var tail := PrintItems(s.items) + PrintSections(sections[1..]);
    SectionPrintsOn(sections);
    NewlineRead(r, Put(TitleLine(s.name), TITLE_ROOM) + tail);
    TitleIsLine(s.name);
    PutRead(r, TitleLine(s.name), TITLE_ROOM, tail);
    TitleEnds(s, sections[1..]);
    NameIsNew(r.sections, sections);
    TitleTaken(r, s.name);
  }

  /** All that is needed of one section. */
  ghost predicate Whole(s: Section) {
    PlainSection(s) && UniqueKeys(s.items) && SectionReturns(s)
  }

  lemma SectionSuffices(r: Reader, sections: seq<Section>)
    requires |sections| > 0 && Sound(r) && !r.stray && UniqueNames(r.sections + sections) && Whole(sections[0])
    ensures Read(r, PrintSections(sections))
         == Read(Within(r.sections, sections[0].name, sections[0].items), PrintSections(sections[1..]))
  {
    hide Read, PrintItems, PrintSections, PlainItems, ItemsReturn, TitleReturns, UniqueNames, UniqueKeys, Within;
    var s := sections[0];
    SectionStarts(r, sections);
    SectionsClose(sections[1..]);
    assert [] + s.items == s.items;
    ItemsSuffice(r.sections, s.name, [], s.items, PrintSections(sections[1..]));
  }

  lemma {:induction false} SectionsSuffice(r: Reader, sections: seq<Section>)
    requires Sound(r) && !r.stray && UniqueNames(r.sections + sections)
    requires forall i :: 0 <= i < |sections| ==> Whole(sections[i])
    ensures var final := Read(r, PrintSections(sections)); final.sections == r.sections + sections && !final.stray
    decreases |sections|
  {
    hide Read, PrintSections, Whole, UniqueNames;
    if |sections| == 0 {
      NothingToRead(r);
      assert r.sections + sections == r.sections;
    } else {
      var s := sections[0];
      SectionSuffices(r, sections);
      assert s == Section(s.name, s.items);
      assert r.sections + [s] + sections[1..] == r.sections + sections;
      SectionsSuffice(Within(r.sections, s.name, s.items), sections[1..]);
    }
  }

  lemma NothingToRead(r: Reader)
    requires Sound(r)
    ensures Read(r, PrintSections([])) == r
  {
  }

  lemma StartsLikeTitle(line: string)
    requires |line| > 0 && line[0] == '['
    ensures !ReadLine(line).Ignored?
    ensures ReadLine(line).Title? ==> |ReadLine(line).name| + 2 == |line|
  {
    hide Token, RemoveWhitespace;
    NoSpaceToSkip(line);
  }

  /** If the title line adds an entry and nothing read changes later, it is read as the title. */
  lemma TitleNeeded(r: Reader, line: string, s: Section, rest: seq<Section>, final: seq<Section>)
    requires AtEnd(r) && Size(Take(r, line).sections) == Size(r.sections) + 1
    requires Extends(Take(r, line).sections, final) && final == r.sections + [s] + rest
    ensures ReadLine(line) == Title(s.name)
  {
    hide ReadLine, Size, Take;
    TakeOne(r, line);
    var last := |r.sections| - 1;
    match ReadLine(line)
    case Title(name) =>
      assert (r.sections + [Section(name, [])])[|r.sections|].name == final[|r.sections|].name;
    case KeyValue(key, value) =>
      assert false;
  }

  /** A cut title has lost part of its name. */
  lemma CutTitle(name: string)
    requires ReadLine(Cut(TitleLine(name), TITLE_ROOM)) == Title(name)
    ensures |name| + 2 <= TITLE_ROOM
  {
    hide ReadLine;
    StartsLikeTitle(Cut(TitleLine(name), TITLE_ROOM));
  }

  /** Behind sections already there: the title of the next one must end as a line and be read. */
  lemma NextTitleNeeded(r: Reader, sections: seq<Section>)
    requires |sections| > 0 && AtEnd(r) && forall i :: 0 <= i < |sections| ==> PlainSection(sections[i])
    requires Read(r, PrintSections(sections)).sections == r.sections + sections
    ensures TitleReturns(sections[0])
  {
    hide Read, Take, Lines, Put, Cut, Free, ItemLine, Ends, Size, PrintItems;
    hide PrintSections, ReadLine, Extends, TitleLine, PlainItems;
    var s, rest := sections[0], sections[1..];
    assert PlainSection(s);
    var tail := PrintItems(s.items) + PrintSections(rest);
    var text := Put(TitleLine(s.name), TITLE_ROOM) + tail;
    SectionPrintsOn(sections);
    NewlineRead(r, text);
    TitleIsLine(s.name);
    PutRead(r, TitleLine(s.name), TITLE_ROOM, tail);
    TitleEnds(s, rest);
    ItemsLines(s.items, PrintSections(rest));
    SectionsLines(rest);
    ReadSize(r, text);
    SizeConcat(r.sections, sections);
    SizeFirst(sections);
    var cut := Cut(TitleLine(s.name), TITLE_ROOM);
    TakeSize(r, cut);
    ReadSize(Take(r, cut), tail);
    TakeOne(r, cut);
    FullRead(Take(r, cut), tail);
    assert r.sections + sections == r.sections + [s] + rest;
    TitleNeeded(r, cut, s, rest, r.sections + sections);
    CutTitle(s.name);
  }

  lemma TakeKeepsOrder(r: Reader, line: string)
    requires Sound(r)
    ensures OrderKept(r.sections, Take(r, line).sections)
  {
    hide ReadLine, OrderKept, FindSection, Written;
    NothingMoved(r.sections);
    match ReadLine(line)
    case Ignored =>
    case Overrun =>
    case Title(name) => StepKeepsOrder(r.sections, Load(name));
    case KeyValue(key, value) =>
      var q := if r.current.None? then Enter(r, "Global") else r;
      StepKeepsOrder(r.sections, Load("Global"));
      StoreKeepsOrder(q, key, value);
      OrderKeptOn(r.sections, q.sections, Store(q, key, value).sections);
  }

  lemma StoreKeepsOrder(r: Reader, key: string, value: string)
    requires Sound(r) && r.current.Some?
    ensures OrderKept(r.sections, Store(r, key, value).sections)
  {
    hide Written, KeysKept;
    SameKeys();
    KeysKeptByWrite(r.sections[r.current.value].items, key, value);
  }

  lemma {:induction false} ReadKeepsOrder(r: Reader, text: string)
    requires Sound(r)
    ensures OrderKept(r.sections, Read(r, text).sections)
    decreases |text|
  {
    hide Take, OrderKept;
    if |text| == 0 {
      NothingMoved(r.sections);
    } else if text[0] == '\n' {
      ReadKeepsOrder(r, text[1..]);
    } else {
      var line, rest := text[..LineEnd(text)], text[LineEnd(text)..];
      TakeKeepsOrder(r, line);
      ReadKeepsOrder(Take(r, line), rest);
      OrderKeptOn(r.sections, Take(r, line).sections, Read(r, text).sections);
    }
  }

  /** The first line of a store whose first section has a long name can only be a title. */
  lemma FirstLine(line: string, rest: string)
    requires |line| > 0 && line[0] == '['
    requires var final := Read(Take(EMPTY, line), rest);
             !final.stray && |final.sections| > 0 && |final.sections[0].name| > 6
    ensures ReadLine(line).Title? && AtEnd(Take(EMPTY, line))
    ensures Take(EMPTY, line).sections == [Section(ReadLine(line).name, [])]
  {
    hide ReadLine, Read, Written;
    StartsLikeTitle(line);
    var r1 := Take(EMPTY, line);
    ReadKeepsOrder(r1, rest);
    match ReadLine(line)
    case Overrun => StaysStray(r1, rest);
    case Title(name) =>
    case KeyValue(key, value) =>
      assert false;
  }

  lemma FirstSize(r: Reader, name: string)
    requires r.sections == [Section(name, [])]
    ensures Size(r.sections) == 1
  {
    hide Size;
    SizeNext([], Section(name, []));
    assert [] + [Section(name, [])] == [Section(name, [])];
    NoSize();
  }

  /** A line that begins with a bracket, and what is read after it. */
  lemma SplitFirst(line: string, room: nat, tail: string) returns (first: string, rest: string)
    requires |line| > 0 && room > 0 && line[0] == '['
    ensures |first| > 0 && first[0] == '['
    ensures Read(EMPTY, Put(line, room) + tail) == Read(Take(EMPTY, first), rest)
    ensures Lines(Put(line, room) + tail) == 1 + Lines(rest)
  {
    hide Take;
    var text := Put(line, room) + tail;
    PutStarts(line, room, tail);
    first, rest := text[..LineEnd(text)], text[LineEnd(text)..];
  }

  lemma FirstTitleNeeded(sections: seq<Section>)
    requires |sections| > 0 && forall i :: 0 <= i < |sections| ==> PlainSection(sections[i])
    requires Read(EMPTY, PrintSections(sections)).sections == sections && !Read(EMPTY, PrintSections(sections)).stray
    ensures TitleReturns(sections[0])
  {
    hide Read, Take, Lines, Put, Cut, Free, ItemLine, Ends, Size, PrintItems;
    hide PrintSections, ReadLine, Extends, PlainItems;
    var s, rest := sections[0], sections[1..];
    assert PlainSection(s);
    if |s.name| + 2 >= TITLE_ROOM {
      var line, tail := TitleLine(s.name), PrintItems(s.items) + PrintSections(rest);
      SectionPrintsOn(sections);
      NewlineRead(EMPTY, Put(line, TITLE_ROOM) + tail);
      TitleIsLine(s.name);
      PutRead(EMPTY, line, TITLE_ROOM, tail);
      TitleEnds(s, rest);
      ItemsLines(s.items, PrintSections(rest));
      SectionsLines(rest);
      SizeFirst(sections);
      var first, after := SplitFirst(line, TITLE_ROOM, tail);
      FirstLine(first, after);
      FirstSize(Take(EMPTY, first), ReadLine(first).name);
      ReadSize(Take(EMPTY, first), after);
      var cut := Cut(line, TITLE_ROOM);
      CutStarts(line, TITLE_ROOM);
      FirstLine(cut, tail);
      var r1 := Take(EMPTY, cut);
      FirstSize(r1, ReadLine(cut).name);
      FullRead(r1, tail);
      FirstName(r1.sections, sections);
      CutTitle(s.name);
    }
  }

  lemma CutStarts(line: string, room: nat)
    requires |line| > 0 && room > 0
    ensures |Cut(line, room)| > 0 && Cut(line, room)[0] == line[0]
  {
  }

  lemma FirstName(a: seq<Section>, b: seq<Section>)
    requires |a| == 1 && Extends(a, b)
    ensures |b| > 0 && b[0].name == a[0].name
  {
  }

  lemma {:induction false} SectionsNeeded(r: Reader, sections: seq<Section>)
    requires (AtEnd(r) || r == EMPTY) && UniqueNames(r.sections + sections)
    requires forall i :: 0 <= i < |sections| ==> PlainSection(sections[i])
    requires var final := Read(r, PrintSections(sections)); final.sections == r.sections + sections && !final.stray
    ensures forall i :: 0 <= i < |sections| ==> SectionReturns(sections[i])
    decreases |sections|
  {
    hide Read, Lines, Free, Size, PrintItems, PrintSections, PlainItems, ItemsReturn, TitleReturns, UniqueNames;
    if |sections| > 0 {
      var s, rest := sections[0], sections[1..];
      assert PlainSection(s);
      if r == EMPTY {
        assert r.sections + sections == sections;
        FirstTitleNeeded(sections);
      } else {
        NextTitleNeeded(r, sections);
      }
      SectionStarts(r, sections);
      SectionsClose(rest);
      SectionsLines(rest);
      SizeConcat(r.sections, sections);
      SizeFirst(sections);
      SizeNext(r.sections, Section(s.name, []));
      assert [] + s.items == s.items;
      ItemsNeeded(r.sections, s.name, [], s.items, PrintSections(rest));
      assert s == Section(s.name, s.items) && r.sections + [s] + rest == r.sections + sections;
      SectionsNeeded(Within(r.sections, s.name, s.items), rest);
      assert forall i :: 0 < i < |sections| ==> sections[i] == rest[i - 1];
    }
  }

  // ---- what any opened store is like ----

  predicate PlainEntry(it: Item) {
    Free(it.key, {'\n', ']'}) && Free(it.value, {'\n', ']'})
  }

  /** No newline in a name, key or value, and no closing bracket in a key or value. */
  ghost predicate PlainStore(sections: seq<Section>) {
    forall i :: 0 <= i < |sections| ==> PlainEntries(sections[i])
  }

  ghost predicate PlainEntries(s: Section) {
    Free(s.name, {'\n'}) && forall j :: 0 <= j < |s.items| ==> PlainEntry(s.items[j])
  }

  lemma LinePlain(line: string)
    requires Free(line, {'\n'})
    ensures ReadLine(line).Title? ==> Free(ReadLine(line).name, {'\n'})
    ensures ReadLine(line).KeyValue? ==> PlainEntry(Item(ReadLine(line).key, ReadLine(line).value))
  {
    hide Token, RemoveWhitespace, SkipSpace;
    var start := line[SkipSpace(line)..];
    assert forall c :: c in start ==> c in line;
    if ReadLine(line).KeyValue? {
      TokenInside(start);
      TokenInside(Token(start).1);
    }
  }

  lemma TokenInside(s: string)
    ensures forall c :: c in RemoveWhitespace(Token(s).0) ==> c in s
    ensures forall c :: c in Token(s).1 ==> c in s
  {
    hide SkipSpace, Run;
  }

  lemma WrittenPlain(items: seq<Item>, it: Item)
    requires PlainEntry(it) && forall j :: 0 <= j < |items| ==> PlainEntry(items[j])
    ensures forall j :: 0 <= j < |Written(items, it.key, it.value)| ==> PlainEntry(Written(items, it.key, it.value)[j])
  {
    hide PlainEntry, FindKey;
    assert it == Item(it.key, it.value);
  }

  lemma EnterPlain(r: Reader, name: string)
    requires PlainStore(r.sections) && Free(name, {'\n'})
    ensures PlainStore(Enter(r, name).sections)
  {
    hide FindSection, Free;
  }

  lemma StorePlain(r: Reader, key: string, value: string)
    requires Sound(r) && r.current.Some? && PlainStore(r.sections) && PlainEntry(Item(key, value))
    ensures PlainStore(Store(r, key, value).sections)
  {
    hide Written, Free, PlainEntry;
    var s := r.sections[r.current.value];
    assert PlainEntries(s);
    WrittenPlain(s.items, Item(key, value));
  }

  lemma TakePlain(r: Reader, line: string)
    requires Sound(r) && PlainStore(r.sections) && Free(line, {'\n'})
    ensures PlainStore(Take(r, line).sections)
  {
    hide ReadLine, Enter, Store, PlainStore, PlainEntry;
    LinePlain(line);
    match ReadLine(line)
    case Ignored =>
    case Overrun =>
    case Title(name) => EnterPlain(r, name);
    case KeyValue(key, value) =>
      EnterPlain(r, "Global");
      StorePlain(if r.current.None? then Enter(r, "Global") else r, key, value);
  }

  lemma {:induction false} ReadPlain(r: Reader, text: string)
    requires Sound(r) && PlainStore(r.sections)
    ensures PlainStore(Read(r, text).sections)
    decreases |text|
  {
    hide Take, PlainStore;
    if |text| == 0 {
    } else if text[0] == '\n' {
      ReadPlain(r, text[1..]);
    } else {
      TakePlain(r, text[..LineEnd(text)]);
      ReadPlain(Take(r, text[..LineEnd(text)]), text[LineEnd(text)..]);
    }
  }

  lemma PlainLine(it: Item)
    requires PlainEntry(it)
    ensures PlainItem(it)
  {
    var line := ItemLine(it);
    assert forall c :: c in line ==> c in it.key || c == ':' || c == ' ' || c in it.value;
  }

  lemma PlainLines(s: Section)
    requires PlainEntries(s)
    ensures PlainSection(s)
  {
    hide PlainEntry, PlainItem;
    forall j | 0 <= j < |s.items| ensures PlainItem(s.items[j]) {
      PlainLine(s.items[j]);
    }
  }

  // ---- in so many words ----

  /** Room for the item's line: with its newline; behind the last item of a section the newline may
      be missing, and so may the colon and blank before an empty value. */
  predicate FitsBuffer(it: Item, last: bool) {
    if !last then |ItemLine(it)| + 1 < LINE_SIZE
    else if it.value == "" then |it.key| < LINE_SIZE
    else |ItemLine(it)| < LINE_SIZE
  }

  lemma TokenLength(s: string)
    ensures |RemoveWhitespace(Token(s).0)| <= |s|
  {
  }

  /** What is known of an item whose key a line of at most that length has brought back. */
  lemma KeyBack(line: string, key: string, value: string)
    requires ReadLine(line) == KeyValue(key, value)
    ensures ']' !in line && |key| <= |line| && Free(key, {':', '='}) && Free(value, {':', '='})
    ensures |key| > 0 ==> !IsSpace(key[0])
    ensures |value| > 0 ==> !IsSpace(value[0])
    ensures |line| > 0 && !IsSpace(line[0]) ==> line[0] != '#'
  {
    hide Token, RemoveWhitespace, Free;
    var start := line[SkipSpace(line)..];
    NoBracket(line);
    KeyValueParts(line);
    TokenClean(start);
    TokenClean(Token(start).1);
    TokenLength(start);
    if |line| > 0 && !IsSpace(line[0]) {
      NoSpaceToSkip(line);
    }
  }

  /** A key that fills the buffer comes back with an empty value. */
  lemma KeyAlone(key: string, colon: string)
    requires |key| > 0 && Free(key, {':', '=', ']'}) && !IsSpace(key[0]) && key[0] != '#'
    requires colon == "" || colon == ":"
    ensures ReadLine(key + colon) == KeyValue(key, "")
  {
    hide Token, RemoveWhitespace, ReadLine;
    assert ']' !in key + colon;
    assert Free(key, {':', '='});
    SplitLine(key + colon);
    FirstToken(key, colon);
    Clean(key);
    ColonAlone();
  }

  lemma ColonAlone()
    ensures RemoveWhitespace(Token(":").0) == "" && RemoveWhitespace(Token("").0) == ""
  {
    assert Run(":"[1..], true) == 0;
  }

  /** A clipped line that still has part of the value brings back only that part. */
  lemma PartOfValue(it: Item, m: nat)
    requires !IsComment(it.key) && m < |it.value| && (m > 0 || |it.key| > 0)
    ensures ReadLine(it.key + ": " + it.value[..m]) != KeyValue(it.key, it.value)
  {
    hide ReadLine, Free, IsSpace;
    var line := it.key + ": " + it.value[..m];
    if ReadLine(line) == KeyValue(it.key, it.value) {
      KeyBack(line, it.key, it.value);
      var part := Item(it.key, it.value[..m]);
      assert ItemLine(part) == line;
      FreePart(it.value, m);
      assert forall c :: c in it.key ==> c in line;
      assert forall c :: c in it.value[..m] ==> c in line;
      FreeOfAll(it.key);
      FreeOfAll(it.value[..m]);
      if |it.key| > 0 {
        assert line[0] == it.key[0];
        ItemLineExact(part);
      } else {
        assert line == ": " + it.value[..m];
        EmptyKey(it.value[..m]);
      }
    }
  }

  lemma FreePart(value: string, m: nat)
    requires Free(value, {':', '='}) && m <= |value|
    ensures Free(value[..m], {':', '='})
  {
  }

  lemma EmptyKey(value: string)
    requires |value| > 0 && Free(value, {':', '='}) && !IsSpace(value[0])
    ensures ReadLine(": " + value).KeyValue? ==> ReadLine(": " + value).key == value
  {
    hide Token, RemoveWhitespace;
    ColonFirst(value);
    ValueToken(value);
  }

  /** The line of the last item, longer than the buffer. */
  lemma LongLine(it: Item)
    requires |ItemLine(it)| > ITEM_ROOM
    ensures ReadLine(ItemLine(it)[..ITEM_ROOM]) == KeyValue(it.key, it.value) <==> Faithful(it) && FitsBuffer(it, true)
  {
    hide ReadLine, Free, IsSpace;
    var line, cut := ItemLine(it), ItemLine(it)[..ITEM_ROOM];
    if ReadLine(cut) == KeyValue(it.key, it.value) {
      KeyBack(cut, it.key, it.value);
    }
    if !IsComment(it.key) && |it.key| <= ITEM_ROOM {
      if |it.key| + 2 <= ITEM_ROOM {
        var m := ITEM_ROOM - (|it.key| + 2);
        assert cut == it.key + ": " + it.value[..m];
        PartOfValue(it, m);
      } else {
        var colon := if |it.key| == ITEM_ROOM then "" else ":";
        assert cut == it.key + colon;
        KeyFills(it, colon);
      }
    }
  }

  lemma KeyFills(it: Item, colon: string)
    requires |it.key| > 0 && !IsComment(it.key) && (colon == "" || colon == ":")
    ensures ReadLine(it.key + colon) == KeyValue(it.key, it.value) <==> Faithful(it) && it.value == ""
  {
    hide ReadLine, IsSpace;
    var line := it.key + colon;
    assert line[0] == it.key[0];
    if ReadLine(line) == KeyValue(it.key, it.value) {
      KeyBack(line, it.key, it.value);
      assert forall c :: c in it.key ==> c in line;
      FreeOfAll(it.key);
      KeyAlone(it.key, colon);
    }
    if Faithful(it) && it.value == "" {
      KeyAlone(it.key, colon);
    }
  }

  lemma ItemReturnsExactly(it: Item, last: bool)
    ensures ItemReturns(it, last) <==> Faithful(it) && FitsBuffer(it, last)
  {
    hide ReadLine, Faithful;
    ItemLineExact(it);
    if |ItemLine(it)| > ITEM_ROOM {
      LongLine(it);
    }
  }

  /** An item in its place comes back: it is faithful, on one line, and has room. */
  predicate ItemExact(it: Item, last: bool) {
    Free(it.key, {'\n'}) && Free(it.value, {'\n'}) && Faithful(it) && FitsBuffer(it, last)
  }

  ghost predicate SectionExact(s: Section) {
    && Free(s.name, {'\n'}) && UniqueKeys(s.items)
    && (|s.name| + 4 < LINE_SIZE || (|s.name| + 4 == LINE_SIZE && |s.items| == 0))
    && forall j :: 0 <= j < |s.items| ==> ItemExact(s.items[j], j == |s.items| - 1)
  }

  ghost predicate Exact(sections: seq<Section>) {
    UniqueNames(sections) && forall i :: 0 <= i < |sections| ==> SectionExact(sections[i])
  }

  lemma PlainIfExact(it: Item, last: bool)
    requires ItemExact(it, last)
    ensures PlainEntry(it)
  {
    hide FitsBuffer;
  }

  lemma ExactIfPlain(it: Item, last: bool)
    requires PlainEntry(it) && Faithful(it) && FitsBuffer(it, last)
    ensures ItemExact(it, last)
  {
    hide FitsBuffer, Faithful;
  }

  lemma SectionExactly(s: Section)
    ensures SectionExact(s) <==> PlainEntries(s) && UniqueKeys(s.items) && SectionReturns(s)
  {
    hide ItemReturns, ItemExact, UniqueKeys, Free, PlainEntry;
    forall j | 0 <= j < |s.items|
      ensures ItemExact(s.items[j], j == |s.items| - 1)
         <==> PlainEntry(s.items[j]) && ItemReturns(s.items[j], j == |s.items| - 1)
    {
      var last := j == |s.items| - 1;
      ItemReturnsExactly(s.items[j], last);
      if ItemExact(s.items[j], last) {
        PlainIfExact(s.items[j], last);
        assert Faithful(s.items[j]) && FitsBuffer(s.items[j], last) by {
          ExactParts(s.items[j], last);
        }
      }
      if PlainEntry(s.items[j]) && ItemReturns(s.items[j], last) {
        ExactIfPlain(s.items[j], last);
      }
    }
  }

  lemma ExactParts(it: Item, last: bool)
    requires ItemExact(it, last)
    ensures Faithful(it) && FitsBuffer(it, last)
  {
  }

  /** Writing a configuration and opening it again gives back the same sections with the same items
      in the same order, if and only if it is exact. */
  lemma ConfigRoundTripExactly(sections: seq<Section>)
    ensures ReadConfig(PrintConfig(sections)) == Some(sections) <==> Exact(sections)
  {
    hide Read, PrintSections, SectionExact, SectionReturns, PlainEntries, PlainSection, Whole, Tidy, PlainStore;
    BannerIgnored(EMPTY, PrintSections(sections));
    assert [] + sections == sections;
    if ReadConfig(PrintConfig(sections)) == Some(sections) {
      NothingYet();
      ReadIsTidy(EMPTY, PrintSections(sections));
      ReadPlain(EMPTY, PrintSections(sections));
      TidyParts(sections);
      forall i | 0 <= i < |sections| ensures PlainSection(sections[i]) && PlainEntries(sections[i]) {
        PlainParts(sections, i);
        PlainLines(sections[i]);
      }
      SectionsNeeded(EMPTY, sections);
      forall i | 0 <= i < |sections| ensures SectionExact(sections[i]) {
        SectionExactly(sections[i]);
      }
    }
    if Exact(sections) {
      forall i | 0 <= i < |sections| ensures Whole(sections[i]) {
        SectionExactly(sections[i]);
        PlainLines(sections[i]);
        WholeOf(sections[i]);
      }
      SectionsSuffice(EMPTY, sections);
    }
  }

  lemma NothingYet()
    ensures Tidy([]) && PlainStore([])
  {
  }

  lemma TidyParts(sections: seq<Section>)
    requires Tidy(sections)
    ensures UniqueNames(sections) && forall i :: 0 <= i < |sections| ==> UniqueKeys(sections[i].items)
  {
  }

  lemma PlainParts(sections: seq<Section>, i: nat)
    requires PlainStore(sections) && i < |sections|
    ensures PlainEntries(sections[i])
  {
  }

  lemma WholeOf(s: Section)
    requires PlainSection(s) && UniqueKeys(s.items) && SectionReturns(s)
    ensures Whole(s)
  {
  }

  // ---- runs ----

  /** An item that fits a line of the file. */
  predicate SafeItem(it: Item) {
    Faithful(it) && Free(ItemLine(it), {'\n'}) && |ItemLine(it)| + 1 < LINE_SIZE
  }

  predicate SafeName(name: string) {
    Free(name, {'\n'}) && |name| + 4 < LINE_SIZE
  }

  ghost predicate Safe(sections: seq<Section>) {
    && UniqueNames(sections)
    && forall i :: 0 <= i < |sections| ==> SafeSection(sections[i])
  }

  ghost predicate SafeSection(s: Section) {
    && SafeName(s.name) && UniqueKeys(s.items)
    && forall i :: 0 <= i < |s.items| ==> SafeItem(s.items[i])
  }

  /** What a step adds to the store can be written to a line of the file. */
  predicate SafeStep(step: Step) {
    match step
    case Load(name) => SafeName(name)
    case On(_, a) => SafeItem(Item(a.key, TextOf(a)))
  }

  lemma AfterIsSafe(items: seq<Item>, a: Access)
    requires UniqueKeys(items) && SafeItem(Item(a.key, TextOf(a)))
    requires forall i :: 0 <= i < |items| ==> SafeItem(items[i])
    ensures UniqueKeys(After(items, a)) && forall i :: 0 <= i < |After(items, a)| ==> SafeItem(After(items, a)[i])
  {
    hide SafeItem, TextOf, Lookup;
    AfterKeys(items, a);
  }

  lemma StepIsSafe(sections: seq<Section>, step: Step)
    requires Safe(sections) && SafeStep(step)
    ensures Safe(Stepped(sections, step))
  {
    hide SafeItem, SafeName, After;
    if step.On? && FindSection(sections, step.name) < |sections| {
      assert SafeSection(sections[FindSection(sections, step.name)]);
      AfterIsSafe(sections[FindSection(sections, step.name)].items, step.access);
    }
  }

  lemma {:induction false} RunIsSafe(sections: seq<Section>, run: seq<Step>)
    requires Safe(sections) && forall s :: s in run ==> SafeStep(s)
    ensures Safe(AfterRun(sections, run))
  {
    hide Safe, SafeStep, Stepped;
    if |run| > 0 {
      RunIsSafe(sections, run[..|run| - 1]);
      StepIsSafe(AfterRun(sections, run[..|run| - 1]), run[|run| - 1]);
    }
  }

  lemma SafeIsExact(sections: seq<Section>)
    requires Safe(sections)
    ensures Exact(sections)
  {
    hide UniqueKeys;
    forall i | 0 <= i < |sections| ensures SectionExact(sections[i]) {
      assert SafeSection(sections[i]);
      forall j | 0 <= j < |sections[i].items|
        ensures ItemExact(sections[i].items[j], j == |sections[i].items| - 1)
      {
        SafeItemIsExact(sections[i].items[j], j == |sections[i].items| - 1);
      }
    }
  }

  lemma SafeItemIsExact(it: Item, last: bool)
    requires SafeItem(it)
    ensures ItemExact(it, last)
  {
    var line := ItemLine(it);
    assert forall c :: c in it.key ==> c in line;
    assert !IsComment(it.key) ==> forall c :: c in it.value ==> c in line;
  }

  /** From one start of the daemon to the next: after a run, saving and opening again gives back the
      store exactly if it is exact, as it is when the run began with safe texts and stored only
      those; and then every key has the text stored last. */
  lemma SavedRunReopened(sections: seq<Section>, run: seq<Step>, name: string, key: string)
    requires Tidy(sections)
    ensures var reopened := ReadConfig(PrintConfig(AfterRun(sections, run)));
            && (reopened == Some(AfterRun(sections, run)) <==> Exact(AfterRun(sections, run)))
            && (Exact(AfterRun(sections, run)) ==>
                LookupIn(reopened.value, name, key) == LastStored(sections, run, name, key))
    ensures Safe(sections) && (forall s :: s in run ==> SafeStep(s)) ==> Exact(AfterRun(sections, run))
  {
    hide Safe, Exact, Tidy, SafeStep, ReadConfig, PrintConfig, LastStored, LookupIn, OrderKept;
    ConfigRoundTripExactly(AfterRun(sections, run));
    RunIsMap(sections, run, name, key);
    if Safe(sections) && forall s :: s in run ==> SafeStep(s) {
      RunIsSafe(sections, run);
      SafeIsExact(AfterRun(sections, run));
    }
  }
}
