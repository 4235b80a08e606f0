/** The configuration as a value: sections in the order they were first asked for, each with its
    keys in the order they were first written. */
module ConfigModel {
  import opened Options
  import opened Numerals

  datatype Item = Item(key: string, value: string)
  datatype Section = Section(name: string, items: seq<Item>)

  /** Index of the first item with that key, or the length of the list. */
  function FindKey(items: seq<Item>, key: string): (i: nat)
    ensures i <= |items| && (i < |items| ==> items[i].key == key)
    ensures forall j :: 0 <= j < i ==> items[j].key != key
  {
    if |items| == 0 || items[0].key == key then 0 else 1 + FindKey(items[1..], key)
  }

  function FindSection(sections: seq<Section>, name: string): (i: nat)
    ensures i <= |sections| && (i < |sections| ==> sections[i].name == name)
    ensures forall j :: 0 <= j < i ==> sections[j].name != name
  {
    if |sections| == 0 || sections[0].name == name then 0 else 1 + FindSection(sections[1..], name)
  }

  function Lookup(items: seq<Item>, key: string): Option<string> {
    var i := FindKey(items, key);
    if i < |items| then Some(items[i].value) else None
  }

  /** g15daemon_cfg_write_string: a new value in place, or a new item at the end. */
  function Written(items: seq<Item>, key: string, value: string): seq<Item> {
    var i := FindKey(items, key);
    if i < |items| then items[i := Item(key, value)] else items + [Item(key, value)]
  }

  /** g15daemon_cfg_load_section. */
  function Loaded(sections: seq<Section>, name: string): seq<Section> {
    if FindSection(sections, name) < |sections| then sections else sections + [Section(name, [])]
  }

  function BoolText(val: int): string {
    if val != 0 then "On" else "Off"
  }

  /** g15daemon_cfg_read_bool on a stored text: does it begin with "On"? */
  function BoolOf(text: string): int {
    if "On" <= text then 1 else 0
  }

  /** One access to a section. */
  datatype Access =
    | WriteString(key: string, text: string)
    | WriteInt(key: string, val: int)
    | WriteBool(key: string, val: int)
    | ReadString(key: string, deftext: string)
    | ReadInt(key: string, def: int)
    | ReadBool(key: string, def: int)

  /** What an access stores under its key when it stores something. */
  function TextOf(a: Access): string {
    match a
    case WriteString(_, text) => text
    case WriteInt(_, val) => PrintInt(val)
    case WriteBool(_, val) => BoolText(val)
    case ReadString(_, deftext) => deftext
    case ReadInt(_, def) => PrintInt(def)
    case ReadBool(_, def) => BoolText(def)
  }

  predicate IsRead(a: Access) {
    a.ReadString? || a.ReadInt? || a.ReadBool?
  }

  /** The items after an access: a write stores, a read stores its default when the key is new. */
  function After(items: seq<Item>, a: Access): seq<Item> {
    if IsRead(a) && Lookup(items, a.key).Some? then items else Written(items, a.key, TextOf(a))
  }

  /** One step of a run: a section is asked for, or accessed. */
  datatype Step =
    | Load(name: string)
    | On(name: string, access: Access)

  /** The store after a step. An access without a section, which in the source is a NULL pointer,
      changes nothing. */
  function Stepped(sections: seq<Section>, step: Step): seq<Section> {
    match step
    case Load(name) => Loaded(sections, name)
    case On(name, a) =>
      var i := FindSection(sections, name);
      if i < |sections| then sections[i := Section(name, After(sections[i].items, a))] else sections
  }

  function AfterRun(sections: seq<Section>, run: seq<Step>): seq<Section> {
    if |run| == 0 then sections else Stepped(AfterRun(sections, run[..|run| - 1]), run[|run| - 1])
  }

  function ItemsOf(sections: seq<Section>, name: string): seq<Item> {
    var i := FindSection(sections, name);
    if i < |sections| then sections[i].items else []
  }

  function LookupIn(sections: seq<Section>, name: string, key: string): Option<string> {
    Lookup(ItemsOf(sections, name), key)
  }

  ghost predicate UniqueKeys(items: seq<Item>) {
    forall i, j :: 0 <= i < j < |items| ==> items[i].key != items[j].key
  }

  ghost predicate UniqueNames(sections: seq<Section>) {
    forall i, j :: 0 <= i < j < |sections| ==> sections[i].name != sections[j].name
  }

  /** No name twice, and in no section a key twice. */
  ghost predicate Tidy(sections: seq<Section>) {
    UniqueNames(sections) && forall i :: 0 <= i < |sections| ==> UniqueKeys(sections[i].items)
  }

  /** The second list is the first with values changed and items added behind: every key of the
      first is where it was. */
  ghost predicate KeysKept(before: seq<Item>, after: seq<Item>) {
    |before| <= |after| && forall i :: 0 <= i < |before| ==> after[i].key == before[i].key
  }

  /** Every section of the first store is where it was in the second, with its keys where they
      were. */
  ghost predicate OrderKept(before: seq<Section>, after: seq<Section>) {
    |before| <= |after|
    && forall i :: 0 <= i < |before| ==> after[i].name == before[i].name && KeysKept(before[i].items, after[i].items)
  }

  lemma WrittenUnique(items: seq<Item>, key: string, value: string)
    requires UniqueKeys(items)
    ensures UniqueKeys(Written(items, key, value))
  {
  }

  lemma {:induction false} FindKeyIs(items: seq<Item>, key: string, i: nat)
    requires i < |items| && items[i].key == key && forall j :: 0 <= j < i ==> items[j].key != key
    ensures FindKey(items, key) == i
  {
  }

  lemma {:induction false} FindKeyNone(items: seq<Item>, key: string)
    requires forall j :: 0 <= j < |items| ==> items[j].key != key
    ensures FindKey(items, key) == |items|
  {
  }

  lemma {:induction false} FindSectionIs(sections: seq<Section>, name: string, i: nat)
    requires i <= |sections| && (i < |sections| ==> sections[i].name == name)
    requires forall j :: 0 <= j < i ==> sections[j].name != name
    ensures FindSection(sections, name) == i
  {
  }

  /** A lookup after a write gives the written value for that key and the old one for others. */
  lemma LookupWritten(items: seq<Item>, key: string, value: string, k: string)
    ensures Lookup(Written(items, key, value), k) == if k == key then Some(value) else Lookup(items, k)
  {
    var after := Written(items, key, value);
    var i, j := FindKey(items, key), FindKey(items, k);
    if k == key {
      FindKeyIs(after, key, i);
    } else if j < |items| {
      FindKeyIs(after, k, j);
    }
  }

  lemma KeysKeptByWrite(items: seq<Item>, key: string, value: string)
    ensures KeysKept(items, Written(items, key, value)) && |Written(items, key, value)| <= |items| + 1
  {
  }

  /** The section of that name is there: it was from the start, or the run has asked for it. */
  predicate Known(sections: seq<Section>, run: seq<Step>, name: string) {
    FindSection(sections, name) < |sections| || Load(name) in run
  }

  /** The text the last storing access of a run put under a key of a section. Reads store only when
      the key is not there yet; accesses before the section is there store nothing. */
  function LastStored(sections: seq<Section>, run: seq<Step>, name: string, key: string): Option<string> {
    if |run| == 0 then LookupIn(sections, name, key)
    else
      var past, step := run[..|run| - 1], run[|run| - 1];
      var before := LastStored(sections, past, name, key);
      if step.On? && step.name == name && step.access.key == key && Known(sections, past, name)
         && !(IsRead(step.access) && before.Some?)
      then Some(TextOf(step.access)) else before
  }

  /** What one step does to the section of a given name. */
  lemma StepOnSection(sections: seq<Section>, step: Step, name: string)
    ensures var after := Stepped(sections, step);
            && (FindSection(after, name) < |after| <==> FindSection(sections, name) < |sections| || step == Load(name))
            && ItemsOf(after, name) == if step.On? && step.name == name && FindSection(sections, name) < |sections|
                                       then After(ItemsOf(sections, name), step.access) else ItemsOf(sections, name)
  {
    hide After;
    var after := Stepped(sections, step);
    var i := FindSection(sections, name);
    if i < |sections| {
      FindSectionIs(after, name, i);
    } else if step == Load(name) {
      FindSectionIs(after, name, |sections|);
    } else {
      FindSectionIs(after, name, |after|);
    }
  }

  lemma AfterKeys(items: seq<Item>, a: Access)
    ensures KeysKept(items, After(items, a)) && (UniqueKeys(items) ==> UniqueKeys(After(items, a)))
  {
    hide Written, Lookup;
    KeysKeptByWrite(items, a.key, TextOf(a));
    if UniqueKeys(items) {
      WrittenUnique(items, a.key, TextOf(a));
    }
  }

  lemma StepKeepsOrder(sections: seq<Section>, step: Step)
    ensures OrderKept(sections, Stepped(sections, step))
    ensures Tidy(sections) ==> Tidy(Stepped(sections, step))
  {
    hide After, KeysKept, UniqueKeys;
    SameKeys();
    NoItems();
    if step.On? && FindSection(sections, step.name) < |sections| {
      AfterKeys(sections[FindSection(sections, step.name)].items, step.access);
    }
  }

  lemma SameKeys()
    ensures forall items: seq<Item> {:trigger KeysKept(items, items)} :: KeysKept(items, items)
  {
  }

  lemma NoItems()
    ensures UniqueKeys([])
  {
  }

  lemma OrderKeptOn(a: seq<Section>, b: seq<Section>, c: seq<Section>)
    requires OrderKept(a, b) && OrderKept(b, c)
    ensures OrderKept(a, c)
  {
    forall i | 0 <= i < |a| ensures c[i].name == a[i].name && KeysKept(a[i].items, c[i].items) {
      assert b[i].name == a[i].name && c[i].name == b[i].name;
    }
  }

  lemma LookupAfter(items: seq<Item>, a: Access, key: string)
    ensures Lookup(After(items, a), key)
         == if a.key == key && !(IsRead(a) && Lookup(items, key).Some?) then Some(TextOf(a)) else Lookup(items, key)
  {
    hide Lookup, Written;
    LookupWritten(items, a.key, TextOf(a), key);
  }

  /** Over any run of loads, reads and writes the store is a map from sections and keys to texts
      that remembers the order of insertion: names and keys stay unique, nothing present changes
      its place, and a lookup finds what was stored last. */
  lemma {:induction false} RunIsMap(sections: seq<Section>, run: seq<Step>, name: string, key: string)
    requires Tidy(sections)
    ensures Tidy(AfterRun(sections, run)) && OrderKept(sections, AfterRun(sections, run))
    ensures LookupIn(AfterRun(sections, run), name, key) == LastStored(sections, run, name, key)
    ensures FindSection(AfterRun(sections, run), name) < |AfterRun(sections, run)| <==> Known(sections, run, name)
  {
    hide Lookup, Stepped, ItemsOf, After, Tidy, OrderKept, IsRead, TextOf;
    if |run| == 0 {
      NothingMoved(sections);
    } else {
      var past, step := run[..|run| - 1], run[|run| - 1];
      var before := AfterRun(sections, past);
      RunIsMap(sections, past, name, key);
      StepOnSection(before, step, name);
      StepKeepsOrder(before, step);
      OrderKeptOn(sections, before, Stepped(before, step));
      if step.On? {
        LookupAfter(ItemsOf(before, name), step.access, key);
      }
      assert run == past + [step];
    }
  }

  lemma NothingMoved(sections: seq<Section>)
    ensures OrderKept(sections, sections)
  {
  }

  /** So at every point of a run what is there keeps its place to the end: the order is that of
      insertion. */
  lemma {:induction false} PlacesKept(sections: seq<Section>, run: seq<Step>, n: nat)
    requires n <= |run|
    ensures OrderKept(AfterRun(sections, run[..n]), AfterRun(sections, run))
  {
    hide Stepped, OrderKept;
    if n == |run| {
      assert run[..n] == run;
      NothingMoved(AfterRun(sections, run));
    } else {
      var past := run[..|run| - 1];
      PlacesKept(sections, past, n);
      assert past[..n] == run[..n];
      StepKeepsOrder(AfterRun(sections, past), run[|run| - 1]);
      OrderKeptOn(AfterRun(sections, run[..n]), AfterRun(sections, past), AfterRun(sections, run));
    }
  }

  /** A section the run does not access is left exactly as it was. */
  lemma {:induction false} OthersUntouched(sections: seq<Section>, run: seq<Step>, name: string)
    requires forall s :: s in run && s.On? ==> s.name != name
    ensures ItemsOf(AfterRun(sections, run), name) == ItemsOf(sections, name)
  {
    hide Stepped, ItemsOf;
    if |run| > 0 {
      OthersUntouched(sections, run[..|run| - 1], name);
      StepOnSection(AfterRun(sections, run[..|run| - 1]), run[|run| - 1], name);
    }
  }

  /** What each kind of write leaves under its key in a section that is there, and what a read that
      finds nothing leaves there: the number in decimal, On or Off, or the text itself. */
  lemma StoredTexts(sections: seq<Section>, run: seq<Step>, name: string, key: string, val: int, text: string)
    requires FindSection(AfterRun(sections, run), name) < |AfterRun(sections, run)|
    ensures LookupIn(AfterRun(sections, run + [On(name, WriteInt(key, val))]), name, key) == Some(PrintInt(val))
    ensures LookupIn(AfterRun(sections, run + [On(name, WriteBool(key, val))]), name, key)
         == Some(if val != 0 then "On" else "Off")
    ensures LookupIn(AfterRun(sections, run + [On(name, WriteString(key, text))]), name, key) == Some(text)
    ensures var before := LookupIn(AfterRun(sections, run), name, key);
            && (LookupIn(AfterRun(sections, run + [On(name, ReadInt(key, val))]), name, key)
                == if before.Some? then before else Some(PrintInt(val)))
            && (LookupIn(AfterRun(sections, run + [On(name, ReadBool(key, val))]), name, key)
                == if before.Some? then before else Some(if val != 0 then "On" else "Off"))
            && (LookupIn(AfterRun(sections, run + [On(name, ReadString(key, text))]), name, key)
                == if before.Some? then before else Some(text))
  {
    hide Lookup, ItemsOf, After, Stepped, FindSection, PrintInt;
    StoredText(sections, run, name, WriteInt(key, val));
    StoredText(sections, run, name, WriteBool(key, val));
    StoredText(sections, run, name, WriteString(key, text));
    StoredText(sections, run, name, ReadInt(key, val));
    StoredText(sections, run, name, ReadBool(key, val));
    StoredText(sections, run, name, ReadString(key, text));
  }

  lemma StoredText(sections: seq<Section>, run: seq<Step>, name: string, a: Access)
    requires FindSection(AfterRun(sections, run), name) < |AfterRun(sections, run)|
    ensures var before := LookupIn(AfterRun(sections, run), name, a.key);
            LookupIn(AfterRun(sections, run + [On(name, a)]), name, a.key)
            == if IsRead(a) && before.Some? then before else Some(TextOf(a))
  {
    hide Lookup, ItemsOf, After, Stepped, FindSection, TextOf;
    var store := AfterRun(sections, run);
    assert (run + [On(name, a)])[..|run|] == run;
    StepOnSection(store, On(name, a), name);
    LookupAfter(ItemsOf(store, name), a, a.key);
  }

  /** A text counts as On by its first two characters. */
  lemma CountsAsOn(text: string)
    ensures BoolOf(text) == if |text| >= 2 && text[0] == 'O' && text[1] == 'n' then 1 else 0
  {
    assert "On" <= text <==> |text| >= 2 && text[0] == 'O' && text[1] == 'n' by {
      if "On" <= text {
        assert text[..2] == "On" && text[0] == "On"[0] && text[1] == "On"[1];
      }
    }
  }

  /** A boolean comes back as 0 or 1, so a repeated defaulted read agrees with the first exactly
      for those defaults. */
  lemma BoolRoundTrip(val: int)
    ensures BoolOf(BoolText(val)) == (if val != 0 then 1 else 0)
    ensures BoolOf(BoolText(val)) == val <==> val == 0 || val == 1
  {
    assert "Off"[1] != "On"[1];
  }
}
