/** The configuration lists of utility_funcs.c on the heap. In both lists only the first node's
    head pointer is used, and it always points at the last node; appending relies on that. */
module ConfigStore {
  import opened Options
  import opened Numerals
  import opened ConfigModel
  import opened ConfigText

  class ConfigItem {
    var next: ConfigItem?
    var prev: ConfigItem?
    var head: ConfigItem?
    var key: string
    var value: string
    ghost const owner: ConfigSection
    ghost const pos: nat

    constructor (key: string, value: string, ghost owner: ConfigSection, ghost pos: nat)
      ensures this.key == key && this.value == value && this.owner == owner && this.pos == pos
      ensures next == null && prev == null && head == this
    {
      this.key, this.value, this.owner, this.pos := key, value, owner, pos;
      next, prev := null, null;
      new;
      head := this;
    }
  }

  class ConfigSection {
    var head: ConfigSection?
    var next: ConfigSection?
    var sectionname: string
    var items: ConfigItem?
    ghost var nodes: seq<ConfigItem>
    ghost var contents: seq<Item>
    ghost const pos: nat

    constructor (name: string, ghost pos: nat)
      ensures head == this && next == null && this.pos == pos
      ensures Mirrors(Section(name, [])) && nodes == []
    {
      sectionname, this.pos := name, pos;
      next, items := null, null;
      nodes, contents := [], [];
      new;
      head := this;
    }

    /** Linked both ways, with the first node's head at the last node. */
    ghost predicate Linked(nodes: seq<ConfigItem>)
      reads `items, nodes`next, nodes`prev, nodes`head
    {
      && (items == null <==> |nodes| == 0)
      && (|nodes| > 0 ==> items == nodes[0] && nodes[0].head == nodes[|nodes| - 1]
                          && nodes[|nodes| - 1].next == null && nodes[0].prev == null)
      && (forall i {:trigger nodes[i].next} :: 0 <= i < |nodes| - 1 ==> nodes[i].next == nodes[i + 1])
      && (forall i {:trigger nodes[i].prev} :: 0 < i < |nodes| ==> nodes[i].prev == nodes[i - 1])
    }

    ghost predicate Holds(nodes: seq<ConfigItem>, contents: seq<Item>)
      reads nodes`key, nodes`value
    {
      && |nodes| == |contents|
      && (forall i {:trigger nodes[i]} :: 0 <= i < |nodes| ==>
            nodes[i].owner == this && nodes[i].pos == i && contents[i] == Item(nodes[i].key, nodes[i].value))
    }

    /** The item list: linked nodes that hold the contents. */
    ghost predicate Valid()
      reads `items, `nodes, `contents, nodes
    {
      Linked(nodes) && Holds(nodes, contents)
    }

    ghost predicate Mirrors(c: Section)
      reads `sectionname, `items, `nodes, `contents, nodes
    {
      Valid() && c == Section(sectionname, contents)
    }

    lemma ItemAt(i: nat)
      requires Valid()
      ensures |nodes| == |contents| && items == if |nodes| > 0 then nodes[0] else null
      ensures i < |nodes| ==> contents[i] == Item(nodes[i].key, nodes[i].value)
                              && nodes[i].next == if i + 1 < |nodes| then nodes[i + 1] else null
    {
    }

    /** uf_search_confitem. */
    method SearchItem(key: string) returns (item: ConfigItem?)
      requires Valid()
      ensures var i := FindKey(contents, key);
              if i < |contents| then item == nodes[i] else item == null
    {
      item := items;
      ghost var i := 0;
      while item != null
        invariant 0 <= i <= |nodes| && (if i < |nodes| then item == nodes[i] else item == null)
        invariant forall j :: 0 <= j < i ==> contents[j].key != key
        decreases |nodes| - i
      {
        assert contents[i].key == item.key;
        if item.key == key {
          FindKeyIs(contents, key, i);
          return;
        }
        item := item.next;
        i := i + 1;
      }
      FindKeyNone(contents, key);
    }

    /** g15daemon_cfg_write_string on an existing section. */
    method WriteString(key: string, val: string)
      requires Valid()
      modifies `items, `nodes, `contents, nodes`value, nodes`next, nodes`head
      ensures Valid() && contents == Written(old(contents), key, val)
      ensures forall n :: n in nodes ==> n in old(nodes) || fresh(n)
    {
      hide FindKey;
      ghost var i := FindKey(contents, key);
      var found := SearchItem(key);
      if found != null {
        UpdateItem(found, i, val);
      } else {
        AppendItem(key, val);
      }
    }

    method UpdateItem(item: ConfigItem, ghost i: nat, val: string)
      requires Valid() && i < |nodes| && item == nodes[i]
      modifies `contents, item`value
      ensures Valid() && contents == old(contents)[i := Item(old(contents)[i].key, val)] && nodes == old(nodes)
    {
      assert forall j {:trigger nodes[j]} :: 0 <= j < |nodes| ==> nodes[j].pos == j;
      item.value := val;
      contents := contents[i := Item(contents[i].key, val)];
    }

    /** A new item behind the last one, which the first one's head leads to. */
    method AppendItem(key: string, val: string)
      requires Valid()
      modifies `items, `nodes, `contents, nodes`next, nodes`head
      ensures Valid() && contents == old(contents) + [Item(key, val)]
      ensures forall n :: n in nodes ==> n in old(nodes) || fresh(n)
    {
      hide Linked;
      var item := new ConfigItem(key, val, this, |nodes|);
      assert forall j {:trigger nodes[j]} :: 0 <= j < |nodes| ==> nodes[j].pos == j;
      Link(item);
      nodes := nodes + [item];
      contents := contents + [Item(key, val)];
    }

    method Link(item: ConfigItem)
      requires Linked(nodes) && item !in nodes && item.next == null && item.head == item
      requires forall j {:trigger nodes[j]} :: 0 <= j < |nodes| ==> nodes[j].pos == j
      modifies `items, nodes`next, nodes`head, item`prev, item`head
      ensures Linked(nodes + [item])
    {
      ghost var before := nodes;
      if items == null {
        item.prev := null;
        items := item;
        items.head := item;
      } else {
        item.prev := items.head;
        items.head.next := item;
        items.head := item;
      }
      ghost var all := before + [item];
      forall i {:trigger all[i].next} | 0 <= i < |all| - 1 ensures all[i].next == all[i + 1] {
        assert all[i] == before[i] && before[i].pos == i;
        if i < |before| - 1 {
          assert old(before[i].next) == before[i + 1];
        }
      }
      forall i {:trigger all[i].prev} | 0 < i < |all| ensures all[i].prev == all[i - 1] {
        if i < |before| {
          assert old(before[i].prev) == before[i - 1];
        }
      }
    }
  }

  /** Do two sections share item nodes? Their nodes know their owners, so they cannot. */
  lemma ApartSections(s: ConfigSection, t: ConfigSection)
    requires s.Valid() && t.Valid() && s != t
    ensures forall n :: n in t.nodes ==> n !in s.nodes
  {
    forall n | n in t.nodes ensures n !in s.nodes {
      assert n.owner == t;
    }
  }

  class ConfigFile {
    var sections: ConfigSection?
    ghost var list: seq<ConfigSection>
    ghost var contents: seq<Section>
    ghost var itemNodes: set<ConfigItem>

    constructor ()
      ensures Valid() && contents == [] && sections == null && list == [] && itemNodes == {}
    {
      sections, list, contents, itemNodes := null, [], [], {};
    }

    /** The section list, with the first section's head at the last one. */
    ghost predicate Chained(list: seq<ConfigSection>)
      reads `sections, list`next, list`head
    {
      && (sections == null <==> |list| == 0)
      && (|list| > 0 ==> sections == list[0] && list[0].head == list[|list| - 1] && list[|list| - 1].next == null)
      && (forall i {:trigger list[i].next} :: 0 <= i < |list| - 1 ==> list[i].next == list[i + 1])
      && (forall i {:trigger list[i].pos} :: 0 <= i < |list| ==> list[i].pos == i)
    }

    /** Every section holds what contents says. */
    ghost predicate Holds()
      reads `list, `contents, `itemNodes, list, itemNodes
    {
      && |list| == |contents|
      && (forall i {:trigger list[i]} :: 0 <= i < |list| ==>
            (forall n :: n in list[i].nodes ==> n in itemNodes) && list[i].Mirrors(contents[i]))
    }

    ghost predicate Valid()
      reads this, list, itemNodes
    {
      Chained(list) && Holds()
    }

    lemma Links(i: nat)
      requires Valid()
      ensures sections == if |list| > 0 then list[0] else null
      ensures i < |list| ==> list[i].next == if i + 1 < |list| then list[i + 1] else null
    {
    }

    lemma SameLength()
      requires Valid()
      ensures |list| == |contents|
    {
    }

    /** uf_search_confsection. */
    method SearchSection(name: string) returns (section: ConfigSection?)
      requires Valid()
      ensures var i := FindSection(contents, name);
              if i < |contents| then section == list[i] else section == null
    {
      section := sections;
      ghost var i := 0;
      while section != null
        invariant 0 <= i <= |list| && (if i < |list| then section == list[i] else section == null)
        invariant forall j :: 0 <= j < i ==> contents[j].name != name
        decreases |list| - i
      {
        assert list[i].Mirrors(contents[i]);
        if section.sectionname == name {
          FindSectionIs(contents, name, i);
          return;
        }
        section := section.next;
        i := i + 1;
      }
      FindSectionIs(contents, name, |contents|);
    }

    /** g15daemon_cfg_load_section. */
    method LoadSection(name: string) returns (section: ConfigSection)
      requires Valid()
      modifies this, list`next, list`head
      ensures Valid() && contents == Loaded(old(contents), name)
      ensures var i := FindSection(old(contents), name); i < |list| && section == list[i]
      ensures old(list) <= list
      ensures forall s :: s in list ==> s in old(list) || fresh(s)
      ensures itemNodes == old(itemNodes)
    {
      hide FindSection;
      ghost var i := FindSection(contents, name);
      var found := SearchSection(name);
      if found != null {
        return found;
      }
      section := AppendSection(name);
    }

    method AppendSection(name: string) returns (section: ConfigSection)
      requires Valid()
      modifies this, list`next, list`head
      ensures Valid() && contents == old(contents) + [Section(name, [])]
      ensures list == old(list) + [section] && fresh(section) && itemNodes == old(itemNodes)
    {
      hide ConfigSection.Mirrors, Chained;
      section := new ConfigSection(name, |list|);
      ghost var before := list;
      NotYetListed(section);
      Link(section);
      list := list + [section];
      contents := contents + [Section(name, [])];
      forall i {:trigger list[i]} | 0 <= i < |list|
        ensures (forall n :: n in list[i].nodes ==> n in itemNodes) && list[i].Mirrors(contents[i])
      {
        if i < |before| {
          assert list[i] == before[i] && old(before[i].Mirrors(contents[i]));
        }
      }
    }

    lemma NotYetListed(section: ConfigSection)
      requires Chained(list) && section.pos == |list|
      ensures section !in list
    {
    }

    method Link(section: ConfigSection)
      requires Chained(list) && section !in list && section.next == null && section.head == section
      requires section.pos == |list|
      modifies `sections, list`next, list`head, section`head
      ensures Chained(list + [section])
    {
      ghost var before := list;
      if sections == null {
        sections := section;
        sections.head := section;
      } else {
        sections.head.next := section;
        sections.head := section;
      }
      ghost var all := before + [section];
      forall i {:trigger all[i].next} | 0 <= i < |all| - 1 ensures all[i].next == all[i + 1] {
        assert all[i] == before[i] && before[i].pos == i;
        if i < |before| - 1 {
          assert old(before[i].next) == before[i + 1];
        }
      }
    }

    /** g15daemon_cfg_write_string on the i-th section. */
    method WriteString(section: ConfigSection, ghost i: nat, key: string, val: string)
      requires Valid() && i < |list| && section == list[i]
      modifies `contents, `itemNodes, section`items, section`nodes, section`contents
      modifies itemNodes`value, itemNodes`next, itemNodes`head
      ensures Valid() && list == old(list) && fresh(itemNodes - old(itemNodes))
      ensures contents == old(contents)[i := Section(old(contents)[i].name, Written(old(contents)[i].items, key, val))]
    {
      hide Written, ConfigSection.Mirrors, ConfigSection.Valid, Chained;
      Parts(i);
      WriteInto(section, i, key, val);
      contents := contents[i := Section(contents[i].name, section.contents)];
      itemNodes := itemNodes + (set n | n in section.nodes);
      SectionMirrors(section, contents[i]);
    }

    /** The write itself leaves every other section as it was. */
    method WriteInto(section: ConfigSection, ghost i: nat, key: string, val: string)
      requires Holds() && Chained(list) && i < |list| && section == list[i]
      modifies section`items, section`nodes, section`contents, itemNodes`value, itemNodes`next, itemNodes`head
      ensures section.Valid() && section.contents == Written(old(section.contents), key, val)
      ensures forall n :: n in section.nodes ==> n in old(section.nodes) || fresh(n)
      ensures forall j {:trigger list[j]} :: 0 <= j < |list| && j != i ==>
                list[j] != section && list[j].nodes == old(list[j].nodes) && list[j].Mirrors(contents[j])
    {
      hide Written, ConfigSection.Mirrors, ConfigSection.Valid, Chained;
      Parts(i);
      OthersApart(i);
      section.WriteString(key, val);
      forall j {:trigger list[j]} | 0 <= j < |list| && j != i
        ensures list[j] != section && list[j].nodes == old(list[j].nodes) && list[j].Mirrors(contents[j])
      {
        assert old(list[j].Mirrors(contents[j]));
        assert list[j].nodes == old(list[j].nodes);
        assert forall n :: n in list[j].nodes ==> n !in old(section.nodes);
        assert forall n :: n in list[j].nodes ==>
                       n.next == old(n.next) && n.head == old(n.head) && n.value == old(n.value);
        assert list[j].Mirrors(contents[j]);
      }
    }

    lemma SectionMirrors(s: ConfigSection, c: Section)
      requires s.Valid() && c == Section(s.sectionname, s.contents)
      ensures s.Mirrors(c)
    {
    }

    lemma Parts(i: nat)
      requires Valid() && i < |list|
      ensures list[i].Valid() && contents[i] == Section(list[i].sectionname, list[i].contents)
    {
      assert list[i].Mirrors(contents[i]);
    }

    lemma OthersApart(i: nat)
      requires Valid() && i < |list|
      ensures forall j {:trigger list[j]} :: 0 <= j < |list| && j != i ==>
                list[j] != list[i] && forall n :: n in list[j].nodes ==> n !in list[i].nodes
    {
      forall j {:trigger list[j]} | 0 <= j < |list| && j != i
        ensures list[j] != list[i] && forall n :: n in list[j].nodes ==> n !in list[i].nodes
      {
        assert list[j].pos == j && list[i].pos == i;
        Parts(i);
        Parts(j);
        ApartSections(list[i], list[j]);
      }
    }
  }

  /** section is what a search for that name finds, so what g15daemon_cfg_load_section returned for
      it at any time before. */
  ghost predicate Finds(config: ConfigFile, section: ConfigSection?, name: string)
    reads config`list, config`contents
  {
    var i := FindSection(config.contents, name);
    if i < |config.contents| then i < |config.list| && section == config.list[i] else section == null
  }

  lemma StillFinds(before: seq<Section>, name: string, a: Access)
    ensures FindSection(Stepped(before, On(name, a)), name) == FindSection(before, name)
    ensures |Stepped(before, On(name, a))| == |before|
  {
    hide After;
    FindSectionIs(Stepped(before, On(name, a)), name, FindSection(before, name));
  }

  /** Where a step leaves a section that was there before it: where it was. */
  lemma PlaceKept(before: seq<Section>, step: Step, name: string)
    requires FindSection(before, name) < |before|
    ensures FindSection(Stepped(before, step), name) == FindSection(before, name) < |Stepped(before, step)|
  {
    hide KeysKept, Stepped;
    StepKeepsOrder(before, step);
    FindSectionIs(Stepped(before, step), name, FindSection(before, name));
  }

  /** uf_search_confitem for a section of the configuration, or none. */
  method FindItem(config: ConfigFile, section: ConfigSection?, key: string, ghost name: string)
    returns (item: ConfigItem?)
    requires config.Valid() && Finds(config, section, name)
    ensures LookupIn(config.contents, name, key) == if item == null then None else Some(item.value)
  {
    hide FindSection, FindKey, ConfigFile.Valid, ConfigSection.Valid;
    ghost var i := FindSection(config.contents, name);
    config.SameLength();
    if section == null {
      NoKey(key);
      return null;
    }
    config.Parts(i);
    item := section.SearchItem(key);
    ghost var k := FindKey(section.contents, key);
    section.ItemAt(k);
  }

  lemma NoKey(key: string)
    ensures Lookup([], key) == None
  {
  }

  /** g15daemon_cfg_write_string, and through it the typed writes. */
  method CfgWrite(config: ConfigFile, section: ConfigSection?, a: Access, ghost name: string) returns (ret: int)
    requires !IsRead(a) && config.Valid() && Finds(config, section, name)
    modifies config, config.list, config.itemNodes
    ensures config.Valid() && config.contents == Stepped(old(config.contents), On(name, a))
    ensures Finds(config, section, name) && config.list == old(config.list)
    ensures fresh(config.itemNodes - old(config.itemNodes))
    ensures ret == if section == null then -1 else 0
  {
    hide FindSection, Written, TextOf, ConfigFile.Valid;
    StillFinds(config.contents, name, a);
    config.SameLength();
    if section == null {
      return -1;
    }
    config.WriteString(section, FindSection(config.contents, name), a.key, TextOf(a));
    return 0;
  }

  /** What a defaulted read does when the key is not there. */
  method StoreDefault(config: ConfigFile, section: ConfigSection?, write: Access, ghost read: Access,
                      ghost name: string)
    requires !IsRead(write) && IsRead(read) && write.key == read.key && TextOf(write) == TextOf(read)
    requires config.Valid() && Finds(config, section, name) && LookupIn(config.contents, name, read.key) == None
    modifies config, config.list, config.itemNodes
    ensures config.Valid() && config.contents == Stepped(old(config.contents), On(name, read))
    ensures Finds(config, section, name) && config.list == old(config.list)
    ensures fresh(config.itemNodes - old(config.itemNodes))
  {
    hide FindSection, Written, Lookup, TextOf, ConfigFile.Valid;
    var _ := CfgWrite(config, section, write, name);
  }

  /** A read whose key is there changes nothing. */
  lemma PlainRead(sections: seq<Section>, name: string, read: Access)
    requires IsRead(read) && LookupIn(sections, name, read.key).Some?
    ensures Stepped(sections, On(name, read)) == sections
  {
    hide FindSection, Lookup;
  }

  method CfgReadString(config: ConfigFile, section: ConfigSection?, key: string, def: string, ghost name: string)
    returns (text: string)
    requires config.Valid() && Finds(config, section, name)
    modifies config, config.list, config.itemNodes
    ensures config.Valid() && config.contents == Stepped(old(config.contents), On(name, ReadString(key, def)))
    ensures Finds(config, section, name) && config.list == old(config.list)
    ensures fresh(config.itemNodes - old(config.itemNodes))
    ensures var found := LookupIn(old(config.contents), name, key); text == if found.Some? then found.value else def
  {
    hide FindSection, LookupIn, Stepped, ConfigFile.Valid;
    var item := FindItem(config, section, key, name);
    if item != null {
      PlainRead(config.contents, name, ReadString(key, def));
      return item.value;
    }
    StoreDefault(config, section, WriteString(key, def), ReadString(key, def), name);
    return def;
  }

  method CfgReadInt(config: ConfigFile, section: ConfigSection?, key: string, def: int, ghost name: string)
    returns (val: int)
    requires config.Valid() && Finds(config, section, name)
    modifies config, config.list, config.itemNodes
    ensures config.Valid() && config.contents == Stepped(old(config.contents), On(name, ReadInt(key, def)))
    ensures Finds(config, section, name) && config.list == old(config.list)
    ensures fresh(config.itemNodes - old(config.itemNodes))
    ensures var found := LookupIn(old(config.contents), name, key);
            val == if found.Some? then Atoi(found.value) else def
  {
    hide FindSection, LookupIn, Stepped, Atoi, PrintInt, ConfigFile.Valid;
    var item := FindItem(config, section, key, name);
    if item != null {
      PlainRead(config.contents, name, ReadInt(key, def));
      return Atoi(item.value);
    }
    StoreDefault(config, section, WriteInt(key, def), ReadInt(key, def), name);
    return def;
  }

  method CfgReadBool(config: ConfigFile, section: ConfigSection?, key: string, def: int, ghost name: string)
    returns (val: int)
    requires config.Valid() && Finds(config, section, name)
    modifies config, config.list, config.itemNodes
    ensures config.Valid() && config.contents == Stepped(old(config.contents), On(name, ReadBool(key, def)))
    ensures Finds(config, section, name) && config.list == old(config.list)
    ensures fresh(config.itemNodes - old(config.itemNodes))
    ensures var found := LookupIn(old(config.contents), name, key);
            val == if found.Some? then BoolOf(found.value) else def
  {
    hide FindSection, LookupIn, Stepped, BoolOf, BoolText, ConfigFile.Valid;
    var item := FindItem(config, section, key, name);
    if item != null {
      PlainRead(config.contents, name, ReadBool(key, def));
      return BoolOf(item.value);
    }
    StoreDefault(config, section, WriteBool(key, def), ReadBool(key, def), name);
    return def;
  }

  /** An integer written to a section that is there is what any later read of it returns, whatever
      its default, and is stored in decimal. */
  method WriteThenReadInt(config: ConfigFile, section: ConfigSection, key: string, val: int, def: int,
                          ghost name: string)
    returns (got: int)
    requires config.Valid() && Finds(config, section, name)
    modifies config, config.list, config.itemNodes
    ensures got == val && LookupIn(config.contents, name, key) == Some(PrintInt(val))
  {
    hide FindSection, LookupIn, Stepped, Atoi, PrintInt, ConfigFile.Valid, Finds;
    SectionThere(config, section, name);
    StoredInPlace(config.contents, name, key, val, "");
    var _ := CfgWrite(config, section, WriteInt(key, val), name);
    assert forall j {:trigger config.list[j]} :: 0 <= j < |config.list| ==> config.list[j] in config.list;
    PlainRead(config.contents, name, ReadInt(key, def));
    got := CfgReadInt(config, section, key, def, name);
    IntRoundTrip(val);
  }

  /** A boolean comes back as 1 or 0 and is stored as On or Off. */
  method WriteThenReadBool(config: ConfigFile, section: ConfigSection, key: string, val: int, def: int,
                           ghost name: string)
    returns (got: int)
    requires config.Valid() && Finds(config, section, name)
    modifies config, config.list, config.itemNodes
    ensures got == (if val != 0 then 1 else 0)
    ensures LookupIn(config.contents, name, key) == Some(if val != 0 then "On" else "Off")
  {
    hide FindSection, LookupIn, Stepped, BoolOf, PrintInt, ConfigFile.Valid, Finds;
    SectionThere(config, section, name);
    StoredInPlace(config.contents, name, key, val, "");
    var _ := CfgWrite(config, section, WriteBool(key, val), name);
    assert forall j {:trigger config.list[j]} :: 0 <= j < |config.list| ==> config.list[j] in config.list;
    PlainRead(config.contents, name, ReadBool(key, def));
    got := CfgReadBool(config, section, key, def, name);
    CountsAsOn("On");
    CountsAsOn("Off");
  }

  /** A text comes back as it is. */
  method WriteThenReadString(config: ConfigFile, section: ConfigSection, key: string, val: string, def: string,
                             ghost name: string)
    returns (got: string)
    requires config.Valid() && Finds(config, section, name)
    modifies config, config.list, config.itemNodes
    ensures got == val && LookupIn(config.contents, name, key) == Some(val)
  {
    hide FindSection, LookupIn, Stepped, PrintInt, ConfigFile.Valid, Finds;
    SectionThere(config, section, name);
    StoredInPlace(config.contents, name, key, 0, val);
    var _ := CfgWrite(config, section, WriteString(key, val), name);
    assert forall j {:trigger config.list[j]} :: 0 <= j < |config.list| ==> config.list[j] in config.list;
    PlainRead(config.contents, name, ReadString(key, def));
    got := CfgReadString(config, section, key, def, name);
  }

  /** The default of the first read of an integer is what a second read returns, whatever its own. */
  method ReadIntTwice(config: ConfigFile, section: ConfigSection, key: string, first: int, second: int,
                      ghost name: string)
    returns (a: int, b: int)
    requires config.Valid() && Finds(config, section, name)
    modifies config, config.list, config.itemNodes
    ensures a == b && (LookupIn(old(config.contents), name, key) == None ==> a == first)
  {
    hide FindSection, LookupIn, Stepped, Atoi, PrintInt, ConfigFile.Valid, Finds;
    SectionThere(config, section, name);
    StoredInPlace(config.contents, name, key, first, "");
    a := CfgReadInt(config, section, key, first, name);
    assert forall j {:trigger config.list[j]} :: 0 <= j < |config.list| ==> config.list[j] in config.list;
    b := CfgReadInt(config, section, key, second, name);
    IntRoundTrip(first);
  }

  lemma SectionThere(config: ConfigFile, section: ConfigSection, name: string)
    requires config.Valid() && Finds(config, section, name)
    ensures FindSection(config.contents, name) < |config.contents|
  {
    hide FindSection;
  }

  /** StoredTexts for a single access. */
  lemma StoredInPlace(sections: seq<Section>, name: string, key: string, val: int, text: string)
    requires FindSection(sections, name) < |sections|
    ensures LookupIn(Stepped(sections, On(name, WriteInt(key, val))), name, key) == Some(PrintInt(val))
    ensures LookupIn(Stepped(sections, On(name, WriteBool(key, val))), name, key)
         == Some(if val != 0 then "On" else "Off")
    ensures LookupIn(Stepped(sections, On(name, WriteString(key, text))), name, key) == Some(text)
    ensures LookupIn(Stepped(sections, On(name, ReadInt(key, val))), name, key)
         == if LookupIn(sections, name, key).Some? then LookupIn(sections, name, key) else Some(PrintInt(val))
  {
    hide LookupIn, PrintInt, FindSection, Stepped;
    NoSteps(sections);
    OneStep(sections, On(name, WriteInt(key, val)));
    OneStep(sections, On(name, WriteBool(key, val)));
    OneStep(sections, On(name, WriteString(key, text)));
    OneStep(sections, On(name, ReadInt(key, val)));
    StoredTexts(sections, [], name, key, val, text);
  }

  lemma NoSteps(sections: seq<Section>)
    ensures AfterRun(sections, []) == sections
  {
  }

  lemma OneStep(sections: seq<Section>, step: Step)
    ensures AfterRun(sections, [] + [step]) == Stepped(sections, step)
  {
    hide Stepped;
    assert ([] + [step])[..0] == [];
  }

  /** Every section pointer a part of the daemon has kept is still the section of its name. */
  ghost predicate AllKept(config: ConfigFile, kept: map<string, ConfigSection>)
    reads config`list, config`contents
  {
    forall name :: name in kept ==> Finds(config, kept[name], name)
  }

  /** A pointer once given out by g15daemon_cfg_load_section stays good whatever is loaded or
      accessed afterwards. */
  lemma KeptAfter(config: ConfigFile, kept: map<string, ConfigSection>, list: seq<ConfigSection>,
                  contents: seq<Section>, step: Step)
    requires |list| == |contents| && list <= config.list && config.contents == Stepped(contents, step)
    requires forall name :: name in kept ==>
               FindSection(contents, name) < |contents| && kept[name] == list[FindSection(contents, name)]
    requires |config.list| == |config.contents|
    ensures AllKept(config, kept)
  {
    hide Stepped, FindSection;
    forall name | name in kept ensures Finds(config, kept[name], name) {
      PlaceKept(contents, step, name);
    }
  }

  /** One step of a run on the lists. An access uses the pointer kept from loading its section; one
      to a section never asked for looks it up. */
  method TakeStep(config: ConfigFile, step: Step, kept: map<string, ConfigSection>)
    returns (kept': map<string, ConfigSection>)
    requires config.Valid() && AllKept(config, kept)
    modifies config, config.list, config.itemNodes
    ensures config.Valid() && config.contents == Stepped(old(config.contents), step)
    ensures AllKept(config, kept')
    ensures if step.Load? then step.name in kept' && kept' == kept[step.name := kept'[step.name]] else kept' == kept
    ensures old(config.list) <= config.list && forall s :: s in config.list ==> s in old(config.list) || fresh(s)
    ensures fresh(config.itemNodes - old(config.itemNodes))
  {
    hide FindSection, Written, Loaded, After, LookupIn, Atoi, BoolOf, ConfigFile.Valid, AllKept;
    ghost var list, contents := config.list, config.contents;
    config.SameLength();
    KeptNow(config, kept);
    match step
    case Load(name) =>
      var section := config.LoadSection(name);
      config.SameLength();
      KeptAfter(config, kept, list, contents, step);
      JustLoaded(config, contents, name);
      kept' := kept[name := section];
      KeepOneMore(config, kept, name, section);
    case On(name, a) =>
      var section: ConfigSection?;
      if name in kept {
        section := kept[name];
      } else {
        section := config.SearchSection(name);
      }
      match a {
        case ReadString(key, def) => var _ := CfgReadString(config, section, key, def, name);
        case ReadInt(key, def) => var _ := CfgReadInt(config, section, key, def, name);
        case ReadBool(key, def) => var _ := CfgReadBool(config, section, key, def, name);
        case _ => var _ := CfgWrite(config, section, a, name);
      }
      config.SameLength();
      KeptAfter(config, kept, list, contents, step);
      kept' := kept;
  }

  lemma KeptNow(config: ConfigFile, kept: map<string, ConfigSection>)
    requires AllKept(config, kept) && |config.list| == |config.contents|
    ensures forall name :: name in kept ==>
              && Finds(config, kept[name], name)
              && FindSection(config.contents, name) < |config.contents|
              && kept[name] == config.list[FindSection(config.contents, name)]
  {
    hide FindSection;
  }

  lemma JustLoaded(config: ConfigFile, before: seq<Section>, name: string)
    requires config.contents == Loaded(before, name)
    ensures FindSection(config.contents, name) == FindSection(before, name) < |config.contents|
  {
    FindSectionIs(config.contents, name, FindSection(before, name));
  }

  lemma KeepOneMore(config: ConfigFile, kept: map<string, ConfigSection>, name: string, section: ConfigSection)
    requires AllKept(config, kept) && Finds(config, section, name)
    ensures AllKept(config, kept[name := section])
  {
    hide Finds;
  }

  /** A run of loads and accesses on the lists, with every section pointer kept from its first load
      on, does what it does to the value. */
  method TakeSteps(config: ConfigFile, run: seq<Step>)
    requires config.Valid()
    modifies config, config.list, config.itemNodes
    ensures config.Valid() && config.contents == AfterRun(old(config.contents), run)
    ensures old(config.list) <= config.list
  {
    hide Stepped, ConfigFile.Valid;
    var kept: map<string, ConfigSection> := map[];
    for i := 0 to |run|
      invariant config.Valid() && config.contents == AfterRun(old(config.contents), run[..i])
      invariant AllKept(config, kept) && forall name :: name in kept <==> Load(name) in run[..i]
      invariant old(config.list) <= config.list
      invariant forall s :: s in config.list ==> s in old(config.list) || fresh(s)
      invariant fresh(config.itemNodes - old(config.itemNodes))
    {
      assert forall j {:trigger config.list[j]} :: 0 <= j < |config.list| ==> config.list[j] in config.list;
      kept := TakeStep(config, run[i], kept);
      assert run[..i + 1] == run[..i] + [run[i]];
    }
    assert run[..|run|] == run;
  }

  /** The lists hold what a text read as a reader would have them hold. */
  ghost predicate Reflects(config: ConfigFile, section: ConfigSection?, r: Reader)
    reads config, config.list, config.itemNodes
  {
    && config.Valid() && r.sections == config.contents && Sound(r) && !r.stray
    && (section == null <==> r.current == None)
    && (r.current.Some? ==> section == config.list[r.current.value])
  }

  /** Loading the section that the following items belong to. */
  method EnterSection(config: ConfigFile, ghost current: ConfigSection?, name: string, ghost r: Reader)
    returns (section: ConfigSection)
    requires Reflects(config, current, r)
    modifies config, config.list, config.itemNodes
    ensures Reflects(config, section, Enter(r, name))
    ensures forall s :: s in config.list ==> s in old(config.list) || fresh(s)
    ensures config.itemNodes == old(config.itemNodes)
  {
    hide ConfigFile.Valid, FindSection, Loaded;
    section := config.LoadSection(name);
  }

  /** One line of the file, as the loop of uf_conf_open treats it, as far as it stays inside its
      title buffer. */
  method TakeLine(config: ConfigFile, current: ConfigSection?, line: string, ghost r: Reader)
    returns (section: ConfigSection?, stray: bool)
    requires Reflects(config, current, r)
    modifies config, config.list, config.itemNodes
    ensures stray == Take(r, line).stray
    ensures if stray then config.Valid() else Reflects(config, section, Take(r, line))
    ensures forall s :: s in config.list ==> s in old(config.list) || fresh(s)
    ensures fresh(config.itemNodes - old(config.itemNodes))
  {
    hide SkipSpace, Token, RemoveWhitespace, ConfigFile.Valid, FindSection, Written;
    section, stray := current, false;
    config.SameLength();
    var start := line[SkipSpace(line)..];
    if |start| > 0 && start[0] == '#' {
      return;
    }
    if ']' in start {
      if |start| < 2 || |start| - 2 >= TITLE_SIZE {
        return current, true;
      }
      section := EnterSection(config, section, start[1..|start| - 1], r);
    } else {
      ghost var q := r;
      if section == null {
        section := EnterSection(config, section, "Global", r);
        q := Enter(r, "Global");
      }
      var (key, rest) := Token(start);
      var (val, _) := Token(rest);
      assert forall j {:trigger config.list[j]} :: 0 <= j < |config.list| ==> config.list[j] in config.list;
      StoreItem(config, section, RemoveWhitespace(key), RemoveWhitespace(val), q);
    }
  }

  method StoreItem(config: ConfigFile, section: ConfigSection, key: string, val: string, ghost r: Reader)
    requires Reflects(config, section, r)
    modifies config, config.list, config.itemNodes
    ensures Reflects(config, section, Store(r, key, val)) && config.list == old(config.list)
    ensures fresh(config.itemNodes - old(config.itemNodes))
  {
    hide ConfigFile.Valid, Written;
    config.SameLength();
    assert section in config.list;
    config.WriteString(section, r.current.value, key, val);
  }

  /** uf_conf_open: None stands for a file that is not there. */
  method ConfOpen(file: Option<string>) returns (config: ConfigFile, ret: int, stray: bool)
    ensures fresh(config) && fresh(config.itemNodes) && fresh(set s | s in config.list) && config.Valid()
    ensures ret == if file.None? then -1 else 0
    ensures stray <==> file.Some? && ReadConfig(file.value).None?
    ensures !stray ==> config.contents == if file.None? then [] else ReadConfig(file.value).value
  {
    hide Take, ConfigFile.Valid, LineEnd;
    config := new ConfigFile();
    if file.None? {
      return config, -1, false;
    }
    var rest := file.value;
    var section: ConfigSection? := null;
    ghost var r := EMPTY;
    stray := false;
    while |rest| > 0
      invariant fresh(config) && fresh(config.itemNodes) && fresh(set s | s in config.list)
      invariant Reflects(config, section, r) && Read(r, rest) == Read(EMPTY, file.value)
      decreases |rest|
    {
      if rest[0] == '\n' {
        rest := rest[1..];
      } else {
        var line := rest[..LineEnd(rest)];
        rest := rest[LineEnd(rest)..];
        section, stray := TakeLine(config, section, line, r);
        r := Take(r, line);
        if stray {
          StaysStray(r, rest);
          return config, 0, true;
        }
      }
    }
    return config, 0, false;
  }

  /** uf_conf_write: the text that goes to the file. */
  method ConfWrite(config: ConfigFile) returns (file: string)
    requires config.Valid()
    ensures file == PrintConfig(config.contents)
  {
    hide Clip, PrintSections, PrintItems, Banner, ConfigSection.Valid, ConfigFile.Holds, ConfigFile.Chained;
    file := Banner();
    var foo := config.sections;
    ghost var i, all := 0, config.contents;
    config.Links(0);
    config.SameLength();
    assert all[0..] == all;
    while foo != null
      invariant 0 <= i <= |config.list| == |all| && (if i < |config.list| then foo == config.list[i] else foo == null)
      invariant file + PrintSections(all[i..]) == PrintConfig(all)
      decreases |config.list| - i
    {
      config.Parts(i);
      config.Links(i);
      PrintNextSection(all, i);
      var title := Clip("\n[" + foo.sectionname + "]\n");
      var lines := WriteItems(foo);
      Join(file, title, lines, PrintSections(all[i + 1..]));
      file := file + title + lines;
      foo := foo.next;
      i := i + 1;
    }
    PrintNoSections();
    assert all[i..] == [] && file + "" == file;
  }

  lemma Join(a: string, b: string, c: string, d: string)
    ensures a + (b + c + d) == a + b + c + d
  {
  }

  lemma PrintNextSection(all: seq<Section>, i: nat)
    requires i < |all|
    ensures PrintSections(all[i..])
       == Clip("\n[" + all[i].name + "]\n") + PrintItems(all[i].items) + PrintSections(all[i + 1..])
  {
    assert all[i..][1..] == all[i + 1..];
  }

  lemma PrintNoSections()
    ensures PrintSections([]) == ""
  {
  }

  /** The inner loop of uf_conf_write. */
  method WriteItems(section: ConfigSection) returns (lines: string)
    requires section.Valid()
    ensures lines == PrintItems(section.contents)
  {
    hide Clip, PrintItems, ConfigSection.Valid;
    lines := "";
    var item := section.items;
    ghost var i, all := 0, section.contents;
    section.ItemAt(0);
    assert all[0..] == all;
    while item != null
      invariant 0 <= i <= |section.nodes| == |all|
      invariant if i < |section.nodes| then item == section.nodes[i] else item == null
      invariant lines + PrintItems(all[i..]) == PrintItems(all)
      decreases |section.nodes| - i
    {
      section.ItemAt(i);
      PrintNextItem(all, i);
      var line := if |item.key| > 0 && item.key[0] == ';' then item.key + "\n" else item.key + ": " + item.value + "\n";
      assert lines + (Clip(line) + PrintItems(all[i + 1..])) == lines + Clip(line) + PrintItems(all[i + 1..]);
      lines := lines + Clip(line);
      item := item.next;
      i := i + 1;
    }
    PrintNoItems();
    assert all[i..] == [] && lines + "" == lines;
  }

  lemma PrintNextItem(all: seq<Item>, i: nat)
    requires i < |all|
    ensures PrintItems(all[i..]) == Clip(ItemLine(all[i]) + "\n") + PrintItems(all[i + 1..])
  {
    assert all[i..][1..] == all[i + 1..];
  }

  lemma PrintNoItems()
    ensures PrintItems([]) == ""
  {
  }

  /** The daemon's own use of its configuration: opened at the start, asked and written by the daemon
      and its plugins in any order, and saved at the end. */
  method OpenUseSave(file: Option<string>, run: seq<Step>) returns (saved: Option<string>)
    ensures saved == if file.None? then Some(PrintConfig(AfterRun([], run)))
                     else if ReadConfig(file.value).None? then None
                     else Some(PrintConfig(AfterRun(ReadConfig(file.value).value, run)))
  {
    hide ReadConfig, PrintConfig, AfterRun, ConfigFile.Valid;
    var config, _, stray := ConfOpen(file);
    if stray {
      return None;
    }
    TakeSteps(config, run);
    var text := ConfWrite(config);
    return Some(text);
  }
}
