/** The macro recorder's file: dump_config and restore_v1_config. */
module MacroFile {
  import opened Options
  import opened Numerals

  const MKEYS := 3
  const GKEYS := 18
  const MAX_KEYSTEPS := 1024
  const LINE_SIZE := 1024
  const CODESTR_SIZE := 64
  const UINT := 0x1_0000_0000

  datatype Step = Step(keycode: nat, pressed: bool, modifiers: nat)

  type Macro = seq<Step>
  type Macros = seq<seq<Macro>>

  predicate Shaped(m: Macros) {
    |m| == MKEYS && forall i :: 0 <= i < MKEYS ==> |m[i]| == GKEYS
  }

  /** X11's tables: the printed name of a keycode, the keycode for a name, and the names of the 54
      default keysyms. */
  datatype Names = Names(name: nat -> string, code: string -> nat, default_: nat -> string)

  // ---- printing ----

  function StepLine(names: Names, s: Step): string {
    "\t" + names.name(s.keycode) + " " + (if s.pressed then "Down" else "Up") + " "
      + PrintNat(s.modifiers % UINT) + "\n"
  }

  function StepsText(names: Names, steps: Macro, n: nat): string
    requires n <= |steps|
  {
    if n == 0 then "" else StepsText(names, steps, n - 1) + StepLine(names, steps[n - 1])
  }

  /** calc_mkey_offset. */
  function MkeyOffset(mkeyState: int): nat {
    if mkeyState == 1 then 18 else if mkeyState == 2 then 36 else 0
  }

  /** The heading of key g, with the default keysym on the same line when nothing is recorded. */
  function KeyLine(names: Names, m: nat, g: nat, steps: Macro): string {
    "Key G" + PrintNat(g + 1) + ":" + (if |steps| == 0 then "\t" + names.default_(g + MkeyOffset(m)) else "") + "\n"
  }

  function KeyText(names: Names, m: nat, g: nat, steps: Macro): string {
    KeyLine(names, m, g, steps) + StepsText(names, steps, |steps|)
  }

  /** The first n keys of page m. */
  function KeysText(names: Names, macros: Macros, m: nat, n: nat): string
    requires Shaped(macros) && m < MKEYS && n <= GKEYS
  {
    if n == 0 then "" else KeysText(names, macros, m, n - 1) + KeyText(names, m, n - 1, macros[m][n - 1])
  }

  function CodesLine(m: nat): string {
    "Codes for MKey " + PrintNat(m + 1) + "\n"
  }

  function PageText(names: Names, macros: Macros, m: nat): string
    requires Shaped(macros) && m < MKEYS
  {
    (if m > 0 then "\n\n" else "") + CodesLine(m) + KeysText(names, macros, m, GKEYS)
  }

  function DumpText(names: Names, macros: Macros, n: nat): string
    requires Shaped(macros) && n <= MKEYS
  {
    if n == 0 then "" else DumpText(names, macros, n - 1) + PageText(names, macros, n - 1)
  }

  // ---- reading ----

  /** fgets: up to and including the first newline, at most LINE_SIZE - 1 characters. */
  function FgetsLength(text: string, room: nat): (n: nat)
    ensures n <= |text| && n <= room
    ensures |text| > 0 && room > 0 ==> n > 0
  {
    if |text| == 0 || room == 0 then 0
    else if text[0] == '\n' then 1
    else 1 + FgetsLength(text[1..], room - 1)
  }

  /** A literal of a scanf format. */
  function Literal(s: Option<string>, lit: string): Option<string> {
    if s.Some? && lit <= s.value then Some(s.value[|lit|..]) else None
  }

  /** White space in a scanf format. */
  function Blank(s: Option<string>): Option<string> {
    if s.Some? then Some(s.value[SkipSpace(s.value)..]) else None
  }

  /** A decimal %i. */
  function Number(s: Option<string>): Option<int> {
    var t := Blank(s);
    if t.None? then None
    else if |t.value| > 0 && t.value[0] == '-' then
      (if DigitRun(t.value[1..]) > 0 then Some(0 - Unsigned(t.value[1..])) else None)
    else if DigitRun(t.value) > 0 then Some(Unsigned(t.value)) else None
  }

  function WordLength(s: string): (n: nat)
    ensures n <= |s|
  {
    if |s| > 0 && !IsSpace(s[0]) then 1 + WordLength(s[1..]) else 0
  }

  /** A %s: the word and what follows it. */
  function Word(s: Option<string>): Option<(string, string)> {
    var t := Blank(s);
    if t.None? || WordLength(t.value) == 0 then None
    else Some((t.value[..WordLength(t.value)], t.value[WordLength(t.value)..]))
  }

  /** The variables of restore_v1_config. stray: a line led outside the tables or left a variable
      without a value; what the code does from there on is not followed. */
  datatype Reader = Reader(macros: Macros, mkey: nat, key: nat, i: nat, stray: bool)

  function Or(n: Option<int>, old_: nat): nat {
    ((if n.Some? then n.value else old_) - 1) % UINT
  }

  function Take(names: Names, r: Reader, line: string): Reader
    requires Shaped(r.macros)
  {
    if |line| == 0 || r.stray then r
    else if line[0] == 'C' then
      var n := Number(Blank(Literal(Blank(Literal(Blank(Literal(Some(line), "Codes")), "for")), "MKey")));
      r.(mkey := Or(n, r.mkey), i := 0)
    else if line[0] == 'K' then
      var n := Number(Literal(Blank(Literal(Some(line), "Key")), "G"));
      r.(key := Or(n, r.key), i := 0)
    else if line[0] == '\t' then
      var w1 := Word(Some(line));
      var w2 := if w1.Some? then Word(Some(w1.value.1)) else None;
      if w2.None? || r.mkey >= MKEYS || r.key >= GKEYS || r.i >= MAX_KEYSTEPS then r.(stray := true)
      else
        var n := Number(Some(w2.value.1));
        var step := Step(names.code(w1.value.0), !("Up" <= w2.value.0), (if n.Some? then n.value else 0) % UINT);
        StoreStep(r, step)
    else r
  }

  function StoreStep(r: Reader, step: Step): (r': Reader)
    requires Shaped(r.macros) && r.mkey < MKEYS && r.key < GKEYS
    ensures Shaped(r'.macros)
  {
    var page := r.macros[r.mkey];
    var done := if r.i <= |page[r.key]| then page[r.key][..r.i] else page[r.key];
    r.(macros := r.macros[r.mkey := page[r.key := done + [step]]], i := r.i + 1)
  }

  lemma TakeShaped(names: Names, r: Reader, line: string)
    requires Shaped(r.macros)
    ensures Shaped(Take(names, r, line).macros)
  {
    hide Number, Blank, Literal, Word, StoreStep;
  }

  function Restore(names: Names, r: Reader, text: string): Reader
    requires Shaped(r.macros)
    decreases |text|
  {
    if |text| == 0 then r
    else
      var n := FgetsLength(text, LINE_SIZE - 1);
      TakeShaped(names, r, text[..n]);
      Restore(names, Take(names, r, text[..n]), text[n..])
  }

  /** Empty tables. */
  function NoMacros(): (m: Macros)
    ensures Shaped(m) && forall p, g :: 0 <= p < MKEYS && 0 <= g < GKEYS ==> m[p][g] == []
  {
    seq(MKEYS, _ => seq(GKEYS, _ => []))
  }

  // ---- the recorder ----

  class Recorder {
    var mkeyState: int
    var mstates: Macros

    constructor ()
      ensures mkeyState == 0 && mstates == NoMacros()
    {
      mkeyState, mstates := 0, NoMacros();
    }

    /** dump_config: runs the global mkey_state over the three pages and puts it back. */
    method DumpConfig(names: Names) returns (configfile: string)
      requires Shaped(mstates)
      modifies this
      ensures mkeyState == old(mkeyState) && mstates == old(mstates)
      ensures configfile == DumpText(names, mstates, MKEYS)
    {
      hide CodesLine, KeysText, KeyText;
      configfile := "";
      var origMkeystate := mkeyState;
      mkeyState := 0;
      while mkeyState < MKEYS
        invariant 0 <= mkeyState <= MKEYS && mstates == old(mstates)
        invariant configfile == DumpText(names, mstates, mkeyState)
        decreases MKEYS - mkeyState
      {
        ghost var before := configfile;
        var page := if mkeyState > 0 then "\n\n" else "";
        page := page + CodesLine(mkeyState);
        var keys := DumpKeys(names);
        page := page + keys;
        assert page == PageText(names, mstates, mkeyState);
        configfile := configfile + page;
        mkeyState := mkeyState + 1;
      }
      mkeyState := origMkeystate;
    }

    /** The loop over the keys of the current page. */
    method DumpKeys(names: Names) returns (text: string)
      requires Shaped(mstates) && 0 <= mkeyState < MKEYS
      ensures text == KeysText(names, mstates, mkeyState, GKEYS)
    {
      hide StepLine, MkeyOffset;
      text := "";
      for gkey := 0 to GKEYS
        invariant text == KeysText(names, mstates, mkeyState, gkey)
      {
        var steps := mstates[mkeyState][gkey];
        var key := "Key G" + PrintNat(gkey + 1) + ":";
        if |steps| == 0 {
          key := key + ("\t" + names.default_(gkey + MkeyOffset(mkeyState))) + "\n";
          assert key == KeyLine(names, mkeyState, gkey, steps);
          assert key + "" == key;
        } else {
          key := key + "" + "\n";
          assert key == KeyLine(names, mkeyState, gkey, steps);
          var lines := DumpSteps(names, steps);
          key := key + lines;
        }
        assert key == KeyText(names, mkeyState, gkey, steps);
        text := text + key;
      }
    }

    method DumpSteps(names: Names, steps: Macro) returns (lines: string)
      ensures lines == StepsText(names, steps, |steps|)
    {
      hide StepLine;
      lines := "";
      for i := 0 to |steps|
        invariant lines == StepsText(names, steps, i)
      {
        lines := lines + StepLine(names, steps[i]);
      }
    }

    /** restore_v1_config, as far as it stays inside its tables. */
    method RestoreV1(names: Names, file: string) returns (stray: bool)
      requires Shaped(mstates)
      modifies `mstates
      ensures var r := Restore(names, Reader(old(mstates), 0, 0, 0, false), file);
              stray == r.stray && mstates == r.macros && Shaped(mstates)
    {
      hide FgetsLength, Number, Blank, Literal, Word, Or, StoreStep, Shaped;
      var rest := file;
      var key: nat, mkey: nat, i: nat := 0, 0, 0;
      stray := false;
      while |rest| > 0
        invariant Shaped(mstates)
        invariant Restore(names, Reader(mstates, mkey, key, i, stray), rest)
               == Restore(names, Reader(old(mstates), 0, 0, 0, false), file)
        invariant !stray
        decreases |rest|
      {
        ghost var r := Reader(mstates, mkey, key, i, false);
        var n := FgetsLength(rest, LINE_SIZE - 1);
        var line := rest[..n];
        TakeShaped(names, r, line);
        rest := rest[n..];
        if line[0] == 'C' {
          mkey := Or(Number(Blank(Literal(Blank(Literal(Blank(Literal(Some(line), "Codes")), "for")), "MKey"))), mkey);
          i := 0;
        }
        if line[0] == 'K' {
          key := Or(Number(Literal(Blank(Literal(Some(line), "Key")), "G")), key);
          i := 0;
        }
        if line[0] == '\t' {
          var codestr := Word(Some(line));
          var pressed := if codestr.Some? then Word(Some(codestr.value.1)) else None;
          if pressed.None? || mkey >= MKEYS || key >= GKEYS || i >= MAX_KEYSTEPS {
            StaysStray(names, Take(names, r, line), rest);
            return true;
          }
          var modifiers := Number(Some(pressed.value.1));
          var step := Step(names.code(codestr.value.0), !("Up" <= pressed.value.0),
                           (if modifiers.Some? then modifiers.value else 0) % UINT);
          RecordStep(mkey, key, i, step);
          i := i + 1;
        }
        assert Reader(mstates, mkey, key, i, false) == Take(names, r, line);
      }
    }

    /** The i-th step of a key's sequence, which ends there for now. */
    method RecordStep(mkey: nat, key: nat, i: nat, step: Step)
      requires Shaped(mstates) && mkey < MKEYS && key < GKEYS
      modifies `mstates
      ensures Reader(mstates, mkey, key, i + 1, false) == StoreStep(Reader(old(mstates), mkey, key, i, false), step)
      ensures Shaped(mstates)
    {
      var page := mstates[mkey];
      var sequence := page[key];
      if i <= |sequence| {
        sequence := sequence[..i];
      }
      mstates := mstates[mkey := page[key := sequence + [step]]];
    }
  }

  lemma {:induction false} StaysStray(names: Names, r: Reader, text: string)
    requires Shaped(r.macros) && r.stray
    ensures Restore(names, r, text) == r
    decreases |text|
  {
    if |text| > 0 {
      var n := FgetsLength(text, LINE_SIZE - 1);
      StaysStray(names, r, text[n..]);
    }
  }

  // ---- the round trip ----

  /** A name scanf reads as one word into its buffer. */
  predicate IsWord(s: string) {
    0 < |s| < CODESTR_SIZE && forall i :: 0 <= i < |s| ==> !IsSpace(s[i])
  }

  /** The names X11 gives can be written in the file: words for the keycodes in use, one line for
      the defaults. */
  ghost predicate Writable(names: Names, macros: Macros)
    requires Shaped(macros)
  {
    && (forall k :: 0 <= k < MKEYS * GKEYS ==> WritableDefault(names.default_(k)))
    && (forall m, g :: 0 <= m < MKEYS && 0 <= g < GKEYS ==> WritableSteps(names, macros[m][g]))
  }

  predicate WritableDefault(name: string) {
    |name| < 900 && forall i :: 0 <= i < |name| ==> name[i] != '\n'
  }

  ghost predicate WritableSteps(names: Names, steps: Macro) {
    |steps| <= MAX_KEYSTEPS && forall i :: 0 <= i < |steps| ==> IsWord(names.name(steps[i].keycode))
  }

  /** What a step becomes: its keycode by way of its name, its modifiers cut to 32 bits. */
  function Kept(names: Names, s: Step): Step {
    Step(names.code(names.name(s.keycode)), s.pressed, s.modifiers % UINT)
  }

  function KeptSteps(names: Names, steps: Macro): Macro {
    seq(|steps|, i requires 0 <= i < |steps| => Kept(names, steps[i]))
  }

  function KeptMacros(names: Names, macros: Macros): Macros
    requires Shaped(macros)
  {
    seq(MKEYS, m requires 0 <= m < MKEYS => seq(GKEYS, g requires 0 <= g < GKEYS => KeptSteps(names, macros[m][g])))
  }

  lemma {:induction false} FgetsLine(line: string, rest: string, room: nat)
    requires |line| + 1 <= room && forall i :: 0 <= i < |line| ==> line[i] != '\n'
    ensures FgetsLength(line + "\n" + rest, room) == |line| + 1
  {
    var text := line + "\n" + rest;
    if |line| > 0 {
      assert text[1..] == line[1..] + "\n" + rest;
      FgetsLine(line[1..], rest, room - 1);
    }
  }

  predicate OneLine(line: string) {
    |line| + 1 < LINE_SIZE && forall i :: 0 <= i < |line| ==> line[i] != '\n'
  }

  lemma RestoresLine(names: Names, r: Reader, line: string, rest: string)
    requires Shaped(r.macros) && OneLine(line)
    ensures Shaped(Take(names, r, line + "\n").macros)
    ensures Restore(names, r, line + "\n" + rest) == Restore(names, Take(names, r, line + "\n"), rest)
  {
    hide Take;
    var text := line + "\n" + rest;
    FgetsLine(line, rest, LINE_SIZE - 1);
    TakeShaped(names, r, line + "\n");
    assert text[..|line| + 1] == line + "\n" && text[|line| + 1..] == rest;
  }

  lemma DigitsAreNoSpace(n: nat)
    ensures forall i :: 0 <= i < |PrintNat(n)| ==> PrintNat(n)[i] != '\n' && !IsSpace(PrintNat(n)[i])
  {
  }

  /** A number at the beginning of what is left of a line. */
  lemma NumberRead(n: nat, rest: string)
    requires |rest| > 0 && !IsDigit(rest[0])
    ensures Number(Some(PrintNat(n) + rest)) == Some(n)
  {
    var s := PrintNat(n) + rest;
    DigitsAreNoSpace(n);
    assert s[0] == PrintNat(n)[0];
    assert SkipSpace(s) == 0 && s[0..] == s;
    WholeRun(PrintNat(n), rest);
    UnsignedPrinted(n, rest);
  }

  lemma LiteralRead(lit: string, rest: string)
    ensures Literal(Some(lit + rest), lit) == Some(rest)
  {
    assert (lit + rest)[|lit|..] == rest;
  }

  lemma BlankRead(rest: string)
    requires |rest| > 0 && !IsSpace(rest[0])
    ensures Blank(Some(" " + rest)) == Some(rest) && Blank(Some(rest)) == Some(rest)
  {
    assert (" " + rest)[1..] == rest;
  }

  lemma BlankThenNumber(n: nat, rest: string)
    requires |rest| > 0 && !IsDigit(rest[0])
    ensures Number(Blank(Some(" " + PrintNat(n) + rest))) == Some(n)
    ensures Number(Some(" " + PrintNat(n) + rest)) == Some(n)
  {
    hide Number, PrintNat;
    var s := PrintNat(n) + rest;
    assert " " + PrintNat(n) + rest == " " + s;
    DigitsAreNoSpace(n);
    FirstOfNumber(n, rest);
    BlankRead(s);
    NumberRead(n, rest);
    NumberSkipsBlank(s);
  }

  lemma FirstOfNumber(n: nat, rest: string)
    ensures |PrintNat(n) + rest| > 0 && !IsSpace((PrintNat(n) + rest)[0])
  {
    DigitsAreNoSpace(n);
  }

  lemma NumberSkipsBlank(s: string)
    requires |s| > 0 && !IsSpace(s[0])
    ensures Number(Some(" " + s)) == Number(Some(s))
  {
    BlankRead(s);
  }

  /** A heading for page m + 1 makes page m the current one. */
  lemma CodesRead(names: Names, r: Reader, m: nat)
    requires Shaped(r.macros) && m < UINT && !r.stray
    ensures Take(names, r, "Codes for MKey " + PrintNat(m + 1) + "\n") == r.(mkey := m, i := 0)
  {
    hide Number, Literal, Blank, PrintNat, Take;
    var number := PrintNat(m + 1);
    var line := "Codes for MKey " + number + "\n";
    CodesWords(number);
    CodesScanned(" " + number + "\n");
    BlankThenNumber(m + 1, "\n");
    CodesTaken(names, r, line, m);
  }

  lemma CodesWords(number: string)
    ensures "Codes for MKey " + number + "\n"
         == "Codes" + (" " + ("for" + (" " + ("MKey" + (" " + number + "\n")))))
  {
  }

  /** The words of a page heading, read one after the other. */
  lemma CodesScanned(after: string)
    ensures
      var line := "Codes" + (" " + ("for" + (" " + ("MKey" + after))));
      Literal(Blank(Literal(Blank(Literal(Some(line), "Codes")), "for")), "MKey") == Some(after)
  {
    hide Literal, Blank;
    LiteralRead("Codes", " " + ("for" + (" " + ("MKey" + after))));
    BlankRead("for" + (" " + ("MKey" + after)));
    LiteralRead("for", " " + ("MKey" + after));
    BlankRead("MKey" + after);
    LiteralRead("MKey", after);
  }

  lemma CodesTaken(names: Names, r: Reader, line: string, m: nat)
    requires Shaped(r.macros) && m < UINT && !r.stray && |line| > 0 && line[0] == 'C'
    requires Number(Blank(Literal(Blank(Literal(Blank(Literal(Some(line), "Codes")), "for")), "MKey"))) == Some(m + 1)
    ensures Take(names, r, line) == r.(mkey := m, i := 0)
  {
    hide Number, Literal, Blank;
  }

  lemma KeyRead(names: Names, r: Reader, m: nat, g: nat, steps: Macro)
    requires Shaped(r.macros) && g < GKEYS && !r.stray
    ensures Take(names, r, KeyLine(names, m, g, steps)) == r.(key := g, i := 0)
  {
    hide Take, PrintNat;
    var tail := ":" + (if |steps| == 0 then "\t" + names.default_(g + MkeyOffset(m)) else "") + "\n";
    assert KeyLine(names, m, g, steps) == "Key G" + PrintNat(g + 1) + tail;
    HeadingRead(names, r, g, tail);
  }

  /** A heading for key g + 1 makes key g the current one, whatever stands behind the number. */
  lemma HeadingRead(names: Names, r: Reader, g: nat, tail: string)
    requires Shaped(r.macros) && g < UINT && !r.stray && |tail| > 0 && !IsDigit(tail[0])
    ensures Take(names, r, "Key G" + PrintNat(g + 1) + tail) == r.(key := g, i := 0)
  {
    hide Number, Literal, Blank, PrintNat;
    var number := PrintNat(g + 1) + tail;
    var line := "Key G" + PrintNat(g + 1) + tail;
    assert line == "Key" + (" " + ("G" + number));
    LiteralRead("Key", " " + ("G" + number));
    BlankRead("G" + number);
    LiteralRead("G", number);
    NumberRead(g + 1, tail);
  }

  lemma {:induction false} WordEnds(word: string, rest: string)
    requires forall i :: 0 <= i < |word| ==> !IsSpace(word[i])
    requires |rest| > 0 && IsSpace(rest[0])
    ensures WordLength(word + rest) == |word|
  {
    if |word| > 0 {
      assert (word + rest)[1..] == word[1..] + rest;
      WordEnds(word[1..], rest);
    }
  }

  lemma WordRead(space: char, word: string, rest: string)
    requires IsSpace(space) && |word| > 0 && forall i :: 0 <= i < |word| ==> !IsSpace(word[i])
    requires |rest| > 0 && IsSpace(rest[0])
    ensures Word(Some([space] + word + rest)) == Some((word, rest))
  {
    var s := [space] + word + rest;
    assert s[1..] == word + rest && (word + rest)[0] == word[0];
    assert SkipSpace(word + rest) == 0;
    assert SkipSpace(s) == 1;
    WordEnds(word, rest);
    assert (word + rest)[..|word|] == word && (word + rest)[|word|..] == rest;
  }

  lemma StepRead(names: Names, r: Reader, s: Step)
    requires Shaped(r.macros) && !r.stray && r.mkey < MKEYS && r.key < GKEYS && r.i < MAX_KEYSTEPS
    requires IsWord(names.name(s.keycode))
    ensures Take(names, r, StepLine(names, s)) == StoreStep(r, Kept(names, s))
  {
    hide Number, Word, PrintNat, StoreStep;
    var name := names.name(s.keycode);
    var press := if s.pressed then "Down" else "Up";
    var end := " " + PrintNat(s.modifiers % UINT) + "\n";
    var middle := " " + press + end;
    var line := StepLine(names, s);
    assert line == "\t" + name + middle;
    WordRead('\t', name, middle);
    WordRead(' ', press, end);
    BlankThenNumber(s.modifiers % UINT, "\n");
    assert "Up" <= press <==> !s.pressed by {
      assert "Down"[0] != "Up"[0];
    }
  }

  function Pow10(d: nat): nat {
    if d == 0 then 1 else 10 * Pow10(d - 1)
  }

  lemma {:induction false} PrintLength(n: nat, d: nat)
    requires 1 <= d && n < Pow10(d)
    ensures |PrintNat(n)| <= d
  {
    if d > 1 && n >= 10 {
      PrintLength(n / 10, d - 1);
    }
  }

  lemma ShortNumber(n: nat)
    requires n < UINT
    ensures |PrintNat(n)| <= 10
  {
    assert Pow10(4) == 10000;
    assert Pow10(8) == 100000000;
    assert Pow10(10) == 10000000000;
    PrintLength(n, 10);
  }

  lemma StepIsLine(names: Names, s: Step) returns (body: string)
    requires IsWord(names.name(s.keycode))
    ensures StepLine(names, s) == body + "\n" && OneLine(body)
  {
    var number := PrintNat(s.modifiers % UINT);
    ShortNumber(s.modifiers % UINT);
    DigitsAreNoSpace(s.modifiers % UINT);
    var name := names.name(s.keycode);
    assert forall i :: 0 <= i < |name| ==> name[i] != '\n';
    body := "\t" + name + " " + (if s.pressed then "Down" else "Up") + " " + number;
  }

  lemma CodesIsLine(m: nat) returns (body: string)
    requires m < MKEYS
    ensures CodesLine(m) == body + "\n" && OneLine(body)
  {
    ShortNumber(m + 1);
    DigitsAreNoSpace(m + 1);
    body := "Codes for MKey " + PrintNat(m + 1);
  }

  lemma KeyIsLine(names: Names, macros: Macros, m: nat, g: nat) returns (body: string)
    requires Shaped(macros) && Writable(names, macros) && m < MKEYS && g < GKEYS
    ensures KeyLine(names, m, g, macros[m][g]) == body + "\n" && OneLine(body)
  {
    ShortNumber(g + 1);
    DigitsAreNoSpace(g + 1);
    var name := names.default_(g + MkeyOffset(m));
    assert g + MkeyOffset(m) < MKEYS * GKEYS;
    body := "Key G" + PrintNat(g + 1) + ":" + (if |macros[m][g]| == 0 then "\t" + name else "");
  }

  /** The tables with entry (m, g) replaced. */
  function WithMacro(macros: Macros, m: nat, g: nat, steps: Macro): (r: Macros)
    requires Shaped(macros) && m < MKEYS && g < GKEYS
    ensures Shaped(r)
  {
    macros[m := macros[m][g := steps]]
  }

  function AfterSteps(names: Names, r: Reader, steps: Macro, n: nat): (r': Reader)
    requires Shaped(r.macros) && r.mkey < MKEYS && r.key < GKEYS && n <= |steps|
    ensures Shaped(r'.macros)
  {
    if n == 0 then r
    else r.(macros := WithMacro(r.macros, r.mkey, r.key, KeptSteps(names, steps)[..n]), i := n)
  }

  lemma {:induction false} StepsRestored(names: Names, r: Reader, steps: Macro, n: nat, rest: string)
    requires Shaped(r.macros) && !r.stray && r.mkey < MKEYS && r.key < GKEYS && r.i == 0
    requires WritableSteps(names, steps) && n <= |steps|
    ensures Restore(names, r, StepsText(names, steps, n) + rest) == Restore(names, AfterSteps(names, r, steps, n), rest)
  {
    hide Restore, StepLine, Take, Kept;
    if n == 0 {
      assert "" + rest == rest;
    } else {
      var s := steps[n - 1];
      var line := StepLine(names, s);
      StepsRestored(names, r, steps, n - 1, line + rest);
      assert StepsText(names, steps, n) + rest == StepsText(names, steps, n - 1) + (line + rest);
      var before := AfterSteps(names, r, steps, n - 1);
      var body := StepIsLine(names, s);
      assert line + rest == body + "\n" + rest;
      RestoresLine(names, before, body, rest);
      StepRead(names, before, s);
      StoreNext(names, r, steps, n);
    }
  }

  lemma StoreNext(names: Names, r: Reader, steps: Macro, n: nat)
    requires Shaped(r.macros) && r.mkey < MKEYS && r.key < GKEYS && r.i == 0 && 0 < n <= |steps|
    ensures StoreStep(AfterSteps(names, r, steps, n - 1), Kept(names, steps[n - 1])) == AfterSteps(names, r, steps, n)
  {
    hide Kept;
    var kept := KeptSteps(names, steps);
    var before := AfterSteps(names, r, steps, n - 1);
    var page, first := before.macros[r.mkey], r.macros[r.mkey];
    assert kept[..n - 1] + [kept[n - 1]] == kept[..n];
    if n == 1 {
      assert page[r.key][..0] + [kept[0]] == kept[..1];
    } else {
      assert page == first[r.key := kept[..n - 1]];
      assert page[r.key][..n - 1] == kept[..n - 1];
      assert page[r.key := kept[..n]] == first[r.key := kept[..n]];
      assert before.macros[r.mkey := page[r.key := kept[..n]]] == r.macros[r.mkey := first[r.key := kept[..n]]];
    }
  }

  /** The tables when the pages before m and the first n keys of page m have been restored. */
  function Filled(names: Names, macros: Macros, m: nat, n: nat): (r: Macros)
    requires Shaped(macros)
    ensures Shaped(r)
  {
    seq(MKEYS, p requires 0 <= p < MKEYS =>
      seq(GKEYS, g requires 0 <= g < GKEYS =>
                 if p < m || (p == m && g < n) then KeptSteps(names, macros[p][g]) else []))
  }

  lemma FilledNext(names: Names, macros: Macros, m: nat, n: nat)
    requires Shaped(macros) && m < MKEYS && n < GKEYS
    ensures WithMacro(Filled(names, macros, m, n), m, n, KeptSteps(names, macros[m][n]))
       == Filled(names, macros, m, n + 1)
    ensures |macros[m][n]| == 0 ==> Filled(names, macros, m, n) == Filled(names, macros, m, n + 1)
  {
    hide Kept;
    var before, after := Filled(names, macros, m, n), Filled(names, macros, m, n + 1);
    assert forall p :: 0 <= p < MKEYS && p != m ==> before[p] == after[p];
    assert before[m][n := KeptSteps(names, macros[m][n])] == after[m];
    if |macros[m][n]| == 0 {
      assert KeptSteps(names, macros[m][n]) == [];
      assert before[m] == after[m];
    }
  }

  function AfterKeys(names: Names, macros: Macros, r: Reader, n: nat): Reader
    requires Shaped(macros) && r.mkey < MKEYS && n <= GKEYS
  {
    if n == 0 then r
    else r.(macros := Filled(names, macros, r.mkey, n), key := n - 1, i := |macros[r.mkey][n - 1]|)
  }

  lemma KeyRestored(names: Names, macros: Macros, r: Reader, n: nat, rest: string)
    requires Shaped(macros) && Writable(names, macros) && n < GKEYS
    requires r.mkey < MKEYS && !r.stray && r.macros == Filled(names, macros, r.mkey, n)
    ensures Restore(names, r, KeyText(names, r.mkey, n, macros[r.mkey][n]) + rest)
         == Restore(names, AfterKeys(names, macros, r, n + 1), rest)
  {
    hide Restore, Take, KeyLine, StepsText, Filled, KeptSteps;
    var m, steps := r.mkey, macros[r.mkey][n];
    var lines := StepsText(names, steps, |steps|);
    var body := KeyIsLine(names, macros, m, n);
    assert KeyText(names, m, n, steps) + rest == body + "\n" + (lines + rest);
    RestoresLine(names, r, body, lines + rest);
    KeyRead(names, r, m, n, steps);
    var headed := r.(key := n, i := 0);
    assert WritableSteps(names, steps);
    StepsRestored(names, headed, steps, |steps|, rest);
    KeptLength(names, steps);
    FilledNext(names, macros, m, n);
    assert AfterSteps(names, headed, steps, |steps|) == AfterKeys(names, macros, r, n + 1);
  }

  lemma KeptLength(names: Names, steps: Macro)
    ensures KeptSteps(names, steps)[..|steps|] == KeptSteps(names, steps)
  {
  }

  lemma {:induction false} KeysRestored(names: Names, macros: Macros, r: Reader, n: nat, rest: string)
    requires Shaped(macros) && Writable(names, macros) && n <= GKEYS
    requires r.mkey < MKEYS && !r.stray && r.macros == Filled(names, macros, r.mkey, 0)
    ensures Restore(names, r, KeysText(names, macros, r.mkey, n) + rest)
       == Restore(names, AfterKeys(names, macros, r, n), rest)
  {
    hide Restore, KeyText, Filled, Writable;
    if n == 0 {
      assert "" + rest == rest;
    } else {
      var key := KeyText(names, r.mkey, n - 1, macros[r.mkey][n - 1]);
      KeysRestored(names, macros, r, n - 1, key + rest);
      assert KeysText(names, macros, r.mkey, n) + rest == KeysText(names, macros, r.mkey, n - 1) + (key + rest);
      KeyRestored(names, macros, AfterKeys(names, macros, r, n - 1), n - 1, rest);
    }
  }

  /** An empty line changes nothing. */
  lemma EmptyLine(names: Names, r: Reader, rest: string)
    requires Shaped(r.macros)
    ensures Restore(names, r, "\n" + rest) == Restore(names, r, rest)
  {
    assert "" + "\n" + rest == "\n" + rest && "" + "\n" == "\n";
    RestoresLine(names, r, "", rest);
    assert Take(names, r, "\n") == r;
  }

  /** The reader after the first n pages, whatever key and i are left at. */
  function AfterPages(names: Names, macros: Macros, n: nat): Reader
    requires Shaped(macros) && n <= MKEYS
  {
    if n == 0 then Reader(NoMacros(), 0, 0, 0, false)
    else Reader(Filled(names, macros, n, 0), n - 1, GKEYS - 1, |macros[n - 1][GKEYS - 1]|, false)
  }

  lemma NothingFilled(names: Names, macros: Macros)
    requires Shaped(macros)
    ensures Filled(names, macros, 0, 0) == NoMacros()
  {
    assert forall p :: 0 <= p < MKEYS ==> Filled(names, macros, 0, 0)[p] == NoMacros()[p];
  }

  lemma PageFilled(names: Names, macros: Macros, m: nat)
    requires Shaped(macros) && m < MKEYS
    ensures Filled(names, macros, m, GKEYS) == Filled(names, macros, m + 1, 0)
  {
    assert forall p :: 0 <= p < MKEYS ==> Filled(names, macros, m, GKEYS)[p] == Filled(names, macros, m + 1, 0)[p];
  }

  lemma CodesLineIs(m: nat)
    ensures CodesLine(m) == "Codes for MKey " + PrintNat(m + 1) + "\n"
  {
  }

  lemma PageRestored(names: Names, macros: Macros, m: nat, rest: string)
    requires Shaped(macros) && Writable(names, macros) && m < MKEYS
    ensures Restore(names, AfterPages(names, macros, m), PageText(names, macros, m) + rest)
         == Restore(names, AfterPages(names, macros, m + 1), rest)
  {
    hide Restore, Take, KeysText, CodesLine, Filled, Writable;
    var r := AfterPages(names, macros, m);
    var keys := KeysText(names, macros, m, GKEYS);
    CodesLineIs(m);
    var body := CodesIsLine(m);
    var text := body + "\n" + (keys + rest);
    if m > 0 {
      assert PageText(names, macros, m) + rest == "\n" + ("\n" + text);
      EmptyLine(names, r, "\n" + text);
      EmptyLine(names, r, text);
    } else {
      NothingFilled(names, macros);
      assert PageText(names, macros, m) + rest == text;
    }
    RestoresLine(names, r, body, keys + rest);
    CodesRead(names, r, m);
    KeysRestored(names, macros, r.(mkey := m, i := 0), GKEYS, rest);
    PageFilled(names, macros, m);
  }

  lemma {:induction false} DumpRestored(names: Names, macros: Macros, n: nat, rest: string)
    requires Shaped(macros) && Writable(names, macros) && n <= MKEYS
    ensures Restore(names, AfterPages(names, macros, 0), DumpText(names, macros, n) + rest)
         == Restore(names, AfterPages(names, macros, n), rest)
  {
    hide Restore, PageText, AfterPages, Writable;
    if n == 0 {
      assert "" + rest == rest;
    } else {
      var page := PageText(names, macros, n - 1);
      DumpRestored(names, macros, n - 1, page + rest);
      assert DumpText(names, macros, n) + rest == DumpText(names, macros, n - 1) + (page + rest);
      PageRestored(names, macros, n - 1, rest);
    }
  }

  /** Restoring a dumped file into empty tables gives every macro back, step by step, up to what
      the names and 32 bits keep; unrecorded keys stay empty and the reader never strays. */
  lemma MacroRoundTrip(names: Names, macros: Macros)
    requires Shaped(macros) && Writable(names, macros)
    ensures var r := Restore(names, Reader(NoMacros(), 0, 0, 0, false), DumpText(names, macros, MKEYS));
            !r.stray && r.macros == KeptMacros(names, macros)
  {
    hide Writable, DumpText, Kept;
    var text := DumpText(names, macros, MKEYS);
    DumpRestored(names, macros, MKEYS, "");
    assert text + "" == text;
    var end := AfterPages(names, macros, MKEYS);
    assert Restore(names, end, "") == end;
    assert forall p :: 0 <= p < MKEYS ==> end.macros[p] == KeptMacros(names, macros)[p];
  }

  predicate Survives(names: Names, s: Step) {
    names.code(names.name(s.keycode)) == s.keycode && s.modifiers < UINT
  }

  ghost predicate AllSurvive(names: Names, macros: Macros)
    requires Shaped(macros)
  {
    forall m, g, i :: 0 <= m < MKEYS && 0 <= g < GKEYS && 0 <= i < |macros[m][g]| ==> Survives(names, macros[m][g][i])
  }

  /** So the tables come back unchanged exactly when every keycode in use is the code of its own
      name and all modifiers fit 32 bits. */
  lemma MacroRoundTripExactly(names: Names, macros: Macros)
    requires Shaped(macros) && Writable(names, macros)
    ensures Restore(names, Reader(NoMacros(), 0, 0, 0, false), DumpText(names, macros, MKEYS)).macros == macros
       <==> AllSurvive(names, macros)
  {
    hide Writable, DumpText, Restore;
    MacroRoundTrip(names, macros);
    var kept := KeptMacros(names, macros);
    if AllSurvive(names, macros) {
      forall m | 0 <= m < MKEYS ensures kept[m] == macros[m] {
        assert forall g :: 0 <= g < GKEYS ==> kept[m][g] == macros[m][g];
      }
    }
    if kept == macros {
      forall m, g, i | 0 <= m < MKEYS && 0 <= g < GKEYS && 0 <= i < |macros[m][g]|
        ensures Survives(names, macros[m][g][i])
      {
        assert kept[m][g][i] == Kept(names, macros[m][g][i]);
      }
    }
  }

  // ---- the file, from its text ----

  /** The step has been recorded as the next one of the current key, whose sequence ends there for
      now; no other key has changed. */
  ghost predicate Recorded(r: Reader, r': Reader, step: Step)
    requires Shaped(r.macros) && r.mkey < MKEYS && r.key < GKEYS && r.i <= |r.macros[r.mkey][r.key]|
  {
    && Shaped(r'.macros) && r'.i == r.i + 1 && r'.mkey == r.mkey && r'.key == r.key && r'.stray == r.stray
    && r'.macros[r.mkey][r.key] == r.macros[r.mkey][r.key][..r.i] + [step]
    && forall m, g :: 0 <= m < MKEYS && 0 <= g < GKEYS && (m != r.mkey || g != r.key) ==>
         r'.macros[m][g] == r.macros[m][g]
  }

  /** A line "<tab>name Down 0" or "<tab>name Up 0" records a press or a release of the key of that
      name. */
  lemma StepLineRead(names: Names, r: Reader, name: string, down: bool, modifiers: nat)
    requires Shaped(r.macros) && !r.stray && r.mkey < MKEYS && r.key < GKEYS && r.i < MAX_KEYSTEPS
    requires IsWord(name) && modifiers < UINT && r.i <= |r.macros[r.mkey][r.key]|
    ensures Recorded(r, Take(names, r, "\t" + name + (if down then " Down " else " Up ") + PrintNat(modifiers) + "\n"),
                     Step(names.code(name), down, modifiers))
  {
    hide Number, Word, PrintNat, Take, StoreStep, Recorded;
    var press := if down then "Down" else "Up";
    var end := " " + PrintNat(modifiers) + "\n";
    var middle := " " + press + end;
    var line := "\t" + name + (if down then " Down " else " Up ") + PrintNat(modifiers) + "\n";
    assert line == "\t" + name + middle;
    WordRead('\t', name, middle);
    WordRead(' ', press, end);
    BlankThenNumber(modifiers, "\n");
    assert "Up" <= press <==> !down by {
      assert "Down"[0] != "Up"[0];
    }
    StepTaken(names, r, line, name, middle, press, end, modifiers);
    StepStored(r, Step(names.code(name), down, modifiers));
  }

  lemma StepStored(r: Reader, step: Step)
    requires Shaped(r.macros) && r.mkey < MKEYS && r.key < GKEYS && r.i <= |r.macros[r.mkey][r.key]|
    ensures Recorded(r, StoreStep(r, step), step)
  {
  }

  lemma StepTaken(names: Names, r: Reader, line: string, name: string, middle: string, press: string,
                  end: string, modifiers: nat)
    requires Shaped(r.macros) && !r.stray && r.mkey < MKEYS && r.key < GKEYS && r.i < MAX_KEYSTEPS
    requires |line| > 0 && line[0] == '\t' && Word(Some(line)) == Some((name, middle))
    requires Word(Some(middle)) == Some((press, end)) && Number(Some(end)) == Some(modifiers) && modifiers < UINT
    ensures Take(names, r, line) == StoreStep(r, Step(names.code(name), !("Up" <= press), modifiers))
  {
    hide Number, Word, StoreStep;
  }

  /** A heading without a number counts down from the last one, wrapping around; lines that begin
      otherwise mean nothing. */
  lemma OddLines(names: Names, r: Reader, line: string)
    requires Shaped(r.macros) && !r.stray && |line| > 0
    ensures line[0] !in {'C', 'K', '\t'} ==> Take(names, r, line) == r
    ensures line == "K\n" ==>
              Take(names, r, line) == r.(key := if r.key == 0 then 0xFFFF_FFFF else (r.key - 1) % UINT, i := 0)
  {
    hide Word, StoreStep;
    if line == "K\n" {
      assert Literal(Some(line), "Key") == None by {
        assert |line| < |"Key"|;
      }
    }
  }

  /** The default of key g of page m is number 18 * m + g of the table, and stands behind the heading
      of a key for which nothing is recorded. */
  lemma DefaultPrinted(names: Names, m: nat, g: nat)
    requires m < MKEYS && g < GKEYS
    ensures KeyText(names, m, g, []) == "Key G" + PrintNat(g + 1) + ":\t" + names.default_(18 * m + g) + "\n"
  {
    hide PrintNat;
    var name := names.default_(18 * m + g);
    assert KeyText(names, m, g, []) == KeyLine(names, m, g, []) + "";
    assert ":" + ("\t" + name) == ":\t" + name;
  }

  /** A recorded key: the bare heading, and a line for every step. */
  lemma RecordedPrinted(names: Names, m: nat, g: nat, s: Step, more: Step)
    ensures var first := "\t" + names.name(s.keycode) + (if s.pressed then " Down " else " Up ")
                         + PrintNat(s.modifiers % 0x1_0000_0000) + "\n";
            var second := "\t" + names.name(more.keycode) + (if more.pressed then " Down " else " Up ")
                          + PrintNat(more.modifiers % 0x1_0000_0000) + "\n";
            KeyText(names, m, g, [s, more]) == "Key G" + PrintNat(g + 1) + ":\n" + first + second
  {
    hide PrintNat, StepLine;
    var steps := [s, more];
    StepPrinted(names, s);
    StepPrinted(names, more);
    assert StepsText(names, steps, 0) == "";
    assert StepsText(names, steps, 1) == "" + StepLine(names, s) == StepLine(names, s);
    assert StepsText(names, steps, 2) == StepLine(names, s) + StepLine(names, more);
    assert KeyLine(names, m, g, steps) == "Key G" + PrintNat(g + 1) + ":\n";
  }

  lemma StepPrinted(names: Names, s: Step)
    ensures StepLine(names, s) == "\t" + names.name(s.keycode) + (if s.pressed then " Down " else " Up ")
                                  + PrintNat(s.modifiers % 0x1_0000_0000) + "\n"
  {
    hide PrintNat;
    var press := if s.pressed then "Down" else "Up";
    assert " " + press + " " == if s.pressed then " Down " else " Up ";
    var name, number := names.name(s.keycode), PrintNat(s.modifiers % UINT);
    assert "\t" + name + " " + press + " " + number + "\n" == "\t" + name + (" " + press + " ") + number + "\n";
  }

  /** The pages stand in order, each with its heading before its eighteen keys in order, and an empty
      line twice between pages. */
  lemma PagesInOrder(names: Names, macros: Macros)
    requires Shaped(macros)
    ensures DumpText(names, macros, 3)
         == "Codes for MKey 1\n" + KeysText(names, macros, 0, 18)
            + "\n\nCodes for MKey 2\n" + KeysText(names, macros, 1, 18)
            + "\n\nCodes for MKey 3\n" + KeysText(names, macros, 2, 18)
    ensures forall m, n :: 0 <= m < 3 && 0 <= n < 18 ==>
              KeysText(names, macros, m, n) + KeyText(names, m, n, macros[m][n]) == KeysText(names, macros, m, n + 1)
  {
    hide KeysText;
    PrintedDigits();
    PageIs(names, macros, 0, "1");
    PageIs(names, macros, 1, "2");
    PageIs(names, macros, 2, "3");
    var p0, p1, p2 := PageText(names, macros, 0), PageText(names, macros, 1), PageText(names, macros, 2);
    assert DumpText(names, macros, 0) == "";
    assert DumpText(names, macros, 1) == "" + p0 == p0;
    assert DumpText(names, macros, 2) == p0 + p1;
    assert DumpText(names, macros, 3) == p0 + p1 + p2;
    forall m, n | 0 <= m < 3 && 0 <= n < 18
      ensures KeysText(names, macros, m, n) + KeyText(names, m, n, macros[m][n]) == KeysText(names, macros, m, n + 1)
    {
      NextKey(names, macros, m, n);
    }
  }

  lemma PrintedDigits()
    ensures PrintNat(1) == "1" && PrintNat(2) == "2" && PrintNat(3) == "3"
  {
  }

  lemma NextKey(names: Names, macros: Macros, m: nat, n: nat)
    requires Shaped(macros) && m < MKEYS && n < GKEYS
    ensures KeysText(names, macros, m, n) + KeyText(names, m, n, macros[m][n]) == KeysText(names, macros, m, n + 1)
  {
    hide KeyText;
  }

  lemma PageIs(names: Names, macros: Macros, m: nat, digit: string)
    requires Shaped(macros) && m < MKEYS && PrintNat(m + 1) == digit
    ensures PageText(names, macros, m)
         == (if m > 0 then "\n\nCodes for MKey " else "Codes for MKey ") + digit + "\n"
            + KeysText(names, macros, m, GKEYS)
  {
    hide KeysText, PrintNat;
    var keys := KeysText(names, macros, m, GKEYS);
    var heading := "Codes for MKey " + digit + "\n";
    assert CodesLine(m) == heading;
    if m > 0 {
      assert "\n\n" + "Codes for MKey " == "\n\nCodes for MKey ";
      assert "\n\n" + heading + keys == "\n\n" + "Codes for MKey " + digit + "\n" + keys;
    } else {
      assert "" + heading == heading;
    }
  }
}
