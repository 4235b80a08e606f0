/** g15r_saveG15Font and g15r_loadG15Font: the font file format and its round trip. */
module FontFile {
  import opened Options
  import opened Bits
  import opened Line
  import opened Text

  const FONT_HEADER_SIZE := 15
  const CHAR_HEADER_SIZE := 4

  /** What a font structure holds, without the glyph count, which saving recomputes. */
  datatype FontValue = FontValue(fontHeight: nat, ascenderHeight: nat, lineheight: nat, defaultGap: nat,
                                 glyph: seq<Glyph>, active: seq<bool>)

  function GlyphSize(fontHeight: nat, width: nat): nat {
    fontHeight * Stride(width)
  }

  predicate HoldsGlyph(g: Glyph, fontHeight: nat, active: bool) {
    && g.width < 256
    && (active ==> g.buffer.Some? && |g.buffer.value| >= GlyphSize(fontHeight, g.width))
  }

  /** 256 glyphs, the active ones with a buffer holding all their rows. */
  predicate Saveable(v: FontValue) {
    && |v.glyph| == MAX_GLYPH && |v.active| == MAX_GLYPH
    && forall c :: 0 <= c < MAX_GLYPH ==> HoldsGlyph(v.glyph[c], v.fontHeight, v.active[c])
  }

  ghost function ValueOf(font: Font): FontValue
    reads font, font.glyph, font.active
  {
    FontValue(font.fontHeight, font.ascenderHeight, font.lineheight, font.defaultGap, font.glyph[..], font.active[..])
  }

  function Word(n: nat): seq<bv8> {
    [ToByte(n), ToByte(n / 256)]
  }

  function ReadWord(lo: bv8, hi: bv8): nat {
    FromByte(lo) + 256 * FromByte(hi)
  }

  lemma TwoBytes(n: nat)
    ensures n % 256 + 256 * (n / 256 % 256) == n % 0x1_0000
  {
    var r, s, p := n % 256, n / 256 % 256, n / 256 / 256;
    assert n == 0x1_0000 * p + (256 * s + r);
  }

  lemma WordRoundTrip(n: nat)
    ensures ReadWord(Word(n)[0], Word(n)[1]) == n % 0x1_0000
  {
    hide ToByte, FromByte;
    ByteRoundTrip(n);
    ByteRoundTrip(n / 256);
    TwoBytes(n);
  }

  /** How many of the first n characters are active. */
  function ActiveCount(active: seq<bool>, n: nat): (k: nat)
    requires n <= |active|
    ensures k <= n
  {
    if n == 0 then 0 else ActiveCount(active, n - 1) + if active[n - 1] then 1 else 0
  }

  function HeaderBytes(v: FontValue, numchars: nat): seq<bv8> {
    [0x47, 0x46, 0x4E, 0x54] + Word(v.fontHeight) + Word(v.ascenderHeight) + Word(v.lineheight)
    + [0, 0] + Word(numchars) + [ToByte(v.defaultGap)]
  }

  function CharBytes(v: FontValue, c: nat): seq<bv8>
    requires Saveable(v) && c < MAX_GLYPH && v.active[c]
  {
    Word(c) + Word(v.glyph[c].width) + v.glyph[c].buffer.value[..GlyphSize(v.fontHeight, v.glyph[c].width)]
  }

  /** The records of the active characters among the first n. */
  function CharsBytes(v: FontValue, n: nat): seq<bv8>
    requires Saveable(v) && n <= MAX_GLYPH
  {
    if n == 0 then [] else CharsBytes(v, n - 1) + if v.active[n - 1] then CharBytes(v, n - 1) else []
  }

  function SavedBytes(v: FontValue): seq<bv8>
    requires Saveable(v)
  {
    HeaderBytes(v, ActiveCount(v.active, MAX_GLYPH)) + CharsBytes(v, MAX_GLYPH)
  }

  /** The fifteen header bytes, filled in field by field. */
  method FileHeader(font: Font) returns (fntheader: seq<bv8>)
    ensures fntheader == HeaderBytes(ValueOf(font), font.numchars)
  {
    hide ToByte;
    fntheader := [0x47, 0x46, 0x4E, 0x54];
    fntheader := fntheader + [ToByte(font.fontHeight), ToByte(font.fontHeight / 256)];
    fntheader := fntheader + [ToByte(font.ascenderHeight), ToByte(font.ascenderHeight / 256)];
    fntheader := fntheader + [ToByte(font.lineheight), ToByte(font.lineheight / 256)];
    fntheader := fntheader + [0, 0];
    fntheader := fntheader + [ToByte(font.numchars), ToByte(font.numchars / 256)];
    fntheader := fntheader + [ToByte(font.defaultGap)];
  }

  method SaveG15Font(font: Font?) returns (written: Option<seq<bv8>>)
    requires font != null ==> Saveable(ValueOf(font))
    modifies if font == null then {} else {font}
    ensures font == null <==> written == None
    ensures font != null ==> written.value == SavedBytes(old(ValueOf(font)))
    ensures font != null ==> ValueOf(font) == old(ValueOf(font))
    ensures font != null ==> font.numchars == ActiveCount(font.active[..], MAX_GLYPH)
  {
    hide ToByte, HeaderBytes;
    if font == null {
      return None;
    }
    ghost var v := ValueOf(font);
    font.numchars := 0;
    for i := 0 to MAX_GLYPH
      invariant font.numchars == ActiveCount(v.active, i) && ValueOf(font) == v
    {
      if font.active[i] {
        font.numchars := font.numchars + 1;
      }
    }
    var file := FileHeader(font);
    ghost var header := file;
    assert header + [] == header;
    for i := 0 to MAX_GLYPH
      invariant file == header + CharsBytes(v, i) && ValueOf(font) == v
    {
      ghost var before := CharsBytes(v, i);
      if font.active[i] {
        var width := font.glyph[i].width;
        var size := font.fontHeight * ((width + 7) / 8);
        var charheader := [ToByte(i), ToByte(i / 256), ToByte(width), ToByte(width / 256)];
        var record := charheader + font.glyph[i].buffer.value[..size];
        assert record == CharBytes(v, i);
        assert header + (before + record) == header + before + record;
        file := file + record;
      } else {
        assert before + [] == before;
      }
    }
    written := Some(file);
  }

  datatype LoadResult = NotAFont | Cut | Loaded(value: FontValue)

  const BLANK := Glyph(None, 0, 0)

  /** Reading n character records from position pos on into v. A record that the file cuts short,
      or whose character has no place in the table, ends in Cut. */
  function ReadChars(file: seq<bv8>, pos: nat, n: nat, v: FontValue): (r: LoadResult)
    requires |v.glyph| == |v.active| == MAX_GLYPH
    ensures !r.NotAFont?
    decreases n
  {
    if n == 0 then Loaded(v)
    else if pos + CHAR_HEADER_SIZE > |file| then Cut
    else
      var character := ReadWord(file[pos], file[pos + 1]);
      var width := ReadWord(file[pos + 2], file[pos + 3]) % 256;
      var start := pos + CHAR_HEADER_SIZE;
      var end := start + GlyphSize(v.fontHeight, width);
      if character >= MAX_GLYPH || end > |file| then Cut
      else ReadChars(file, end, n - 1, WithGlyph(v, character, Glyph(Some(file[start..end]), width, 0)))
  }

  function WithGlyph(v: FontValue, c: nat, g: Glyph): FontValue
    requires |v.glyph| == |v.active| == MAX_GLYPH && c < MAX_GLYPH
  {
    v.(glyph := v.glyph[c := g], active := v.active[c := true])
  }

  function ReadHeader(file: seq<bv8>): FontValue
    requires |file| >= FONT_HEADER_SIZE
  {
    FontValue(ReadWord(file[4], file[5]), ReadWord(file[6], file[7]), ReadWord(file[8], file[9]), FromByte(file[14]),
              seq(MAX_GLYPH, _ => BLANK), seq(MAX_GLYPH, _ => false))
  }

  function ReadFont(file: seq<bv8>): LoadResult {
    if |file| < FONT_HEADER_SIZE || file[..4] != [0x47, 0x46, 0x4E, 0x54] then NotAFont
    else ReadChars(file, FONT_HEADER_SIZE, ReadWord(file[12], file[13]), ReadHeader(file))
  }

  /** One character record: whose it is, where its glyph rows start in the file and how many bytes
      they are. */
  datatype Record = Record(character: nat, start: nat, size: nat)

  /** The whole records among the n that begin at position pos, up to the first that ReadChars
      cannot use. */
  function Records(file: seq<bv8>, pos: nat, n: nat, fontHeight: nat): (r: seq<Record>)
    ensures |r| <= n
    ensures forall k :: 0 <= k < |r| ==> r[k].character < MAX_GLYPH && r[k].start + r[k].size <= |file|
    decreases n
  {
    if n == 0 || pos + CHAR_HEADER_SIZE > |file| then []
    else
      var character := ReadWord(file[pos], file[pos + 1]);
      var width := ReadWord(file[pos + 2], file[pos + 3]) % 256;
      var start := pos + CHAR_HEADER_SIZE;
      var size := GlyphSize(fontHeight, width);
      if character >= MAX_GLYPH || start + size > |file| then []
      else [Record(character, start, size)] + Records(file, start + size, n - 1, fontHeight)
  }

  function FontRecords(file: seq<bv8>): seq<Record>
    requires |file| >= FONT_HEADER_SIZE
  {
    Records(file, FONT_HEADER_SIZE, ReadWord(file[12], file[13]), ReadWord(file[4], file[5]))
  }

  /** The bytes the first n records take in the glyph pool. */
  function Total(records: seq<Record>, n: nat): nat
    requires n <= |records|
  {
    if n == 0 then 0 else Total(records, n - 1) + records[n - 1].size
  }

  const FIRST_ALLOC := 2048
  const UINT := 0x1_0000_0000

  /** memsize after n records: an unsigned int. */
  function Used(records: seq<Record>, n: nat): nat
    requires n <= |records|
  {
    Total(records, n) % UINT
  }

  /** Room for as many glyphs of one size as are still to come, computed in unsigned int. */
  function Room(size: nat, left: nat): nat {
    (size * left) % UINT
  }

  /** current_alloc after n records of a font of numchars: when a glyph does not fit, room is made
      for as many of its size as are still to come. */
  function Allocated(records: seq<Record>, n: nat, numchars: nat): nat
    requires n <= |records| <= numchars
  {
    if n == 0 then FIRST_ALLOC
    else
      var before := Allocated(records, n - 1, numchars);
      if Used(records, n) > before then (before + Room(records[n - 1].size, numchars - (n - 1))) % UINT else before
  }

  /** The first n records have all found room for their rows. */
  ghost predicate WithinPool(records: seq<Record>, n: nat, numchars: nat)
    requires n <= |records| <= numchars
  {
    forall k :: 0 <= k <= n ==> Total(records, k) <= Allocated(records, k, numchars)
  }

  /** Some record's rows go beyond the memory allocated when they are read. */
  ghost predicate Overruns(file: seq<bv8>)
    requires |file| >= FONT_HEADER_SIZE
  {
    !WithinPool(FontRecords(file), |FontRecords(file)|, ReadWord(file[12], file[13]))
  }

  /** The glyph pool after n records: each glyph's slice begins where the one before ended and holds
      that record's rows. */
  ghost predicate PoolHolds(file: seq<bv8>, records: seq<Record>, n: nat, pool: seq<bv8>, slices: seq<(nat, nat)>)
    requires n <= |records|
  {
    && |slices| == n && |pool| == Total(records, n)
    && forall k :: 0 <= k < n ==>
         && slices[k] == (Total(records, k), Total(records, k + 1)) && slices[k].0 <= slices[k].1 <= |pool|
         && records[k].start + records[k].size <= |file|
         && pool[slices[k].0..slices[k].1] == file[records[k].start..records[k].start + records[k].size]
  }

  lemma TotalNext(records: seq<Record>, n: nat)
    requires n < |records|
    ensures Total(records, n + 1) == Total(records, n) + records[n].size
  {
  }

  lemma PoolNext(file: seq<bv8>, records: seq<Record>, n: nat, pool: seq<bv8>, slices: seq<(nat, nat)>)
    requires n < |records| && PoolHolds(file, records, n, pool, slices)
    requires records[n].start + records[n].size <= |file|
    ensures PoolHolds(file, records, n + 1, pool + file[records[n].start..records[n].start + records[n].size],
                      slices + [(|pool|, |pool| + records[n].size)])
  {
    hide Total;
    TotalNext(records, n);
    var rows := file[records[n].start..records[n].start + records[n].size];
    var pool', slices' := pool + rows, slices + [(|pool|, |pool| + records[n].size)];
    forall k | 0 <= k < n + 1
      ensures slices'[k] == (Total(records, k), Total(records, k + 1)) && slices'[k].0 <= slices'[k].1 <= |pool'|
      ensures records[k].start + records[k].size <= |file|
      ensures pool'[slices'[k].0..slices'[k].1] == file[records[k].start..records[k].start + records[k].size]
    {
      if k < n {
        assert pool'[slices[k].0..slices[k].1] == pool[slices[k].0..slices[k].1];
      } else {
        assert pool'[|pool|..] == rows;
      }
    }
  }

  /** No later record is for the same character. */
  predicate LastOfItsChar(records: seq<Record>, k: nat)
    requires k < |records|
  {
    forall j :: k < j < |records| ==> records[j].character != records[k].character
  }

  lemma {:induction false} OtherGlyphsStay(file: seq<bv8>, pos: nat, n: nat, v: FontValue, c: nat)
    requires |v.glyph| == |v.active| == MAX_GLYPH && c < MAX_GLYPH && ReadChars(file, pos, n, v).Loaded?
    requires forall k :: 0 <= k < |Records(file, pos, n, v.fontHeight)| ==>
                   Records(file, pos, n, v.fontHeight)[k].character != c
    ensures |ReadChars(file, pos, n, v).value.glyph| == MAX_GLYPH
    ensures ReadChars(file, pos, n, v).value.glyph[c] == v.glyph[c]
    decreases n
  {
    hide ReadWord, GlyphSize, ReadChars;
    if n == 0 {
      ReadCharsDone(file, pos, v);
    } else {
      var v', end := FirstRecord(file, pos, n, v);
      var all, rest := Records(file, pos, n, v.fontHeight), Records(file, end, n - 1, v.fontHeight);
      assert forall k :: 0 <= k < |rest| ==> rest[k] == all[k + 1];
      assert all[0].character != c;
      OtherGlyphsStay(file, end, n - 1, v', c);
    }
  }

  /** The first step of a reading that succeeds. */
  lemma FirstRecord(file: seq<bv8>, pos: nat, n: nat, v: FontValue) returns (v': FontValue, end: nat)
    requires |v.glyph| == |v.active| == MAX_GLYPH && n > 0 && ReadChars(file, pos, n, v).Loaded?
    ensures |v'.glyph| == |v'.active| == MAX_GLYPH && v'.fontHeight == v.fontHeight
    ensures ReadChars(file, pos, n, v) == ReadChars(file, end, n - 1, v')
    ensures var all := Records(file, pos, n, v.fontHeight);
            && |all| > 0 && all[1..] == Records(file, end, n - 1, v.fontHeight)
            && v'.glyph == v.glyph[all[0].character := v'.glyph[all[0].character]]
            && v'.glyph[all[0].character].buffer == Some(file[all[0].start..all[0].start + all[0].size])
            && all[0].size == GlyphSize(v.fontHeight, v'.glyph[all[0].character].width)
  {
    hide ReadWord, GlyphSize, ReadChars;
    if pos + CHAR_HEADER_SIZE > |file| {
      ReadCharsCut(file, pos, n, v);
      assert false;
    }
    var character := ReadWord(file[pos], file[pos + 1]);
    var width := ReadWord(file[pos + 2], file[pos + 3]) % 256;
    var start, size := pos + CHAR_HEADER_SIZE, GlyphSize(v.fontHeight, width);
    ReadCharsNext(file, pos, n, v, width, size);
    end := start + size;
    v' := WithGlyph(v, character, Glyph(Some(file[start..end]), width, 0));
  }

  lemma LastInRest(all: seq<Record>, k: nat)
    requires k < |all| && LastOfItsChar(all, k)
    ensures k > 0 ==> LastOfItsChar(all[1..], k - 1)
    ensures k == 0 ==> forall j :: 0 <= j < |all[1..]| ==> all[1..][j].character != all[0].character
  {
    assert forall j :: 0 <= j < |all[1..]| ==> all[1..][j] == all[j + 1];
  }

  /** The k-th record's rows are the glyph of its character, unless a later record is for the same
      character: then that one's are. */
  lemma {:induction false} RecordIsGlyph(file: seq<bv8>, pos: nat, n: nat, v: FontValue, k: nat)
    requires |v.glyph| == |v.active| == MAX_GLYPH && ReadChars(file, pos, n, v).Loaded?
    requires k < |Records(file, pos, n, v.fontHeight)| && LastOfItsChar(Records(file, pos, n, v.fontHeight), k)
    ensures |Records(file, pos, n, v.fontHeight)| == n && |ReadChars(file, pos, n, v).value.glyph| == MAX_GLYPH
    ensures var r := Records(file, pos, n, v.fontHeight)[k];
            var g := ReadChars(file, pos, n, v).value.glyph[r.character];
            g.buffer == Some(file[r.start..r.start + r.size]) && r.size == GlyphSize(v.fontHeight, g.width)
    decreases n
  {
    hide ReadWord, GlyphSize, ReadChars, Records, LastOfItsChar;
    AllRecords(file, pos, n, v);
    var v', end := FirstRecord(file, pos, n, v);
    var all, rest := Records(file, pos, n, v.fontHeight), Records(file, end, n - 1, v.fontHeight);
    LastInRest(all, k);
    if k == 0 {
      OtherGlyphsStay(file, end, n - 1, v', all[0].character);
    } else {
      RecordIsGlyph(file, end, n - 1, v', k - 1);
    }
  }

  lemma {:induction false} AllRecords(file: seq<bv8>, pos: nat, n: nat, v: FontValue)
    requires |v.glyph| == |v.active| == MAX_GLYPH && ReadChars(file, pos, n, v).Loaded?
    ensures |Records(file, pos, n, v.fontHeight)| == n
    decreases n
  {
    hide ReadWord, GlyphSize, ReadChars, Records;
    if n > 0 {
      var v', end := FirstRecord(file, pos, n, v);
      AllRecords(file, end, n - 1, v');
    } else {
      assert |Records(file, pos, n, v.fontHeight)| == 0;
    }
  }

  lemma ReadCharsDone(file: seq<bv8>, pos: nat, v: FontValue)
    requires |v.glyph| == |v.active| == MAX_GLYPH
    ensures ReadChars(file, pos, 0, v) == Loaded(v)
  {
  }

  lemma ReadCharsCut(file: seq<bv8>, pos: nat, n: nat, v: FontValue)
    requires |v.glyph| == |v.active| == MAX_GLYPH && n > 0 && pos + CHAR_HEADER_SIZE > |file|
    ensures ReadChars(file, pos, n, v) == Cut
  {
  }

  lemma ReadCharsNext(file: seq<bv8>, pos: nat, n: nat, v: FontValue, width: nat, size: nat)
    requires |v.glyph| == |v.active| == MAX_GLYPH && n > 0 && pos + CHAR_HEADER_SIZE <= |file|
    requires width == ReadWord(file[pos + 2], file[pos + 3]) % 256 && size == GlyphSize(v.fontHeight, width)
    ensures var character := ReadWord(file[pos], file[pos + 1]);
            var start := pos + CHAR_HEADER_SIZE;
            ReadChars(file, pos, n, v)
            == if character >= MAX_GLYPH || start + size > |file| then Cut
               else ReadChars(file, start + size, n - 1,
                              WithGlyph(v, character, Glyph(Some(file[start..start + size]), width, 0)))
  {
    hide ReadWord, GlyphSize;
  }

  method FontFromHeader(file: seq<bv8>) returns (font: Font)
    requires |file| >= FONT_HEADER_SIZE
    ensures fresh(font) && fresh(font.glyph) && fresh(font.active) && font.Valid()
    ensures ValueOf(font) == ReadHeader(file) && font.numchars == ReadWord(file[12], file[13])
  {
    hide FromByte, ReadWord;
    font := new Font();
    font.fontHeight := ReadWord(file[4], file[5]);
    font.ascenderHeight := ReadWord(file[6], file[7]);
    font.lineheight := ReadWord(file[8], file[9]);
    font.numchars := ReadWord(file[12], file[13]);
    font.defaultGap := FromByte(file[14]);
  }

  method StoreGlyph(font: Font, character: nat, g: Glyph)
    requires font.Valid() && character < MAX_GLYPH
    requires g.buffer.Some? && g.width < 256 && |g.buffer.value| >= GlyphSize(font.fontHeight, g.width)
    modifies font.glyph, font.active
    ensures font.Valid() && ValueOf(font) == WithGlyph(old(ValueOf(font)), character, g)
  {
    font.glyph[character] := g;
    font.active[character] := true;
  }

  lemma RecordsNext(file: seq<bv8>, pos: nat, n: nat, fontHeight: nat)
    requires n > 0 && pos + CHAR_HEADER_SIZE <= |file|
    ensures var r := Record(ReadWord(file[pos], file[pos + 1]), pos + CHAR_HEADER_SIZE,
                            GlyphSize(fontHeight, ReadWord(file[pos + 2], file[pos + 3]) % 256));
            Records(file, pos, n, fontHeight)
            == if r.character >= MAX_GLYPH || r.start + r.size > |file| then []
               else [r] + Records(file, r.start + r.size, n - 1, fontHeight)
  {
    hide ReadWord, GlyphSize;
  }

  lemma NoRecords(file: seq<bv8>, pos: nat, n: nat, fontHeight: nat)
    requires n == 0 || pos + CHAR_HEADER_SIZE > |file|
    ensures Records(file, pos, n, fontHeight) == []
  {
  }

  lemma PoolStart(file: seq<bv8>, records: seq<Record>, numchars: nat)
    requires |records| <= numchars
    ensures PoolHolds(file, records, 0, [], []) && Allocated(records, 0, numchars) == FIRST_ALLOC
    ensures WithinPool(records, 0, numchars)
  {
  }

  lemma AllocatedNext(records: seq<Record>, n: nat, numchars: nat)
    requires n < |records| <= numchars
    ensures Allocated(records, n + 1, numchars)
         == if Used(records, n + 1) > Allocated(records, n, numchars)
            then (Allocated(records, n, numchars) + Room(records[n].size, numchars - n)) % UINT
            else Allocated(records, n, numchars)
    ensures WithinPool(records, n + 1, numchars)
       <==> WithinPool(records, n, numchars) && Total(records, n + 1) <= Allocated(records, n + 1, numchars)
  {
    hide Room, Used;
  }

  /** How far loading has come when i glyphs are in: v is the font so far, pos the place in the
      file. */
  ghost predicate Loading(file: seq<bv8>, v: FontValue, i: nat, pos: nat, currentAlloc: nat, pool: seq<bv8>,
                          slices: seq<(nat, nat)>)
    requires |file| >= FONT_HEADER_SIZE
  {
    var records, numchars := FontRecords(file), ReadWord(file[12], file[13]);
    && i <= |records| && |v.glyph| == |v.active| == MAX_GLYPH && v.fontHeight == ReadWord(file[4], file[5])
    && ReadFont(file) == ReadChars(file, pos, numchars - i, v)
    && records[i..] == Records(file, pos, numchars - i, v.fontHeight)
    && PoolHolds(file, records, i, pool, slices)
    && currentAlloc == Allocated(records, i, numchars) && WithinPool(records, i, numchars)
  }

  lemma LoadingStarts(file: seq<bv8>)
    requires |file| >= FONT_HEADER_SIZE && file[..4] == [0x47, 0x46, 0x4E, 0x54]
    ensures Loading(file, ReadHeader(file), 0, FONT_HEADER_SIZE, FIRST_ALLOC, [], [])
  {
    hide ReadWord, FromByte, Records, ReadChars, PoolHolds, Allocated, WithinPool;
    PoolStart(file, FontRecords(file), ReadWord(file[12], file[13]));
  }

  /** A record the file does not hold whole ends the loading. */
  lemma LoadingCut(file: seq<bv8>, v: FontValue, i: nat, pos: nat, currentAlloc: nat, pool: seq<bv8>,
                   slices: seq<(nat, nat)>)
    requires |file| >= FONT_HEADER_SIZE && i < ReadWord(file[12], file[13])
    requires Loading(file, v, i, pos, currentAlloc, pool, slices)
    requires pos + CHAR_HEADER_SIZE <= |file| ==>
               var character := ReadWord(file[pos], file[pos + 1]);
               var size := GlyphSize(v.fontHeight, ReadWord(file[pos + 2], file[pos + 3]) % 256);
               character >= MAX_GLYPH || pos + CHAR_HEADER_SIZE + size > |file|
    ensures ReadFont(file) == Cut && i == |FontRecords(file)|
  {
    hide ReadWord, GlyphSize, Records, ReadChars, PoolHolds, Allocated, WithinPool;
    var n := ReadWord(file[12], file[13]) - i;
    if pos + CHAR_HEADER_SIZE > |file| {
      ReadCharsCut(file, pos, n, v);
      NoRecords(file, pos, n, v.fontHeight);
    } else {
      var width := ReadWord(file[pos + 2], file[pos + 3]) % 256;
      ReadCharsNext(file, pos, n, v, width, GlyphSize(v.fontHeight, width));
      RecordsNext(file, pos, n, v.fontHeight);
    }
    assert FontRecords(file)[i..] == [];
  }

  lemma NextRecord(file: seq<bv8>, pos: nat, n: nat, fontHeight: nat, records: seq<Record>, i: nat, r: Record)
    requires n > 0 && pos + CHAR_HEADER_SIZE <= |file|
    requires i <= |records| && records[i..] == Records(file, pos, n, fontHeight)
    requires r == Record(ReadWord(file[pos], file[pos + 1]), pos + CHAR_HEADER_SIZE,
                         GlyphSize(fontHeight, ReadWord(file[pos + 2], file[pos + 3]) % 256))
    requires r.character < MAX_GLYPH && r.start + r.size <= |file|
    ensures i < |records| && records[i] == r && records[i + 1..] == Records(file, r.start + r.size, n - 1, fontHeight)
  {
    hide ReadWord, GlyphSize, Records;
    RecordsNext(file, pos, n, fontHeight);
    assert records[i] == records[i..][0] && records[i + 1..] == records[i..][1..];
  }

  /** current_alloc when room for size more bytes is needed. */
  function Grown(currentAlloc: nat, memsize: nat, size: nat, left: nat): nat {
    if memsize > currentAlloc then (currentAlloc + Room(size, left)) % UINT else currentAlloc
  }

  /** A whole record is one more glyph, if there is room for it. */
  lemma LoadingNext(file: seq<bv8>, v: FontValue, i: nat, pos: nat, currentAlloc: nat, pool: seq<bv8>,
                    slices: seq<(nat, nat)>, r: Record, width: nat)
    requires |file| >= FONT_HEADER_SIZE && i < ReadWord(file[12], file[13])
    requires Loading(file, v, i, pos, currentAlloc, pool, slices)
    requires pos + CHAR_HEADER_SIZE <= |file| && width == ReadWord(file[pos + 2], file[pos + 3]) % 256
    requires r == Record(ReadWord(file[pos], file[pos + 1]), pos + CHAR_HEADER_SIZE, GlyphSize(v.fontHeight, width))
    requires r.character < MAX_GLYPH && r.start + r.size <= |file|
    ensures var rows, left := file[r.start..r.start + r.size], ReadWord(file[12], file[13]) - i;
            var grown := Grown(currentAlloc, (|pool| + r.size) % UINT, r.size, left);
            if |pool| + r.size > grown then Overruns(file)
            else Loading(file, WithGlyph(v, r.character, Glyph(Some(rows), width, 0)), i + 1, r.start + r.size, grown,
                         pool + rows, slices + [(|pool|, |pool| + r.size)])
  {
    hide ReadWord, GlyphSize, Records, ReadChars, ReadFont, PoolHolds, Allocated, Total, Room, WithinPool;
    var n := ReadWord(file[12], file[13]) - i;
    var records := FontRecords(file);
    ReadCharsNext(file, pos, n, v, width, r.size);
    NextRecord(file, pos, n, v.fontHeight, records, i, r);
    TotalNext(records, i);
    AllocatedNext(records, i, ReadWord(file[12], file[13]));
    WithinMonotone(records, i + 1, |records|, ReadWord(file[12], file[13]));
    PoolSize(file, records, i, pool, slices);
    PoolNext(file, records, i, pool, slices);
  }

  lemma WithinMonotone(records: seq<Record>, m: nat, n: nat, numchars: nat)
    requires m <= n <= |records| <= numchars
    ensures WithinPool(records, n, numchars) ==> WithinPool(records, m, numchars)
  {
  }

  lemma PoolSize(file: seq<bv8>, records: seq<Record>, n: nat, pool: seq<bv8>, slices: seq<(nat, nat)>)
    requires n <= |records| && PoolHolds(file, records, n, pool, slices)
    ensures |slices| == n && |pool| == Total(records, n)
    ensures forall k :: 0 <= k < n ==> slices[k].0 <= slices[k].1 <= |pool|
  {
  }

  lemma LoadingDone(file: seq<bv8>, v: FontValue, pos: nat, currentAlloc: nat, pool: seq<bv8>, slices: seq<(nat, nat)>)
    requires |file| >= FONT_HEADER_SIZE
    requires Loading(file, v, ReadWord(file[12], file[13]), pos, currentAlloc, pool, slices)
    ensures ReadFont(file) == Loaded(v) && |FontRecords(file)| == ReadWord(file[12], file[13])
  {
    hide ReadWord, Records, PoolHolds, Allocated, WithinPool;
    ReadCharsDone(file, pos, v);
  }

  /** The slices of the pool in which the glyphs lie: one for each record, in order, each beginning
      where the one before ended, with that record's rows; all within what was allocated. */
  ghost predicate PoolInOrder(file: seq<bv8>, memsize: nat, currentAlloc: nat, pool: seq<bv8>, slices: seq<(nat, nat)>)
    requires |file| >= FONT_HEADER_SIZE
  {
    var records, numchars := FontRecords(file), ReadWord(file[12], file[13]);
    && PoolHolds(file, records, |records|, pool, slices)
    && memsize == |pool| == Total(records, |records|)
    && currentAlloc == Allocated(records, |records|, numchars)
    && WithinPool(records, |records|, numchars)
  }

  lemma {:induction false} AllocatedWidth(records: seq<Record>, n: nat, numchars: nat)
    requires n <= |records| <= numchars
    ensures Allocated(records, n, numchars) < UINT
  {
    hide Used, Room;
    if n > 0 {
      AllocatedWidth(records, n - 1, numchars);
    }
  }

  lemma LoadedPool(file: seq<bv8>, v: FontValue, i: nat, pos: nat, currentAlloc: nat, pool: seq<bv8>,
                   slices: seq<(nat, nat)>)
    requires |file| >= FONT_HEADER_SIZE && i == |FontRecords(file)|
    requires Loading(file, v, i, pos, currentAlloc, pool, slices)
    ensures PoolInOrder(file, |pool| % UINT, currentAlloc, pool, slices) && !Overruns(file)
  {
    hide Total, Allocated, ReadWord, Records, ReadChars, PoolHolds;
    var records, numchars := FontRecords(file), ReadWord(file[12], file[13]);
    PoolSize(file, records, i, pool, slices);
    AllocatedWidth(records, i, numchars);
  }

  /** The font has been loaded, and its k-th record is the last one for its character. */
  ghost predicate LoadedLast(file: seq<bv8>, memsize: nat, currentAlloc: nat, pool: seq<bv8>,
                             slices: seq<(nat, nat)>, k: nat)
    requires |file| >= FONT_HEADER_SIZE && k < |FontRecords(file)|
  {
    && ReadFont(file).Loaded? && PoolInOrder(file, memsize, currentAlloc, pool, slices)
    && LastOfItsChar(FontRecords(file), k)
  }

  /** Where the k-th record's pointer leads in the pool, there are the rows of its character's
      glyph, unless a later record is for the same character. */
  lemma GlyphInPool(file: seq<bv8>, memsize: nat, currentAlloc: nat, pool: seq<bv8>, slices: seq<(nat, nat)>, k: nat)
    requires |file| >= FONT_HEADER_SIZE && k < |FontRecords(file)|
    ensures LoadedLast(file, memsize, currentAlloc, pool, slices, k) ==>
      var v := ReadFont(file).value;
      && |slices| == |FontRecords(file)| && slices[k].0 <= slices[k].1 <= |pool| && |v.glyph| == MAX_GLYPH
      && v.glyph[FontRecords(file)[k].character].buffer == Some(pool[slices[k].0..slices[k].1])
      && slices[k].1 - slices[k].0 == GlyphSize(v.fontHeight, v.glyph[FontRecords(file)[k].character].width)
  {
    hide ReadChars, ReadWord, Records, LastOfItsChar, Total, Allocated, GlyphSize;
    if LoadedLast(file, memsize, currentAlloc, pool, slices, k) {
      HeaderKept(file, FONT_HEADER_SIZE, ReadWord(file[12], file[13]), ReadHeader(file));
      RecordIsGlyph(file, FONT_HEADER_SIZE, ReadWord(file[12], file[13]), ReadHeader(file), k);
      assert |pool[slices[k].0..slices[k].1]| == FontRecords(file)[k].size;
    }
  }

  lemma AddsUp(a: nat, b: nat)
    ensures (a % UINT + b) % UINT == (a + b) % UINT
  {
    var q := a / UINT;
    assert a == UINT * q + a % UINT;
  }

  /** Counts size more bytes and, when they do not fit, makes room for left glyphs like this one. */
  method MakeRoom(memsize: nat, currentAlloc: nat, size: nat, left: nat, ghost used: nat)
    returns (memsize': nat, currentAlloc': nat)
    requires memsize == used % UINT
    ensures memsize' == (used + size) % UINT && currentAlloc' == Grown(currentAlloc, memsize', size, left)
  {
    AddsUp(used, size);
    memsize', currentAlloc' := (memsize + size) % UINT, currentAlloc;
    if memsize' > currentAlloc' {
      currentAlloc' := (currentAlloc' + Room(size, left)) % UINT;
    }
  }

  /** The loop over the character records. */
  method LoadGlyphs(font: Font, file: seq<bv8>)
    returns (cut: bool, overrun: bool, memsize: nat, currentAlloc: nat, pool: seq<bv8>, ghost slices: seq<(nat, nat)>)
    requires font.Valid() && |file| >= FONT_HEADER_SIZE && file[..4] == [0x47, 0x46, 0x4E, 0x54]
    requires ValueOf(font) == ReadHeader(file) && font.numchars == ReadWord(file[12], file[13])
    modifies font.glyph, font.active
    ensures font.Valid() && (overrun <==> Overruns(file))
    ensures !overrun ==> (cut <==> ReadFont(file).Cut?) && PoolInOrder(file, memsize, currentAlloc, pool, slices)
    ensures !overrun && !cut ==> ReadFont(file) == Loaded(ValueOf(font)) && |FontRecords(file)| == font.numchars
  {
    hide FromByte, ReadWord, Loading, PoolInOrder, Overruns, FontRecords, ReadChars;
    hide GlyphSize, Stride, WithGlyph, Grown;
    cut, overrun, memsize, currentAlloc, pool, slices := false, false, 0, 2048, [], [];
    LoadingStarts(file);
    var pos: nat := FONT_HEADER_SIZE;
    var i := 0;
    while i < font.numchars
      invariant 0 <= i <= font.numchars == ReadWord(file[12], file[13]) && font.Valid()
      invariant Loading(file, ValueOf(font), i, pos, currentAlloc, pool, slices) && memsize == |pool| % UINT
    {
      if pos + CHAR_HEADER_SIZE > |file| {
        LoadingCut(file, ValueOf(font), i, pos, currentAlloc, pool, slices);
        LoadedPool(file, ValueOf(font), i, pos, currentAlloc, pool, slices);
        cut := true;
        return;
      }
      var character := ReadWord(file[pos], file[pos + 1]);
      var width := ReadWord(file[pos + 2], file[pos + 3]) % 256;
      var size: nat := GlyphSize(font.fontHeight, width);
      if character >= MAX_GLYPH || pos + CHAR_HEADER_SIZE + size > |file| {
        LoadingCut(file, ValueOf(font), i, pos, currentAlloc, pool, slices);
        LoadedPool(file, ValueOf(font), i, pos, currentAlloc, pool, slices);
        cut := true;
        return;
      }
      LoadingNext(file, ValueOf(font), i, pos, currentAlloc, pool, slices,
                  Record(character, pos + CHAR_HEADER_SIZE, size), width);
      pos := pos + CHAR_HEADER_SIZE;
      memsize, currentAlloc := MakeRoom(memsize, currentAlloc, size, font.numchars - i, |pool|);
      if |pool| + size > currentAlloc {
        overrun := true;
        return;
      }
      StoreGlyph(font, character, Glyph(Some(file[pos..pos + size]), width, 0));
      slices := slices + [(|pool|, |pool| + size)];
      pool := pool + file[pos..pos + size];
      pos := pos + size;
      i := i + 1;
    }
    LoadingDone(file, ValueOf(font), pos, currentAlloc, pool, slices);
    LoadedPool(file, ValueOf(font), i, pos, currentAlloc, pool, slices);
  }

  /** The loader. Its pool is kept as the bytes it has received, of currentAlloc allocated; slices
      says where in it each glyph's pointer leads. When a glyph's rows do not fit what has been
      allocated the source writes behind it all the same: overrun, which is not followed further. */
  method LoadG15Font(file: seq<bv8>)
    returns (font: Font?, cut: bool, overrun: bool, memsize: nat, currentAlloc: nat, pool: seq<bv8>,
             ghost slices: seq<(nat, nat)>)
    ensures ReadFont(file).NotAFont? <==> font == null
    ensures font != null ==> fresh(font) && fresh(font.glyph) && fresh(font.active) && font.Valid()
    ensures font != null ==> |file| >= FONT_HEADER_SIZE && font.numchars == ReadWord(file[12], file[13])
    ensures font != null ==> (overrun <==> Overruns(file))
    ensures font != null && !overrun ==> (cut <==> ReadFont(file).Cut?)
    ensures font != null && !overrun && !cut ==>
              ReadFont(file) == Loaded(ValueOf(font)) && |FontRecords(file)| == font.numchars
    ensures font != null && !overrun ==> PoolInOrder(file, memsize, currentAlloc, pool, slices)
  {
    hide FromByte, ReadWord, PoolInOrder, Overruns, FontRecords, ReadChars;
    font, cut, overrun, memsize, currentAlloc, pool, slices := null, false, false, 0, 0, [], [];
    if |file| < FONT_HEADER_SIZE {
      return;
    }
    if file[0] != 0x47 || file[1] != 0x46 || file[2] != 0x4E || file[3] != 0x54 {
      return;
    }
    assert file[..4] == [0x47, 0x46, 0x4E, 0x54];
    font := FontFromHeader(file);
    cut, overrun, memsize, currentAlloc, pool, slices := LoadGlyphs(font, file);
  }

  /** The header fields fit the space the file has for them. */
  predicate Fits(v: FontValue) {
    v.fontHeight < 0x1_0000 && v.ascenderHeight < 0x1_0000 && v.lineheight < 0x1_0000 && v.defaultGap < 256
  }

  /** What a record gives back of a glyph: its width and its rows; the gap is not stored. */
  function KeptGlyph(v: FontValue, c: nat): Glyph
    requires Saveable(v) && c < MAX_GLYPH && v.active[c]
  {
    Glyph(Some(v.glyph[c].buffer.value[..GlyphSize(v.fontHeight, v.glyph[c].width)]), v.glyph[c].width, 0)
  }

  /** The font as loaded so far, when the records of the first n characters have been read. */
  function ReadBack(v: FontValue, n: nat): FontValue
    requires Saveable(v) && n <= MAX_GLYPH
  {
    v.(glyph := seq(MAX_GLYPH, c requires 0 <= c < MAX_GLYPH =>
                  if c < n && v.active[c] then KeptGlyph(v, c) else BLANK),
       active := seq(MAX_GLYPH, c requires 0 <= c < MAX_GLYPH => c < n && v.active[c]))
  }

  lemma {:induction false} CharsPrefix(v: FontValue, m: nat, n: nat)
    requires Saveable(v) && m <= n <= MAX_GLYPH
    ensures CharsBytes(v, m) <= CharsBytes(v, n)
  {
    hide CharBytes;
    if m < n {
      CharsPrefix(v, m, n - 1);
    }
  }

  lemma HeaderFields(v: FontValue, numchars: nat, rest: seq<bv8>)
    ensures var file := HeaderBytes(v, numchars) + rest;
            && |HeaderBytes(v, numchars)| == FONT_HEADER_SIZE
            && file[..4] == [0x47, 0x46, 0x4E, 0x54]
            && ReadWord(file[12], file[13]) == numchars % 0x1_0000
            && ReadHeader(file) == FontValue(v.fontHeight % 0x1_0000, v.ascenderHeight % 0x1_0000,
                                             v.lineheight % 0x1_0000, v.defaultGap % 256,
                                             seq(MAX_GLYPH, _ => BLANK), seq(MAX_GLYPH, _ => false))
  {
    hide ToByte, FromByte, ReadWord;
    WordRoundTrip(v.fontHeight);
    WordRoundTrip(v.ascenderHeight);
    WordRoundTrip(v.lineheight);
    WordRoundTrip(numchars);
    ByteRoundTrip(v.defaultGap);
  }

  /** Reading the record of character c where it was written stores that character's glyph. */
  lemma RecordRead(v: FontValue, file: seq<bv8>, pos: nat, c: nat, n: nat)
    requires Saveable(v) && c < MAX_GLYPH && v.active[c] && n > 0
    requires pos + |CharBytes(v, c)| <= |file| && file[pos..pos + |CharBytes(v, c)|] == CharBytes(v, c)
    ensures ReadChars(file, pos, n, ReadBack(v, c))
       == ReadChars(file, pos + |CharBytes(v, c)|, n - 1, ReadBack(v, c + 1))
  {
    hide ToByte, FromByte, ReadWord, GlyphSize, ReadChars;
    var record := CharBytes(v, c);
    var width := v.glyph[c].width;
    var size := GlyphSize(v.fontHeight, width);
    assert forall k :: 0 <= k < |record| ==> file[pos + k] == record[k];
    WordRoundTrip(c);
    WordRoundTrip(width);
    assert record[..4] == Word(c) + Word(width);
    ReadCharsNext(file, pos, n, ReadBack(v, c), width, size);
    assert file[pos + 4..pos + 4 + size] == KeptGlyph(v, c).buffer.value;
    assert WithGlyph(ReadBack(v, c), c, KeptGlyph(v, c)) == ReadBack(v, c + 1);
  }

  lemma {:induction false} CountMonotone(active: seq<bool>, m: nat, n: nat)
    requires m <= n <= |active|
    ensures ActiveCount(active, m) <= ActiveCount(active, n)
  {
    if m < n {
      CountMonotone(active, m, n - 1);
    }
  }

  /** How many active characters are still to be read when the first c are done. */
  function ActiveFrom(active: seq<bool>, c: nat): nat
    requires c <= |active|
  {
    CountMonotone(active, c, |active|);
    ActiveCount(active, |active|) - ActiveCount(active, c)
  }

  /** Where the record of c stands in the saved file. */
  lemma RecordPlace(v: FontValue, c: nat)
    requires Saveable(v) && c < MAX_GLYPH && v.active[c]
    ensures var pos, next := FONT_HEADER_SIZE + |CharsBytes(v, c)|, FONT_HEADER_SIZE + |CharsBytes(v, c + 1)|;
            next == pos + |CharBytes(v, c)| && next <= |SavedBytes(v)| && SavedBytes(v)[pos..next] == CharBytes(v, c)
  {
    hide CharBytes, Word, ToByte;
    var header := HeaderBytes(v, ActiveCount(v.active, MAX_GLYPH));
    assert |header| == FONT_HEADER_SIZE by {
      HeaderLength(v, ActiveCount(v.active, MAX_GLYPH));
    }
    CharsPrefix(v, c + 1, MAX_GLYPH);
    var upTo := CharsBytes(v, c + 1);
    assert SavedBytes(v)[..|header| + |upTo|] == header + upTo;
  }

  lemma HeaderLength(v: FontValue, numchars: nat)
    ensures |HeaderBytes(v, numchars)| == FONT_HEADER_SIZE
  {
  }

  lemma ReadBackSkips(v: FontValue, c: nat)
    requires Saveable(v) && c < MAX_GLYPH && !v.active[c]
    ensures ReadBack(v, c) == ReadBack(v, c + 1) && CharsBytes(v, c) == CharsBytes(v, c + 1)
    ensures ActiveFrom(v.active, c) == ActiveFrom(v.active, c + 1)
  {
    hide CharBytes;
  }

  lemma {:induction false} ReadFrom(v: FontValue, c: nat)
    requires Saveable(v) && c <= MAX_GLYPH
    ensures ReadChars(SavedBytes(v), FONT_HEADER_SIZE + |CharsBytes(v, c)|, ActiveFrom(v.active, c), ReadBack(v, c))
         == Loaded(ReadBack(v, MAX_GLYPH))
    decreases MAX_GLYPH - c
  {
    hide ReadChars, CharBytes, CharsBytes, SavedBytes, ReadBack, Saveable;
    var file := SavedBytes(v);
    ReadBackSize(v, c);
    if c == MAX_GLYPH {
      ReadCharsDone(file, FONT_HEADER_SIZE + |CharsBytes(v, c)|, ReadBack(v, c));
    } else {
      ReadFrom(v, c + 1);
      if v.active[c] {
        RecordPlace(v, c);
        RecordRead(v, file, FONT_HEADER_SIZE + |CharsBytes(v, c)|, c, ActiveFrom(v.active, c));
      } else {
        ReadBackSkips(v, c);
      }
    }
  }

  lemma ReadBackSize(v: FontValue, c: nat)
    requires Saveable(v) && c <= MAX_GLYPH
    ensures |v.active| == MAX_GLYPH && |ReadBack(v, c).glyph| == |ReadBack(v, c).active| == MAX_GLYPH
  {
  }

  lemma {:induction false} HeaderKept(file: seq<bv8>, pos: nat, n: nat, v: FontValue)
    requires |v.glyph| == |v.active| == MAX_GLYPH
    ensures var r := ReadChars(file, pos, n, v);
            r.Loaded? ==> && r.value.fontHeight == v.fontHeight && r.value.ascenderHeight == v.ascenderHeight
                          && r.value.lineheight == v.lineheight && r.value.defaultGap == v.defaultGap
    decreases n
  {
    hide ReadChars, ReadWord;
    if n == 0 {
      ReadCharsDone(file, pos, v);
    } else if pos + CHAR_HEADER_SIZE > |file| {
      ReadCharsCut(file, pos, n, v);
    } else {
      var character := ReadWord(file[pos], file[pos + 1]);
      var width := ReadWord(file[pos + 2], file[pos + 3]) % 256;
      var start, size := pos + CHAR_HEADER_SIZE, GlyphSize(v.fontHeight, width);
      ReadCharsNext(file, pos, n, v, width, size);
      if character < MAX_GLYPH && start + size <= |file| {
        HeaderKept(file, start + size, n - 1,
                   WithGlyph(v, character, Glyph(Some(file[start..start + size]), width, 0)));
      }
    }
  }

  /** Loading a saved font gives back its heights, default gap, active set, widths and glyph rows
      (with every glyph gap reset to 0) exactly when its header fields fit the file's. */
  lemma FontRoundTrip(v: FontValue)
    requires Saveable(v)
    ensures ReadFont(SavedBytes(v)) == Loaded(ReadBack(v, MAX_GLYPH)) <==> Fits(v)
  {
    hide ReadChars, CharsBytes, ReadWord, FromByte, ToByte, HeaderBytes;
    var count := ActiveCount(v.active, MAX_GLYPH);
    var file := SavedBytes(v);
    HeaderFields(v, count, CharsBytes(v, MAX_GLYPH));
    HeaderKept(file, FONT_HEADER_SIZE, count, ReadHeader(file));
    if Fits(v) {
      NothingRead(v);
      assert ReadHeader(file) == ReadBack(v, 0);
      ReadFrom(v, 0);
    }
  }

  lemma NothingRead(v: FontValue)
    requires Saveable(v)
    ensures CharsBytes(v, 0) == [] && ActiveCount(v.active, 0) == 0
  {
  }

  // ---- the file, byte by byte ----

  lemma ByteValue(b: bv8)
    ensures FromByte(b) == b as nat
  {
  }

  /** Two bytes of a file, the low one first. */
  function LittleEndian(file: seq<bv8>, i: nat): nat
    requires i + 1 < |file|
  {
    FromByte(file[i]) + 256 * FromByte(file[i + 1])
  }

  /** The header of a saved font: every field cut to its bytes, and the number of active glyphs. */
  lemma HeaderLayout(v: FontValue)
    requires Saveable(v)
    ensures |SavedBytes(v)| >= 15 && SavedBytes(v)[..4] == [0x47, 0x46, 0x4E, 0x54]
    ensures LittleEndian(SavedBytes(v), 4) == v.fontHeight % 0x1_0000
    ensures LittleEndian(SavedBytes(v), 6) == v.ascenderHeight % 0x1_0000
    ensures LittleEndian(SavedBytes(v), 8) == v.lineheight % 0x1_0000 && SavedBytes(v)[10] == SavedBytes(v)[11] == 0
    ensures LittleEndian(SavedBytes(v), 12) == |set c | 0 <= c < 256 && v.active[c]|
    ensures FromByte(SavedBytes(v)[14]) == v.defaultGap % 256
  {
    hide ToByte, FromByte, CharsBytes, HeaderBytes, ActiveCount;
    var n := ActiveCount(v.active, MAX_GLYPH);
    HeaderFilled(v, n, CharsBytes(v, MAX_GLYPH));
    CountIsSize(v.active, MAX_GLYPH);
  }

  lemma HeaderFilled(v: FontValue, n: nat, rest: seq<bv8>)
    requires n < 0x1_0000
    ensures |HeaderBytes(v, n) + rest| >= 15 && (HeaderBytes(v, n) + rest)[..4] == [0x47, 0x46, 0x4E, 0x54]
    ensures LittleEndian(HeaderBytes(v, n) + rest, 4) == v.fontHeight % 0x1_0000
    ensures LittleEndian(HeaderBytes(v, n) + rest, 6) == v.ascenderHeight % 0x1_0000
    ensures LittleEndian(HeaderBytes(v, n) + rest, 8) == v.lineheight % 0x1_0000
    ensures (HeaderBytes(v, n) + rest)[10] == (HeaderBytes(v, n) + rest)[11] == 0
    ensures LittleEndian(HeaderBytes(v, n) + rest, 12) == n
    ensures FromByte((HeaderBytes(v, n) + rest)[14]) == v.defaultGap % 256
  {
    hide ToByte, FromByte;
    var file := HeaderBytes(v, n) + rest;
    HeaderFields(v, n, rest);
    assert LittleEndian(file, 4) == ReadHeader(file).fontHeight;
    assert LittleEndian(file, 6) == ReadHeader(file).ascenderHeight;
    assert LittleEndian(file, 8) == ReadHeader(file).lineheight && FromByte(file[14]) == ReadHeader(file).defaultGap;
    FeatureBytes(v, n);
  }

  lemma FeatureBytes(v: FontValue, n: nat)
    ensures |HeaderBytes(v, n)| == 15 && HeaderBytes(v, n)[10] == HeaderBytes(v, n)[11] == 0
  {
    hide ToByte;
  }

  lemma TwoBytesRead(n: nat)
    ensures FromByte(ToByte(n)) + 256 * FromByte(ToByte(n / 256)) == n % 0x1_0000
  {
    hide ToByte, FromByte;
    ByteRoundTrip(n);
    ByteRoundTrip(n / 256);
    TwoBytes(n);
  }

  lemma {:induction false} CountIsSize(active: seq<bool>, n: nat)
    requires n <= |active|
    ensures ActiveCount(active, n) == |set c | 0 <= c < n && active[c]|
  {
    var now := set c | 0 <= c < n && active[c];
    if n == 0 {
      assert now == {};
    } else {
      CountIsSize(active, n - 1);
      var before := set c | 0 <= c < n - 1 && active[c];
      assert now == before + if active[n - 1] then {n - 1} else {};
    }
  }

  /** Where the record of character c begins: behind the header and the records before it, each four
      bytes and its rows. */
  function RecordStart(v: FontValue, c: nat): nat
    requires Saveable(v) && c <= 256
  {
    if c == 0 then 15
    else RecordStart(v, c - 1) + if v.active[c - 1] then 4 + v.fontHeight * ((v.glyph[c - 1].width + 7) / 8) else 0
  }

  lemma {:induction false} StartOfRecord(v: FontValue, c: nat)
    requires Saveable(v) && c <= 256
    ensures RecordStart(v, c) == FONT_HEADER_SIZE + |CharsBytes(v, c)|
  {
    hide ToByte;
    if c > 0 {
      StartOfRecord(v, c - 1);
      assert HoldsGlyph(v.glyph[c - 1], v.fontHeight, v.active[c - 1]);
    }
  }

  /** A character record in a file. */
  predicate RecordAt(file: seq<bv8>, start: nat, c: nat, width: nat, rows: seq<bv8>) {
    && start + 4 + |rows| <= |file| && LittleEndian(file, start) == c && LittleEndian(file, start + 2) == width
    && file[start + 4..start + 4 + |rows|] == rows
  }

  /** The record of an active character: its number, its width, and the rows of its glyph. */
  lemma RecordLayout(v: FontValue, c: nat)
    requires Saveable(v) && c < 256 && v.active[c]
    ensures var g := v.glyph[c];
            var size := v.fontHeight * ((g.width + 7) / 8);
            && g.buffer.Some? && size <= |g.buffer.value|
            && RecordAt(SavedBytes(v), RecordStart(v, c), c, g.width, g.buffer.value[..size])
  {
    hide ToByte, FromByte, SavedBytes, CharsBytes, Saveable, RecordStart, CharBytes;
    RecordGlyph(v, c);
    StartOfRecord(v, c);
    StartOfRecord(v, c + 1);
    RecordPlace(v, c);
    RecordOf(SavedBytes(v), RecordStart(v, c), v, c);
  }

  lemma RecordGlyph(v: FontValue, c: nat)
    requires Saveable(v) && c < 256 && v.active[c]
    ensures |v.glyph| == |v.active| == 256 && HoldsGlyph(v.glyph[c], v.fontHeight, true)
  {
  }

  lemma RecordOf(file: seq<bv8>, start: nat, v: FontValue, c: nat)
    requires Saveable(v) && c < 256 && v.active[c] && HoldsGlyph(v.glyph[c], v.fontHeight, true)
    requires start + |CharBytes(v, c)| <= |file| && file[start..start + |CharBytes(v, c)|] == CharBytes(v, c)
    ensures RecordAt(file, start, c, v.glyph[c].width,
                     v.glyph[c].buffer.value[..GlyphSize(v.fontHeight, v.glyph[c].width)])
  {
    hide ToByte, FromByte, Saveable, GlyphSize;
    RecordGlyph(v, c);
    var record := CharBytes(v, c);
    assert forall k :: 0 <= k < |record| ==> file[start + k] == record[k];
    TwoBytesRead(c);
    TwoBytesRead(v.glyph[c].width);
    assert file[start + 4..start + |record|] == record[4..];
  }

  /** What any loaded font has from its header. */
  lemma LoadedHeader(file: seq<bv8>)
    requires ReadFont(file).Loaded?
    ensures |file| >= 15
    ensures var v := ReadFont(file).value;
            && v.fontHeight == LittleEndian(file, 4) && v.ascenderHeight == LittleEndian(file, 6)
            && v.lineheight == LittleEndian(file, 8) && v.defaultGap == FromByte(file[14])
  {
    hide FromByte, ReadChars;
    HeaderKept(file, FONT_HEADER_SIZE, ReadWord(file[12], file[13]), ReadHeader(file));
  }

  /** The first record of a loaded file: four bytes behind the header, then the rows; it is one glyph
      of the font, active and without a gap, if no later record is for the same character. */
  lemma FirstRecordLayout(file: seq<bv8>)
    requires ReadFont(file).Loaded? && |FontRecords(file)| > 0
    ensures var r := FontRecords(file)[0];
            && |file| >= 19 && r.character == LittleEndian(file, 15) && r.start == 19
            && r.size == LittleEndian(file, 4) * ((LittleEndian(file, 17) % 256 + 7) / 8)
  {
    hide FromByte, ReadChars;
  }
}
