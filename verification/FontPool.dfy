/** When the glyph pool of g15r_loadG15Font is large enough. Its size is computed in 32 bits, so the
    answer depends on the font's header. */
module FontPool {
  import opened Options
  import opened Bits
  import opened Line
  import opened Text
  import opened FontFile

  /** The most bytes a glyph of that height can have: it is at most 255 pixels wide. */
  function Largest(fontHeight: nat): nat {
    32 * fontHeight
  }

  lemma SizeAtMost(fontHeight: nat, width: nat)
    requires width < 256
    ensures GlyphSize(fontHeight, width) <= Largest(fontHeight)
    ensures GlyphSize(fontHeight, 0) == 0 && GlyphSize(fontHeight, 255) == Largest(fontHeight)
  {
    MulMono(Stride(width), 32, fontHeight);
  }

  lemma {:induction false} RecordsAtMost(file: seq<bv8>, pos: nat, n: nat, fontHeight: nat)
    ensures forall k :: 0 <= k < |Records(file, pos, n, fontHeight)| ==>
              Records(file, pos, n, fontHeight)[k].size <= Largest(fontHeight)
    decreases n
  {
    hide Records, ReadWord, GlyphSize, Largest;
    if n == 0 || pos + CHAR_HEADER_SIZE > |file| {
      NoRecords(file, pos, n, fontHeight);
    } else {
      RecordsNext(file, pos, n, fontHeight);
      var width := ReadWord(file[pos + 2], file[pos + 3]) % 256;
      SizeAtMost(fontHeight, width);
      RecordsAtMost(file, pos + CHAR_HEADER_SIZE + GlyphSize(fontHeight, width), n - 1, fontHeight);
    }
  }

  /** Multiples of the largest size. */
  function Times(most: nat, n: nat): (p: nat) {
    most * n
  }

  lemma TimesNext(most: nat, n: nat)
    ensures Times(most, 0) == 0 && Times(most, n + 1) == Times(most, n) + most
  {
  }

  lemma TimesAdd(most: nat, m: nat, n: nat)
    ensures Times(most, m + n) == Times(most, m) + Times(most, n)
  {
    assert most * (m + n) == most * m + most * n;
  }

  lemma TimesMonotone(most: nat, m: nat, n: nat)
    requires m <= n
    ensures Times(most, m) <= Times(most, n)
  {
    MulMono(m, n, most);
  }

  lemma SmallRoom(size: nat, left: nat, most: nat)
    requires size <= most && left > 0 && Times(most, left) < UINT
    ensures size <= Room(size, left) <= Times(most, left)
  {
    MulMono(1, left, size);
    MulMono(size, most, left);
  }

  lemma RoomIs(size: nat, left: nat, most: nat, numchars: nat)
    requires size <= most && 0 < left <= numchars && Times(most, numchars + 1) <= UINT
    ensures size <= Room(size, left) <= Times(most, left) && Times(most, left) + most <= Times(most, numchars + 1)
  {
    hide Times, Room;
    TimesNext(most, left);
    TimesMonotone(most, left + 1, numchars + 1);
    if most == 0 {
      NoRoom(left);
    } else {
      SmallRoom(size, left, most);
    }
  }

  lemma NoRoom(left: nat)
    ensures Room(0, left) == 0 && Times(0, left) == 0
  {
  }

  /** If one glyph more than the font has, all of the largest size, can be counted in 32 bits, then
      no step wraps around and every glyph finds room. */
  lemma {:induction false} PoolFits(records: seq<Record>, n: nat, numchars: nat, most: nat)
    requires n <= |records| <= numchars && Times(most, numchars + 1) <= UINT
    requires forall k :: 0 <= k < |records| ==> records[k].size <= most
    ensures WithinPool(records, n, numchars) && Total(records, n) <= Times(most, n)
    ensures Allocated(records, n, numchars) == FIRST_ALLOC
       || Allocated(records, n, numchars) < Times(most, numchars + 1)
  {
    hide Times, Room, Allocated, Total, WithinPool;
    if n == 0 {
      PoolStart([], records, numchars);
      TimesNext(most, 0);
      NoTotal(records);
    } else {
      PoolFits(records, n - 1, numchars, most);
      WithinPoolNow(records, n - 1, numchars);
      TotalNext(records, n - 1);
      TimesNext(most, n - 1);
      AllocatedNext(records, n - 1, numchars);
      TimesAdd(most, n, numchars + 1 - n);
      TimesNext(most, numchars);
      TimesNext(most, numchars - n);
      TimesMonotone(most, n, numchars);
      RoomIs(records[n - 1].size, numchars - (n - 1), most, numchars);
      if most == 0 {
        NoRoom(n);
      }
      assert Used(records, n) == Total(records, n);
    }
  }

  lemma WithinPoolNow(records: seq<Record>, n: nat, numchars: nat)
    requires n <= |records| <= numchars && WithinPool(records, n, numchars)
    ensures Total(records, n) <= Allocated(records, n, numchars)
  {
  }

  lemma NoTotal(records: seq<Record>)
    ensures Total(records, 0) == 0
  {
  }

  /** The file's header announces that font height and that many glyphs. */
  predicate HeaderSays(file: seq<bv8>, fontHeight: nat, numchars: nat) {
    && |file| >= FONT_HEADER_SIZE
    && ReadWord(file[4], file[5]) == fontHeight && ReadWord(file[12], file[13]) == numchars
  }

  /** 32 * height * (glyphs + 1) fits 32 bits. */
  predicate SafeHeader(fontHeight: nat, numchars: nat) {
    Times(Largest(fontHeight), numchars + 1) <= UINT
  }

  lemma SafeHeaderFits(file: seq<bv8>, fontHeight: nat, numchars: nat)
    requires HeaderSays(file, fontHeight, numchars) && SafeHeader(fontHeight, numchars)
    ensures !Overruns(file)
  {
    hide Times, Largest, Records, ReadWord;
    RecordsAtMost(file, FONT_HEADER_SIZE, numchars, fontHeight);
    PoolFits(FontRecords(file), |FontRecords(file)|, numchars, Largest(fontHeight));
  }

  lemma FewGlyphs(fontHeight: nat, count: nat)
    requires fontHeight < 0x1_0000 && count <= MAX_GLYPH
    ensures SafeHeader(fontHeight, count)
  {
    MulMono(count + 1, 257, 32 * fontHeight);
  }

  /** So no file g15r_saveG15Font writes overruns: it has at most 256 glyphs. */
  lemma SavedFontFits(v: FontValue)
    requires Saveable(v) && Fits(v)
    ensures |SavedBytes(v)| >= FONT_HEADER_SIZE && !Overruns(SavedBytes(v))
  {
    hide ReadWord, CharsBytes, HeaderBytes, SafeHeader, Overruns;
    var count := ActiveCount(v.active, MAX_GLYPH);
    HeaderFields(v, count, CharsBytes(v, MAX_GLYPH));
    assert HeaderSays(SavedBytes(v), v.fontHeight, count);
    FewGlyphs(v.fontHeight, count);
    SafeHeaderFits(SavedBytes(v), v.fontHeight, count);
  }

  /** Records of empty glyphs followed by one of the largest size. */
  function EmptyThenLargest(empty: nat, fontHeight: nat): seq<bv8> {
    seq(4 * empty, _ => 0) + [0, 0, 255, 0] + seq(Largest(fontHeight), _ => 0)
  }

  lemma ByteValues()
    ensures ReadWord(0, 0) == 0 && ReadWord(255, 0) == 255
  {
    assert FromByte(0) == 0;
    assert FromByte(255) == 255;
  }

  lemma {:induction false} RecordsOfThese(file: seq<bv8>, pos: nat, n: nat, fontHeight: nat, empty: nat)
    requires empty < n && pos + 4 * empty + CHAR_HEADER_SIZE + Largest(fontHeight) <= |file|
    requires forall i :: pos <= i < pos + 4 * empty ==> file[i] == 0
    requires file[pos + 4 * empty..pos + 4 * empty + 4] == [0, 0, 255, 0]
    ensures var r := Records(file, pos, n, fontHeight);
            && |r| > empty && r[empty].size == Largest(fontHeight)
            && forall k :: 0 <= k < empty ==> r[k].size == 0
    decreases empty
  {
    hide Records, ReadWord, GlyphSize, Largest;
    ByteValues();
    SizeAtMost(fontHeight, 0);
    RecordsNext(file, pos, n, fontHeight);
    if empty == 0 {
      var head := file[pos..pos + 4];
      assert file[pos] == head[0] && file[pos + 1] == head[1] && file[pos + 2] == head[2] && file[pos + 3] == head[3];
    } else {
      RecordsOfThese(file, pos + 4, n - 1, fontHeight, empty - 1);
    }
  }

  lemma {:induction false} EmptyRecords(records: seq<Record>, n: nat, numchars: nat)
    requires n <= |records| <= numchars && forall k :: 0 <= k < n ==> records[k].size == 0
    ensures Total(records, n) == 0 && Allocated(records, n, numchars) == FIRST_ALLOC
  {
    if n > 0 {
      EmptyRecords(records, n - 1, numchars);
    }
  }

  /** The number of largest glyphs at which the allocation first wraps around. */
  lemma WrapsAt(most: nat, numchars: nat) returns (left: nat)
    requires Times(most, numchars) + FIRST_ALLOC >= UINT
    ensures 0 < left <= numchars && UINT <= Times(most, left) + FIRST_ALLOC < UINT + most
  {
    left := numchars;
    TimesNext(most, 0);
    while Times(most, left - 1) + FIRST_ALLOC >= UINT
      invariant 0 < left <= numchars && Times(most, left) + FIRST_ALLOC >= UINT
    {
      left := left - 1;
    }
    TimesNext(most, left - 1);
  }

  /** A largest glyph that arrives when that many are left is given less room than it needs. */
  lemma WrappedRoom(most: nat, left: nat)
    requires UINT <= Times(most, left) + FIRST_ALLOC < UINT + most && most < UINT - FIRST_ALLOC
    ensures (FIRST_ALLOC + Room(most, left)) % UINT == Times(most, left) + FIRST_ALLOC - UINT < most
  {
    var p := most * left;
    if p >= UINT {
      assert p % UINT == p - UINT;
    } else {
      assert p % UINT == p;
    }
  }

  /** The converse: a header that lets the allocation of its largest glyphs wrap around belongs to
      a file that overruns - empty glyphs, then one of the largest at the wrong moment. */
  lemma OverrunFile(fontHeight: nat, numchars: nat) returns (file: seq<bv8>)
    requires fontHeight < 0x1_0000 && numchars < 0x1_0000
    requires Times(Largest(fontHeight), numchars) + FIRST_ALLOC >= UINT
    ensures HeaderSays(file, fontHeight, numchars) && Overruns(file)
  {
    hide Times, Room, Records, ReadWord, HeaderBytes, Allocated, Total, WithinPool;
    var most := Largest(fontHeight);
    var left := WrapsAt(most, numchars);
    var empty := numchars - left;
    LargestIsLarge(fontHeight, numchars);
    var v := FontValue(fontHeight, 0, 0, 0, [], []);
    file := HeaderBytes(v, numchars) + EmptyThenLargest(empty, fontHeight);
    HeaderFields(v, numchars, EmptyThenLargest(empty, fontHeight));
    RecordsOfThese(file, FONT_HEADER_SIZE, numchars, fontHeight, empty);
    var records := FontRecords(file);
    EmptyRecords(records, empty, numchars);
    TotalNext(records, empty);
    AllocatedNext(records, empty, numchars);
    WrappedRoom(most, left);
    assert Total(records, empty + 1) > Allocated(records, empty + 1, numchars);
    WithinMonotone(records, empty + 1, |records|, numchars);
  }

  lemma LargestIsLarge(fontHeight: nat, numchars: nat)
    requires fontHeight < 0x1_0000 && numchars < 0x1_0000
    requires Times(Largest(fontHeight), numchars) + FIRST_ALLOC >= UINT
    ensures FIRST_ALLOC < Largest(fontHeight) < UINT - FIRST_ALLOC
  {
    MulMono(numchars, 0x1_0000, 32 * fontHeight);
  }

  /** The header decides: no file with it overruns exactly when 32 * height * (glyphs + 1) fits 32
      bits. Left open is, for each height, the one number of glyphs described by Undecided. */
  lemma HeaderDecides(fontHeight: nat, numchars: nat)
    requires fontHeight < 0x1_0000 && numchars < 0x1_0000
    ensures !Undecided(fontHeight, numchars) ==>
              ((forall file :: HeaderSays(file, fontHeight, numchars) ==> !Overruns(file))
               <==> SafeHeader(fontHeight, numchars))
  {
    hide Overruns, Times, Largest, ReadWord;
    if SafeHeader(fontHeight, numchars) {
      forall file | HeaderSays(file, fontHeight, numchars) ensures !Overruns(file) {
        SafeHeaderFits(file, fontHeight, numchars);
      }
    } else if !Undecided(fontHeight, numchars) {
      var file := OverrunFile(fontHeight, numchars);
    }
  }

  /** The allocation wraps around only with one glyph more than there are: whether a file can bring
      that about depends on the sizes its glyphs can add up to. */
  predicate Undecided(fontHeight: nat, numchars: nat) {
    Times(Largest(fontHeight), numchars) + FIRST_ALLOC < UINT < Times(Largest(fontHeight), numchars + 1)
  }

  lemma OneUndecided(fontHeight: nat, m: nat, n: nat)
    requires Undecided(fontHeight, m) && Undecided(fontHeight, n)
    ensures m == n
  {
    if m < n {
      MulMono(m + 1, n, 32 * fontHeight);
    } else if n < m {
      MulMono(n + 1, m, 32 * fontHeight);
    }
  }

  /** For instance: 2049 glyphs of height 65535. The first, 255 pixels wide, needs 2097120 bytes and
      is given 2033632. */
  lemma TallFontOverruns()
    ensures !SafeHeader(65535, 2049) && !Undecided(65535, 2049)
    ensures var records := [Record(65, FONT_HEADER_SIZE + CHAR_HEADER_SIZE, GlyphSize(65535, 255))];
            Total(records, 1) == 2097120 && Allocated(records, 1, 2049) == 2033632
  {
    var records := [Record(65, FONT_HEADER_SIZE + CHAR_HEADER_SIZE, GlyphSize(65535, 255))];
    assert Total(records, 0) == 0 && Total(records, 1) == 2097120;
    assert Allocated(records, 0, 2049) == FIRST_ALLOC;
    assert Room(2097120, 2049) == 2031584;
  }
}
