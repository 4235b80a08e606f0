# Verified model of the Logitech G15 tools

This project models the parts of logitools whose behaviour is decided by code rather than by
tables or by the outside world, and proves what they do.

- **Drawing** (`Bits`, `Screen`, `Line`, `Box`, `Circle`, `Undo`, `Text`). The 160x43 canvas is an
  array of bytes. Every drawing routine is proved to have exactly the effect of handing a certain
  sequence of dots to `setPixel`; `Screen` settles once what a sequence of dots does in plain,
  reverse and xor mode; the modules for the figures settle which dots they are. The incremental
  error of the line, the decision value of the circle and the hand-kept cursor of the glyph
  blitter are each related to a closed form.
- **The display format** (`Transpose`). The conversion from canvas rows to the keyboard's column
  bytes, against the older driver's direct `setPixel`.
- **Font files** (`FontFile`, `FontPool`). Saving, loading and the glyph pool, whose size is computed
  in 32 bits.
- **The ring of client screens** (`ClientRing`, `ClientList`). `ClientRing` says what each locked
  operation does to the ring as a value and proves properties of whole runs; `ClientList` relinks
  heap nodes and is proved to refine it.
- **Keys** (`KeyRouting`). The cycle-key gate in front of the event handlers, the uinput plugin
  behind it, and the two together over whole runs.
- **Configuration** (`Numerals`, `ConfigModel`, `ConfigText`, `ConfigExact`, `ConfigStore`). The two
  linked lists, the file they are printed to and read from, which stores survive that exactly, and
  the typed accesses.
- **Client frames** (`ClientStream`). Receiving frames from a byte stream cut anywhere.
- **Macro files** (`MacroFile`). Dumping and restoring the macro tables.

`Options` holds a shared option type. Where code and documentation differ, the model follows the
code:

- `g15r_drawCircle` documents a radius r, but from r = 3 on the figure is r + 1 wide on each side
  and r high (`Circle.CircleExtent`, `Circle.CircleWithinRadius`).
- `g15r_pixelBox` documents sides of any thickness; past the middle the frames grow out of the box
  again (`Box.BoxExact` gives the exact condition).
- `g15r_pixelReverseFill` documents that contents are reversed; that holds only with both drawing
  modes off (`Box.ReverseFillComplements`).
- A click of the cycle key is documented by how long it is held; the code times it from the last
  report during the hold (`KeyRouting.HoldTimedFromLastReport` is such a hold), and a long hold that
  ends on the daemon's own screen follows a null pointer (`KeyRouting.HoldWithoutPlugin`).
  `KeyRouting.HoldAsDocumented` says exactly which holds come out as documented, and
  `KeyRouting.HoldAlwaysAsDocumented` when that is certain before the key is let go.
- A comment says that key events are always sent to the OS keyboard handler; none is while the cycle
  key is down or just released, so a key let go together with it stays held there
  (`KeyRouting.KeyLeftHeld`). `KeyRouting.KernelHoldsLastHanded` and `KeyRouting.HeldAfterHold` say
  when the kernel is right.
- `g15r_G15FPrint` documents centred and right-justified text; without a default gap such text can
  run one column off the screen although it is measured to fit (`Text.JustifiedFitsExactly` says for
  which fonts; `Text.BarFont` is one for which the gap alone decides).
- A priority request may bring back a screen that has been removed (`ClientRing.StalePriority`);
  `ClientRing.RequestKeepsRingExactly` says exactly when it does not.
- The font loader is meant to allocate more memory whenever a glyph does not fit; its 32-bit product
  can wrap around and leave too little (`FontPool.TallFontOverruns`). `FontPool.HeaderDecides` says for
  which headers that cannot happen; saved fonts are among them (`FontPool.SavedFontFits`).
- The cycle key never comes to rest when the only client has asked not to be selected
  (`ClientRing.NowhereToStop`, `ClientList.Masterlist.SkipInVain`).
- A boolean default other than 0 or 1 is returned as it is the first time and as 1 afterwards
  (`ConfigModel.BoolRoundTrip`).

## Model

| member | source | states |
|---|---|---|
| Screen.UnsignedClip | liblogitechrender/src/screen.c:50-54 | the unsigned bounds test rejects exactly the points off the screen, negative ones included |
| Screen.Canvas.SetPixel | liblogitechrender/src/screen.c:50-72 | the bytes afterwards are the one-dot drawing of the current mode |
| Screen.Canvas.GetPixel | liblogitechrender/src/screen.c:29-40 | 1 exactly for a set pixel on the screen |
| Screen.Canvas.ClearScreen | liblogitechrender/src/screen.c:80-84 | fills every byte, so every pixel has the colour |
| Screen.Canvas.InitCanvas | liblogitechrender/src/screen.c:91-102 | blank canvas with all modes off |
| Screen.PlotAt | liblogitechrender/src/screen.c:56-70 | one dot changes its own pixel by the mode's rule and no other bit of the buffer |
| Screen.PixelByte | liblogitechrender/src/screen.c:29-40 | pixel (x, y) is bit 7 - x mod 8 of byte 20y + x/8 |
| Screen.DotInMode | liblogitechrender/src/screen.c:56-70 | one dot in each of the drawing modes, xor and reverse together included |
| Screen.PaintAll | liblogitechrender/src/screen.c:60-70 | outside xor mode dots of one colour paint the pixels they hit, in any order and with any overlap, and no others |
| Screen.TailUntouched | liblogitechrender/src/screen.c:53-54 | no drawing changes a bit behind the last pixel |
| Screen.XorTwiceRestores | liblogitechrender/src/screen.c:60-70 | in xor mode any drawing in colours 0 and 1 repeated restores every byte, whatever its overlaps |
| Screen.XorTwiceExactly | liblogitechrender/src/screen.c:60-70 | a one-colour xor drawing undoes itself on every canvas exactly when the colour is 0 or 1 or nothing of it is on the screen |
| Screen.XorToggles | liblogitechrender/src/screen.c:60-70 | in xor mode a drawing toggles the pixels it plots an odd number of times, with colour 1, or 0 in reverse |
| Undo.FiguresUndoThemselves | liblogitechrender/src/pixel.c:102-240 | lines, boxes and circles drawn twice in xor mode leave the canvas as it was |
| Line.DrawLine | liblogitechrender/src/pixel.c:102-150 | the loop with the running error draws exactly the dots of the rounded line |
| Line.MinorUnique | liblogitechrender/src/pixel.c:130-149 | the minor offset is the one integer whose remainder lies in the half-open band of half a pixel |
| Line.ErrorStep | liblogitechrender/src/pixel.c:143-148 | one update of the error term goes with one step of the rounded quotient |
| Line.LineExact | liblogitechrender/src/pixel.c:102-150 | a pixel is on the line exactly when it is within half a pixel of the ideal line, ties one way |
| Line.LineGentle | liblogitechrender/src/pixel.c:102-150 | the same in plain coordinates for a gentle line: in each column the pixel nearest to the ideal line |
| Line.LineSteep | liblogitechrender/src/pixel.c:108-114 | a steep line is the gentle one with exchanged axes |
| Line.LineEndpoints | liblogitechrender/src/pixel.c:102-150 | one dot per major step, beginning and ending on the two end points |
| Line.LineConnected | liblogitechrender/src/pixel.c:137-149 | consecutive dots touch and never coincide |
| Line.LineInBox | liblogitechrender/src/pixel.c:137-149 | every dot lies in the bounding box of the end points and has the colour |
| Line.LineSymmetric | liblogitechrender/src/pixel.c:116-126 | exchanging the end points draws the same line |
| Box.PixelBox | liblogitechrender/src/pixel.c:166-192 | four lines per shrinking layer and the fill loops draw the dots of the box |
| Box.BoxExact | liblogitechrender/src/pixel.c:155-192 | the dots are exactly the rectangle, or its border of that thickness, if and only if no layer shrinks past the opposite side |
| Box.BoxPainted | liblogitechrender/src/pixel.c:155-192 | outside xor mode the wanted pixels take the colour and all others stay |
| Box.BoxToggles | liblogitechrender/src/pixel.c:166-192 | in xor mode the wanted pixels are toggled except on the diagonals of the corners, which are plotted twice |
| Box.PixelReverseFill | liblogitechrender/src/pixel.c:48-64 | every pixel of the area is written once, from its own old value; nothing else changes |
| Box.ReverseFillComplements | liblogitechrender/src/pixel.c:37-64 | without fill the area is complemented exactly when neither mode is on |
| Box.ReverseFillFills | liblogitechrender/src/pixel.c:48-64 | with fill the area takes the given colour as setPixel would paint it in each mode |
| Box.PixelOverlay | liblogitechrender/src/pixel.c:77-90 | draws the cells of the bitmap |
| Box.OverlayExact | liblogitechrender/src/pixel.c:66-90 | cell (c, r) lands on pixel (x1+c, y1+r) once, and no other pixel changes |
| Circle.DrawCircle | liblogitechrender/src/pixel.c:206-240 | the loop with its decision value draws the dots of the walked quadrant, whose points `QuadrantTop`, `QuadrantRow` and `QuadrantRowBelow` settle from the squares alone |
| Circle.DecisionSteps | liblogitechrender/src/pixel.c:230-239 | the two updates keep the decision value at (xx+1)^2 + yy^2 + 2 - (r+1)^2 |
| Circle.Progress | liblogitechrender/src/pixel.c:215-239 | every turn moves, and the column never passes r + 1 |
| Circle.CircleIterations | liblogitechrender/src/pixel.c:215-239 | at most 2r + 2 turns |
| Circle.QuadrantTop | liblogitechrender/src/pixel.c:210-215 | the walk begins at (0, r) and stays in the quadrant |
| Circle.QuadrantRow | liblogitechrender/src/pixel.c:229-239 | a row goes on from column a exactly when (a+1)^2 + b^2 + b + 2 <= (r+1)^2 |
| Circle.QuadrantRowBelow | liblogitechrender/src/pixel.c:229-239 | the row below begins straight down or one to the right, by one more difference of squares |
| Circle.OutlineToggles | liblogitechrender/src/pixel.c:217-223 | in xor mode the outline toggles its pixels except the four on the axes, which it plots twice |
| Circle.FilledToggles | liblogitechrender/src/pixel.c:224-229 | in xor mode the filled circle toggles a row by the number of points visited in it, and the centre row never |
| Circle.CircleBand | liblogitechrender/src/pixel.c:206-240 | every plotted point lies in a thin band about the circle of radius r + 1 |
| Circle.OutlineExact | liblogitechrender/src/pixel.c:217-223 | the outline is the walked quadrant mirrored in both axes |
| Circle.FilledExact | liblogitechrender/src/pixel.c:224-229 | the filled figure is the outline with every row closed up, no more and no less |
| Circle.FilledRows | liblogitechrender/src/pixel.c:224-229 | the filled figure meets exactly the rows y-r to y+r |
| Circle.CircleExtent | liblogitechrender/src/pixel.c:195-240 | exactly r high on each side, and wide r up to r = 2 and r + 1 beyond |
| Circle.CircleWithinRadius | liblogitechrender/src/pixel.c:195-240 | the outline stays within the documented radius exactly for r up to 2 |
| Transpose.DumpPixmapIntoLCDFormat | liblogitech/liblogitech.c:349-425 | fills the 960 display bytes and touches no other byte |
| Transpose.DumpedPixel | liblogitech/liblogitech.c:397-424 | bit y mod 8 of byte 160*(y/8) + x is pixel (x, y) of the source, for all 48 rows |
| Transpose.DisplayLayout | liblogitech/liblogitech.c:349-425 | bit y mod 8 of byte 160(y div 8) + x behind the first 32 is bit 7 - x mod 8 of canvas byte 20y + x div 8 |
| Transpose.ColumnSetPixel | Attic/g15lcd/lcd.cpp:37-55 | the direct form sets one bit of one display byte |
| Transpose.ColumnLayout | Attic/g15lcd/lcd.cpp:37-55 | the direct form changes that one bit, on the screen only |
| Transpose.DumpCommutesWithSetPixel | liblogitech/liblogitech.c:387-424 | setting a pixel and converting equals converting and setting it directly, also off the screen |
| Transpose.DumpCommutesWithDrawing | liblogitech/liblogitech.c:387-424 | the same for any whole drawing in plain mode |
| Transpose.DumpInvertible | liblogitech/liblogitech.c:387-424 | the conversion of 960 bytes is a bijection, with its inverse given |
| Text.RenderG15Glyph | liblogitechrender/src/text.c:491-535 | draws background and glyph dots and returns the advance |
| Text.BlitBits | liblogitechrender/src/text.c:505-530 | the running x, y, w cursor draws each cell of each row in order, for every width and height |
| Text.GlyphExact | liblogitechrender/src/text.c:516-530 | a pixel is inked exactly by bit 7 - c mod 8 of byte r*stride + c/8 for c below the width; padding is never drawn |
| Text.GlyphWithBackground | liblogitechrender/src/text.c:511-529 | with painted background the cell and its box come out opaque |
| Text.RenderString | liblogitechrender/src/text.c:547-559 | each glyph is drawn at the pen position reached by the advances before it |
| Text.TestG15FontWidth | liblogitechrender/src/text.c:445-456 | sums width, gap and default gap, and clears the gap of the space |
| Text.G15FPrint | liblogitechrender/src/text.c:572-603 | left-justified text starts at the given column (one less below size 3), centred text leaves the same room on both sides up to one column, right-justified text ends at column 160 |
| Text.TextExact | liblogitechrender/src/text.c:505-559 | a line of text from the bits of its glyphs: which pixels are plotted, for every string and font |
| Text.PenMoves | liblogitechrender/src/text.c:531-534 | the pen moves by width and default gap, without the gap for a space, not at all for a missing glyph |
| Text.TextColour | liblogitechrender/src/text.c:505-559 | every dot of such a line has the colour asked for |
| Text.MeasuredIsPenPlusSlack | liblogitechrender/src/text.c:445-456 | measured width minus pen movement is the gaps, the default gap of spaces and missing glyphs, and the widths of missing glyphs |
| Text.StringHit | liblogitechrender/src/text.c:491-559 | a line of text touches exactly the pixels of its glyphs' cells and, where the background is painted, of their boxes |
| Text.JustifiedFitsExactly | liblogitechrender/src/text.c:572-603 | at every size, all centred and right-justified text measured to fit keeps its ink on the screen exactly when the font has a default gap or no printable glyph reaches its own edge |
| Text.RunsOff | liblogitechrender/src/text.c:598-601 | without a default gap a glyph that reaches its edge, justified to the right, has a dot in column 160 |
| Text.BackgroundSpan | liblogitechrender/src/text.c:511-514 | with painted background no dot of such text lies outside columns 0 to 160 |
| Text.RightEdge | liblogitechrender/src/text.c:598-601 | the last cell of plain right-justified text ends in column 160 minus the default gap, its painted background in column 160 |
| FontFile.SaveG15Font | liblogitechrender/src/text.c:367-424 | writes header and records, recounts the glyphs and leaves the font alone |
| FontFile.HeaderLayout | liblogitechrender/src/text.c:379-408 | the fifteen header bytes of a saved font, field by field, with the number of active glyphs |
| FontFile.RecordLayout | liblogitechrender/src/text.c:410-421 | where each active character's record stands, and its bytes |
| FontFile.LoadG15Font | liblogitechrender/src/text.c:291-358 | yields what the file says and stops where a glyph overruns the pool; the slices are the records' rows in order, memory used and allocation follow the 32-bit rule |
| FontFile.LoadedHeader | liblogitechrender/src/text.c:319-333 | heights and default gap of a loaded font are those bytes of its file |
| FontFile.FirstRecordLayout | liblogitechrender/src/text.c:338-351 | where the first record stands and how long its rows are |
| FontPool.PoolFits | liblogitechrender/src/text.c:334-348 | when one largest glyph more than the font has can be counted in 32 bits, no step wraps and every glyph finds room |
| FontPool.HeaderDecides | liblogitechrender/src/text.c:318-348 | no file with a given font height and number of glyphs overruns the pool exactly when 32 * height * (glyphs + 1) fits 32 bits, for all but one number of glyphs per height |
| FontPool.OverrunFile | liblogitechrender/src/text.c:334-350 | a header past that bound belongs to a file that overruns, which is constructed |
| FontPool.SavedFontFits | liblogitechrender/src/text.c:334-424 | a saved font never overruns the pool when it is loaded |
| FontFile.GlyphInPool | liblogitechrender/src/text.c:349-353 | the pool slice of a record holds the rows of its character's glyph in the loaded font, unless a later record is for the same character |
| FontFile.FontRoundTrip | liblogitechrender/src/text.c:308-424 | a saved font loads back, gaps reset, exactly when its header fields fit their stored sizes |
| ClientList.Masterlist.constructor | logitoolsd/logitoolsd/linked_lists.c:55-83 | a ring of one |
| ClientList.Masterlist.Add | logitoolsd/logitoolsd/linked_lists.c:85-108 | the relinked nodes are the ring with one more at the head, now current |
| ClientList.Masterlist.Cycle | logitoolsd/logitoolsd/linked_lists.c:111-148 | ends at the first selectable screen backwards and marks only it as user foreground |
| ClientList.Masterlist.SkipPass | logitoolsd/logitoolsd/linked_lists.c:118-142 | one pass of the skip loop goes on exactly when the screen it comes to is not selectable |
| ClientList.Masterlist.SkipInVain | logitoolsd/logitoolsd/linked_lists.c:118-142 | with nothing selectable every pass of the skip loop leads to another |
| ClientList.Masterlist.HideAll | logitoolsd/logitoolsd/linked_lists.c:120-130 | goes round once, returns to its start and clears every mark |
| ClientList.Masterlist.Remove | logitoolsd/logitoolsd/linked_lists.c:150-192 | the relinked nodes are the ring without that client; the tail is never removed; the foreground changes only when it is the one removed |
| ClientList.Masterlist.RequestPriority | logitoolsd/logitoolsd/main.c:145-168 | the three-way switch of the current screen on the relinked nodes; `ClientRing.RequestExact` says which screen comes up in each case |
| ClientList.Masterlist.NeverSelect | logitoolsd/plugins/g15_plugin_net.c:72-77 | the client is left out of the cycle from then on |
| ClientList.Masterlist.Destroy | logitoolsd/logitoolsd/linked_lists.c:194-200 | removing heads ends with only the tail |
| ClientRing.RunKeepsRing | logitoolsd/logitoolsd/linked_lists.c:55-206 | over every run: one ring, the same tail, the current screen a member, at most one user foreground |
| ClientRing.RequestKeepsRingExactly | logitoolsd/logitoolsd/main.c:145-168 | a request keeps the current screen in the list exactly when the remembered one is still there |
| ClientRing.AddAndRemove | logitoolsd/logitoolsd/linked_lists.c:85-192 | a new client is at the head and in front; who follows a client that leaves |
| ClientRing.CycleGoesBack | logitoolsd/logitoolsd/linked_lists.c:111-148 | the cycle key stops at the selectable client nearest before the current one, or else nearest to the head |
| ClientRing.RequestExact | logitoolsd/logitoolsd/main.c:145-168 | each case of a priority request; in front with nothing or itself remembered, a client gives way to its predecessor |
| ClientRing.ConnectThenRequest | logitoolsd/logitoolsd/main.c:145-168 | so a client that has just connected shows the one before it |
| ClientRing.CycleThenRequest | logitoolsd/logitoolsd/main.c:145-168 | and so does one the cycle key has just come to |
| ClientRing.StalePriority | logitoolsd/logitoolsd/main.c:145-168 | a run in which a request brings a removed screen to the front |
| ClientRing.StopsExactly | logitoolsd/logitoolsd/linked_lists.c:118-142 | there is a place to stop behind any node exactly when some node is selectable |
| ClientRing.NowhereToStop | logitoolsd/logitoolsd/linked_lists.c:85-142 | a run to a ring without one: the only client connects and asks never to be selected |
| ClientRing.TwoRequestsRestore | logitoolsd/logitoolsd/main.c:149-164 | two requests by a background client put back the screen in front |
| ClientRing.FullRotation | logitoolsd/logitoolsd/linked_lists.c:111-148 | from a selectable screen, as many presses as selectable screens show each exactly once and return |
| KeyRouting.Gate.KeyPress | logitoolsd/logitoolsd/main.c:65-137 | the static variables remember just what is needed of the last report; the effects follow, up to a null pointer; `WhoReceivesWhat` says what each receiver gets |
| KeyRouting.KeyPresses | logitoolsd/logitoolsd/main.c:65-137 | over any run the daemon survives, each effect depends on two consecutive reports only |
| KeyRouting.WhoReceivesWhat | logitoolsd/logitoolsd/main.c:65-137 | an ordinary report hands the plugin exactly its keys, and a remote or else the OS handler the same; a long release hands the plugin its keys with and then without the cycle key; nobody receives anything else |
| KeyRouting.AliveExactly | logitoolsd/logitoolsd/main.c:114-122 | the daemon survives a run exactly when no long hold ends with no plugin in front |
| KeyRouting.TouchesIs | logitoolsd/logitoolsd/main.c:67 | the cycle key is touched when one of its keys is down |
| KeyRouting.CycleKeyKeptBack | logitoolsd/logitoolsd/main.c:67-89 | no state with the cycle key down reaches the OS or a remote handler |
| KeyRouting.OneCyclePerShortRelease | logitoolsd/logitoolsd/main.c:106-133 | the screens change once for every short release and at no other time |
| KeyRouting.HoldAsDocumented | logitoolsd/logitoolsd/main.c:106-133 | a whole hold has the documented outcome exactly when it was shorter than half a second, or as much had passed since the last report during it and the foreground screen has a plugin |
| KeyRouting.HoldAlwaysAsDocumented | logitoolsd/logitoolsd/main.c:106-133 | a hold in progress has the documented outcome for every time of release exactly when no later report has come in since the press and the foreground screen has a plugin |
| KeyRouting.HoldWithoutPlugin | logitoolsd/logitoolsd/main.c:114-122 | a plain hold of 700 ms on the daemon's own screen follows its null plugin pointer |
| KeyRouting.UinputPlugin.KeyEvent | logitoolsd/plugins/g15_plugin_uinput.c:153-307 | the codes sent are the edges between the two states, key by key |
| KeyRouting.EdgesInOrder | logitoolsd/plugins/g15_plugin_uinput.c:153-307 | the codes of one event come in the order of the keys, each at most once |
| KeyRouting.CodesReplayed | logitoolsd/plugins/g15_plugin_uinput.c:153-307 | after any run the kernel holds exactly the mapped image of the state forwarded last, down and up strictly alternating |
| KeyRouting.CodesOfKeys | logitoolsd/plugins/g15_plugin_uinput.c:47-52 | the codes held are 167 to 188 for the G and M keys down, and 189 to 193 for the L keys only when mapped |
| KeyRouting.KeyboardToKernel | logitoolsd/logitoolsd/main.c:67-89 | gate and plugin, with their static variables, send the codes of the states handed on |
| KeyRouting.KernelHoldsLastHanded | logitoolsd/logitoolsd/main.c:67-89 | the kernel holds what is pressed whenever the newest report was handed on, and otherwise what it held before |
| KeyRouting.HeldAfterHold | logitoolsd/logitoolsd/main.c:67-133 | after a hold of the cycle key the kernel is right exactly when the same mapped keys are down as before it |
| KeyRouting.CycleKeyNeverHeld | logitoolsd/logitoolsd/main.c:65-137 | gate and plugin together never have the cycle key's code held |
| Numerals.IntRoundTrip | logitoolsd/logitoolsd/utility_funcs.c:524-567 | an integer survives printing and reading |
| Numerals.ReadsNumber | logitoolsd/logitoolsd/utility_funcs.c:559-567 | reading skips blanks, takes a sign and stops at what is no digit |
| Numerals.DecimalDigits | logitoolsd/logitoolsd/utility_funcs.c:524-528 | a number is printed as its last decimal digit behind the others |
| ConfigModel.RunIsMap | logitoolsd/logitoolsd/utility_funcs.c:384-589 | over any run of loads, reads and writes on any sections: names and keys unique, nothing changes its place, a lookup finds what was stored last in that section |
| ConfigModel.PlacesKept | logitoolsd/logitoolsd/utility_funcs.c:413-473 | at every point of a run what is there keeps its place to the end |
| ConfigModel.OthersUntouched | logitoolsd/logitoolsd/utility_funcs.c:444-589 | a section the run does not access is left as it was |
| ConfigModel.StoredTexts | logitoolsd/logitoolsd/utility_funcs.c:444-589 | a write leaves the number in decimal, On or Off, or the text; a read that finds nothing leaves its default so |
| ConfigModel.CountsAsOn | logitoolsd/logitoolsd/utility_funcs.c:546-556 | a text counts as On by its first two characters |
| ConfigModel.BoolRoundTrip | logitoolsd/logitoolsd/utility_funcs.c:537-556 | a boolean comes back as 0 or 1, so equal to what was written exactly for those |
| ConfigStore.ConfigSection.SearchItem | logitoolsd/logitoolsd/utility_funcs.c:396-409 | finds the first item with the key, or nothing |
| ConfigStore.ConfigSection.WriteString | logitoolsd/logitoolsd/utility_funcs.c:444-473 | updates in place or appends behind the node the first one's head points at |
| ConfigStore.ConfigFile.LoadSection | logitoolsd/logitoolsd/utility_funcs.c:413-430 | returns the section of that name, appended if new; all others stay where they are in the list |
| ConfigStore.KeptAfter | logitoolsd/logitoolsd/utility_funcs.c:413-473 | a section pointer stays that of its name whatever is loaded or accessed later |
| ConfigStore.ConfigFile.WriteString | logitoolsd/logitoolsd/utility_funcs.c:444-473 | changes one section and leaves all others as they were |
| ConfigStore.CfgWrite | logitoolsd/logitoolsd/utility_funcs.c:444-541 | the typed writes store the number in decimal, On or Off, or the text (`ConfigModel.StoredTexts`) in the named section and keep the whole configuration valid; no section gives -1 |
| ConfigStore.CfgReadInt | logitoolsd/logitoolsd/utility_funcs.c:559-567 | the stored number, or the default, which is stored in decimal; the configuration stays valid |
| ConfigStore.CfgReadBool | logitoolsd/logitoolsd/utility_funcs.c:546-556 | whether the text begins with On, or the default, which is stored; the configuration stays valid |
| ConfigStore.CfgReadString | logitoolsd/logitoolsd/utility_funcs.c:581-589 | the stored text, or the default, which is stored; the configuration stays valid |
| ConfigStore.WriteThenReadInt | logitoolsd/logitoolsd/utility_funcs.c:524-567 | an integer written is what any later read returns, whatever its default |
| ConfigStore.WriteThenReadBool | logitoolsd/logitoolsd/utility_funcs.c:537-556 | a boolean written reads as 1 or 0 and is stored as On or Off |
| ConfigStore.WriteThenReadString | logitoolsd/logitoolsd/utility_funcs.c:444-589 | a text written is what a later read returns |
| ConfigStore.ReadIntTwice | logitoolsd/logitoolsd/utility_funcs.c:559-567 | a second read returns what the first one stored as its default |
| ConfigStore.TakeSteps | logitoolsd/logitoolsd/utility_funcs.c:384-589 | any run of loads and accesses on the linked lists, with section pointers kept from their first load on, does what it does to the value |
| ConfigStore.OpenUseSave | logitoolsd/logitoolsd/main.c:488-576 | opening, any run of accesses, and saving print the store that run leaves |
| ConfigStore.ConfOpen | logitoolsd/logitoolsd/utility_funcs.c:592-660 | the lists hold what the text means, line by line, as far as no title overruns its buffer |
| ConfigStore.ConfWrite | logitoolsd/logitoolsd/utility_funcs.c:344-381 | prints the banner and every section with its items, clipped to the line buffer |
| ConfigText.EmptyPrinted | logitoolsd/logitoolsd/utility_funcs.c:353-354 | the four comment lines of every file |
| ConfigText.SectionPrinted | logitoolsd/logitoolsd/utility_funcs.c:355-374 | how a title, an item and a comment are printed |
| ConfigText.ItemWithoutTitle | logitoolsd/logitoolsd/utility_funcs.c:642-652 | an item before any title belongs to the section Global |
| ConfigText.EitherSeparator | logitoolsd/logitoolsd/utility_funcs.c:648-652 | key and value may be parted by a colon or an equals sign and blanks |
| ConfigText.ItemLineExact | logitoolsd/logitoolsd/utility_funcs.c:363-367 | an item's printed line reads back as that item exactly when it has no separator, bracket, hash or leading blank in the wrong place |
| ConfigExact.ConfigRoundTripExactly | logitoolsd/logitoolsd/utility_funcs.c:344-660 | opening a written configuration rebuilds the same sections and items in order exactly when names and keys are unique, items faithful, and every line has its room in the buffer |
| ConfigExact.ItemReturnsExactly | logitoolsd/logitoolsd/utility_funcs.c:344-381 | what the buffer leaves of an item's line reads back as the item exactly when it is faithful and fits, which for the last item of a section asks for less |
| ConfigText.OpenedIsMap | logitoolsd/logitoolsd/utility_funcs.c:384-660 | whatever the file, the opened store has unique names and keys, and any run on it is a run on a map |
| ConfigExact.SavedRunReopened | logitoolsd/logitoolsd/utility_funcs.c:344-660 | after any run, saving and opening again restores the store, with every text stored last, exactly when the store is exact, as it is if all texts fit their lines |
| ClientStream.Connection.Recv | logitoolsd/plugins/g15_plugin_net.c:200-273 | returns the next bytes of the stream, fewer only at its end, and carries out the commands in between |
| ClientStream.ServeClient | logitoolsd/plugins/g15_plugin_net.c:283-326 | the frames shown are exactly the successive whole blocks after the four type bytes |
| ClientStream.CutAnywhere | logitoolsd/plugins/g15_plugin_net.c:215-271 | another cutting of the stream has the same payload |
| ClientStream.CommandAnywhere | logitoolsd/plugins/g15_plugin_net.c:221-233 | nor does it matter where commands fall |
| ClientStream.StreamConcat | logitoolsd/plugins/g15_plugin_net.c:215-271 | what streams hold one after the other they hold together |
| ClientStream.SingleEvents | logitoolsd/plugins/g15_plugin_net.c:215-271 | what one event adds to the stream, and that nothing counts after an end |
| ClientStream.BlockAt | logitoolsd/plugins/g15_plugin_net.c:283-326 | the i-th frame is the i-th whole block of the stream |
| ClientStream.FrameCovers | logitoolsd/plugins/g15_plugin_net.c:283-326 | a G frame has exactly one byte for each pixel, an R frame is a whole buffer |
| ClientStream.ConvertBuf | logitoolsd/logitoolsd/utility_funcs.c:201-218 | each pixel is set exactly when its byte is not zero; no other bit changes |
| ClientStream.PacksLikeOverlay | logitoolsd/logitoolsd/utility_funcs.c:201-218 | the packed frame has the pixels pixelOverlay would draw |
| ClientStream.FrameOnDisplay | logitoolsd/logitoolsd/utility_funcs.c:201-232 | each byte of a frame decides one bit of the display bytes |
| MacroFile.Recorder.DumpConfig | logitoolsd-clients/logitools-macro/fileHandling.c:151-179 | prints all three pages and puts mkey_state back |
| MacroFile.PagesInOrder | logitoolsd-clients/logitools-macro/fileHandling.c:151-179 | the pages stand in order with their headings and keys |
| MacroFile.DefaultPrinted | logitoolsd-clients/logitools-macro/fileHandling.c:151-179 | an empty key is printed with default number 18m + g |
| MacroFile.RecordedPrinted | logitoolsd-clients/logitools-macro/fileHandling.c:151-179 | a recorded key is printed as its heading and a line for each step |
| MacroFile.Recorder.RestoreV1 | logitoolsd-clients/logitools-macro/logitools-macro.c:735-782 | the tables hold what the file says, line by line |
| MacroFile.CodesRead | logitoolsd-clients/logitools-macro/logitools-macro.c:758-762 | a page heading makes that page the current one |
| MacroFile.HeadingRead | logitoolsd-clients/logitools-macro/logitools-macro.c:763-767 | a key heading makes that key the current one, whatever follows the number |
| MacroFile.StepLineRead | logitoolsd-clients/logitools-macro/logitools-macro.c:768-778 | a step line records a press or release of the named key as the next step of the current key and changes no other |
| MacroFile.MacroRoundTrip | logitoolsd-clients/logitools-macro/logitools-macro.c:735-782 | a dumped file restores every step of all 54 macros up to names and 32-bit modifiers; unrecorded keys stay empty |
| MacroFile.MacroRoundTripExactly | logitoolsd-clients/logitools-macro/logitools-macro.c:735-782 | the tables come back unchanged exactly when keycodes are the codes of their names and modifiers fit 32 bits |

## Left out

- SetPixel: coordinates and sizes in the drawing modules are mathematical integers; overflow of the C int, which the language leaves undefined, is not modelled (`Screen.UnsignedClip` covers the conversion to unsigned).
- RenderG15Glyph: unsigned wrap-around of pixel positions is not modelled; a glyph whose buffer is shorter than its rows is excluded by `Font.Valid`.
- TestG15FontWidth: only ASCII strings, because the source indexes the glyph table with a signed char.
- G15FPrint: finding and caching the default font file is a parameter; sizes outside 0 to 39, which the source uses as an index unchecked, are not followed.
- LoadG15Font: a file that ends early, or names a character above 255, ends in the result `cut`; what the source then does with unset memory is not followed. The pool is kept as its bytes; its relocation by realloc is not modelled. A glyph written past the allocation sets `overrun` and is not followed further.
- HeaderDecides: for each font height one number of glyphs is left open (`FontPool.Undecided`), for which only the allocation for one glyph more would wrap around; whether a file reaches that depends on the sums its glyph sizes can form.
- Cycle: visibility events to plugins are left out; the precondition is that the loop ends, and `ClientRing.StopsExactly` and `ClientList.Masterlist.SkipInVain` give the other half.
- Remove: refresh signals and freeing memory are left out, and so is the reset of a departing key handler, which cannot happen because nothing in the repository ever sets `keyhandler`.
- RequestPriority: requires the remembered screen to be in the list; without it the source follows a dangling pointer.
- KeyPress: the backlight counters, the screenshot combination and the events themselves are left out; nothing is modelled past a followed null pointer.
- KeyEvent: the 27 copies of the same test are written as one loop over the keys in the same order.
- ConfOpen: a line that is only `]`, or a title that leaves no room for its end in the title buffer, sets `stray` and is not followed further. Embedded NUL characters are not modelled.
- IntRoundTrip: numbers are unbounded; the 32-bit range of atoi is not modelled.
- ServeClient: the bitmap type 'W' shows nothing in the model; its header arithmetic and short reads are left out.
- Recv: poll timeouts, EAGAIN and non-fatal poll errors are the event `Quiet`; all ways of leaving the loop are the event `Ended`. What each command does is left to the ring.
- RestoreV1: %i is read as a decimal, as dump_config prints it; prefixes for octal and hexadecimal are not modelled. A line that leads outside the tables sets `stray` and is not followed further.
- MacroRoundTrip: keysym names are parameters and must be words that fit the reader's buffer; the recorded times, which the file does not hold, are not modelled.
- Floating-point configuration values, removal of a configuration key, bars, rounded boxes, bitmap files, FreeType text, device input and output, sockets, threads and signals are left out.
