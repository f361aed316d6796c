# Tiny4kOLED driver core, modelled in Dafny

Tiny4kOLED drives SSD1306 OLED controllers over I2C from small AVR
microcontrollers. The driver keeps a text cursor (`oledX` column, `oledY`
page row), a selected font and two double-buffering selectors:
- the rendering frame, which picks the half of controller RAM that drawing goes to;
- the display frame, which picks the half the panel shows.

Each driver operation becomes one or more I2C transmissions. A transmission
is either a *command frame* (opcodes and their arguments) or a *data frame*
(pixel columns written into controller RAM).

The project models two drivers:
- the current driver `src/Tiny4kOLED.cpp`, with its shared types (`src/Tiny4kOLED_common.h`) and the proportional 8x16 font `src/font8x16p.h`;
- the older root driver `Tiny4kOLED.cpp`, kept as a separate module and compared with the current one.

Modules (one file each):

| module | file | contents |
|---|---|---|
| `Bytes` | bytes.dfy | `byte` (= `bv8`, the C `uint8_t`, wrapping exactly as C assignment does), `Option` |
| `Ssd1306` | ssd1306.dfy | the controller's command language as the SSD1306 datasheet defines it: argument counts per opcode, splitting a byte stream into commands (`Split`/`Flatten`), the meaning of each command (`Meaning`, `Decode`), the argument bits the datasheet fixes (`FixedBits`, `Conforms`), the effect of page-mode address commands on the RAM pointer (`Pointed`), and the byte content of data frames (`Payloads`, `Concat`). This is the independent reference the driver is checked against. |
| `Bus` | bus.dfy | the byte-level transmission protocol (`send_start`, `send_byte` with its single retry, `send_stop`) as events, and what the controller receives |
| `Commands` | commands.dfy | the one-line command encoders of the current driver (contrast, scroll, multiplex, clock, ...) |
| `Common` | common.dfy | `DCfont`, the Unicode font references, the codepoint union, the proportional-font offset lookup |
| `InitTables` | init_tables.dfy | the defaults table and the twenty per-panel init tables of `Tiny4kOLED_common.h`, and the naming rule they follow |
| `Font8x16p` | font8x16p.dfy | the descriptor and width tables of the proportional 8x16 font |
| `Driver` | driver.dfy | the current driver: state, `begin`, cursor, `newLine`, `write`, fills, `bitmap`, frame switching |
| `Legacy` | legacy.dfy | the root driver, with agreement lemmas against `Driver` |

Each driver operation is a pure function from the driver's globals (`State`)
to a `Step`: the new globals plus the frames sent. Frames assume the
controller accepts every byte. What a refused byte does to a frame is modelled
once, in `Bus`: `Bus.SendBytes` covers the retrying `send_byte`, and
`Bus.WriteRaw` covers a bare `TinyWireM.write`.

## Model

| member | source | states |
|---|---|---|
| Bus.SendByte | src/Tiny4kOLED.cpp:64-70 | a byte written with `send_byte` reaches the controller exactly when the first write or its one retry is accepted. A refusal costs one extra transmission start, and the frame is left open. |
| Bus.SendBytes | src/Tiny4kOLED.cpp:64-70 | a loop of `send_byte` delivers the payload bytes whose first write or retry was accepted, in order. It starts as many extra transmissions as there were first-write refusals. |
| Bus.SendFrameDelivers | src/Tiny4kOLED.cpp:55-70 | a whole frame (start, bytes with retry, stop) delivers the same bytes and starts one more transmission than its refusals |
| Bus.FrameAround | src/Tiny4kOLED.cpp:55-62 | wrapping a body in `send_start`/`send_stop` adds no payload byte and exactly one transmission start |
| Bus.DeliveredAll | src/Tiny4kOLED.cpp:64-70 | when every byte gets through on some attempt, the controller receives the payload unchanged, which is why frames elsewhere are plain byte sequences |
| Bus.WriteRaw | Tiny4kOLED.cpp:189-199 | bare `TinyWireM.write` calls never restart the transmission |
| Bus.RawFrameDelivers | Tiny4kOLED.cpp:189-199 | a frame of bare writes delivers only the accepted bytes and uses a single transmission |
| Bus.RawBytesReceived | Tiny4kOLED.cpp:189-199 | the bytes received from bare writes are exactly the accepted ones |
| Bus.RetryRecovers | src/Tiny4kOLED.cpp:64-70 | a byte refused once is still delivered by `send_byte`, but is lost by a bare write |
| Bus.AcceptedAll | Tiny4kOLED.cpp:189-199 | bare writes that are all accepted deliver the payload unchanged |
| Bus.ReceivedAppend | src/Tiny4kOLED.cpp:55-70 | what is received from two event sequences in a row is the concatenation, with the open/closed state carried over |
| Commands.CommandFrame | src/Tiny4kOLED.cpp:259-362 | a command frame of an opcode and exactly its datasheet argument count decodes as that single command, and it conforms to the datasheet's fixed bits exactly when that command's fixed bits hold |
| Commands.SetContrast | src/Tiny4kOLED.cpp:261-263 | decodes as contrast = the argument |
| Commands.SetEntireDisplayOn | src/Tiny4kOLED.cpp:265-270 | decodes as entire-display-on with the flag given |
| Commands.SetInverse | src/Tiny4kOLED.cpp:272-277 | decodes as inverse display with the flag given |
| Commands.Off | src/Tiny4kOLED.cpp:279-281 | decodes as display power off |
| Commands.On | src/Tiny4kOLED.cpp:283-285 | decodes as display power on |
| Commands.ScrollRight | src/Tiny4kOLED.cpp:289-291 | decodes as a continuous right scroll whose start page, interval and end page are the arguments' low three bits (the arguments themselves when below 8), and for every input the dummy bytes are the datasheet's A = 00h, E = 00h, F = FFh (`Ssd1306.Conforms`) |
| Commands.ScrollLeft | src/Tiny4kOLED.cpp:293-295 | the same as ScrollRight, scrolling left: the same decoded fields and the dummy bytes 00h, 00h, FFh for every input |
| Commands.ScrollRightOffset | src/Tiny4kOLED.cpp:297-299 | decodes as a vertical-and-right scroll with the low three bits of the pages and interval and the low six bits of the offset (the arguments themselves when in range), and for every input the dummy byte A is the datasheet's 00h (`Ssd1306.Conforms`) |
| Commands.ScrollLeftOffset | src/Tiny4kOLED.cpp:301-303 | the same as ScrollRightOffset, scrolling left: the same decoded fields and the dummy byte 00h for every input |
| Commands.DeactivateScroll | src/Tiny4kOLED.cpp:305-307 | decodes as scroll off |
| Commands.ActivateScroll | src/Tiny4kOLED.cpp:309-311 | decodes as scroll on |
| Commands.SetVerticalScrollArea | src/Tiny4kOLED.cpp:313-315 | decodes as the vertical scroll area with the low six bits of the top and the low seven bits of the row count (the arguments themselves for a top below 64 and rows below 128) |
| Commands.SetDisplayStartLine | src/Tiny4kOLED.cpp:321-323 | decodes as start line = argument mod 64 |
| Commands.SetSegmentRemap | src/Tiny4kOLED.cpp:325-327 | decodes as segment remap on exactly when the argument is odd |
| Commands.SetMultiplexRatio | src/Tiny4kOLED.cpp:329-331 | decodes as `((mux - 1) & 63) + 1` multiplexed rows for every byte: an argument of 1..64 is that many rows, and 0 wraps to register value 63, which is 64 rows |
| Commands.SetComOutputDirection | src/Tiny4kOLED.cpp:333-335 | decodes as COM scan remapped exactly when the argument is odd |
| Commands.SetDisplayOffset | src/Tiny4kOLED.cpp:337-339 | decodes as display offset = argument mod 64 |
| Commands.SetComPinsHardwareConfiguration | src/Tiny4kOLED.cpp:341-343 | decodes as alternative COM pins and left/right remap from the low bits of the arguments. For every input the argument byte has the datasheet's pattern `0 0 A5 A4 0 0 1 0`: bit 1 set and bits 0, 2, 3, 6 and 7 clear (`Ssd1306.Conforms`). |
| Commands.SetDisplayClock | src/Tiny4kOLED.cpp:348-350 | decodes as divide ratio `((d - 1) & 15) + 1` and frequency `f & 15` for every input, so a ratio of 1..16 and a frequency below 16 decode as themselves (the register holds ratio - 1) |
| Commands.SetPrechargePeriod | src/Tiny4kOLED.cpp:352-354 | decodes as the pre-charge setting with the low four bits of each phase period, the periods themselves when below 16 |
| Commands.SetVcomhDeselectLevel | src/Tiny4kOLED.cpp:356-358 | decodes as VCOMH level = argument mod 8, and for every input the argument byte has the datasheet's pattern `0 A6 A5 A4 0 0 0 0` (`Ssd1306.Conforms`) |
| Commands.Nop | src/Tiny4kOLED.cpp:360-362 | decodes as no-operation |
| Common.CharacterDataOffset | src/Tiny4kOLED_common.h:14-23 | the glyph of a covered code in a proportional font starts at `height` times the sum of the widths of all glyphs before it; a whole-block shortcut through `widths16s` gives the same sum |
| Common.GlyphsBefore | src/Tiny4kOLED_common.h:14-23 | adding whole blocks from `widths16s` and then single widths equals summing the first `i` widths one by one |
| Common.SumToAppend | src/Tiny4kOLED_common.h:14-23 | the width sum over two concatenated tables is the sum of the parts |
| Common.SumToMonotone | src/Tiny4kOLED_common.h:14-23 | width sums never decrease as more glyphs are counted |
| Common.SplitCodepoint | src/Tiny4kOLED_common.h:38-46 | the union's byte fields are the codepoint's bytes, lowest first |
| Common.CodepointRoundTrip | src/Tiny4kOLED_common.h:38-46 | writing a codepoint and reading the bytes, or writing the bytes and reading the codepoint, loses nothing in either direction |
| Common.CodepointBelow24Bits | src/Tiny4kOLED_common.h:38-46 | for a Unicode codepoint the unused byte is 0, and plane, block and offset rebuild it |
| InitTables.DefaultsParse | src/Tiny4kOLED_common.h:231-254 | the defaults table splits back into exactly its commands: every opcode has its datasheet argument count |
| InitTables.DefaultsMeaning | src/Tiny4kOLED_common.h:231-254 | the defaults decode as 19 commands. The first is display off, then page addressing mode, 64-row multiplex, and last charge pump off. |
| InitTables.LastCommand | src/Tiny4kOLED_common.h:231-254 | the bytes of a table end with its last command's opcode and arguments |
| InitTables.SizeTablesFollowNamingRule | src/Tiny4kOLED_common.h:256-418 | each of the twenty per-panel tables is exactly the documented naming rule: flips for `r`, multiplex for heights other than 64, COM pins for 128x32, internal reference for `b`, charge pump last |
| InitTables.Rule128x64 | src/Tiny4kOLED_common.h:270-294 | the four 128x64 tables are the naming rule for 128x64 |
| InitTables.Rule128x32 | src/Tiny4kOLED_common.h:296-328 | the four 128x32 tables are the naming rule for 128x32 |
| InitTables.Rule72x40 | src/Tiny4kOLED_common.h:330-358 | the four 72x40 tables are the naming rule for 72x40 |
| InitTables.Rule64x48 | src/Tiny4kOLED_common.h:360-388 | the four 64x48 tables are the naming rule for 64x48 |
| InitTables.Rule64x32 | src/Tiny4kOLED_common.h:390-418 | the four 64x32 tables are the naming rule for 64x32 |
| InitTables.OfOpcode | src/Tiny4kOLED_common.h:256-268 | selecting the commands with one opcode keeps only that opcode; OfOpcodeComplete shows it keeps all of them |
| InitTables.NamingRuleMultiplex | src/Tiny4kOLED_common.h:256-268 | a table sets the multiplex ratio exactly when the height is not 64, once, to the height |
| InitTables.MuxArgument | src/Tiny4kOLED_common.h:256-268 | the multiplex argument `height - 1` decodes as `height` rows |
| InitTables.NamingRuleRotated | src/Tiny4kOLED_common.h:256-268 | a table holds both flip commands if and only if it is a rotated (`r`) table |
| InitTables.NamingRuleBright | src/Tiny4kOLED_common.h:256-268 | a table holds the internal current reference command if and only if it is a bright (`b`) table |
| InitTables.NamingRuleParses | src/Tiny4kOLED_common.h:256-268 | every rule table splits back into its commands and ends with the charge pump on (8D 14) |
| Font8x16p.Descriptor | src/font8x16p.h:335-343 | the font is proportional, two pages high, with one blank column of spacing |
| Font8x16p.DescriptorTables | src/font8x16p.h:317-343 | the descriptor's width tables are consistent: one width per code 32..126, each block sum the sum of its sixteen widths. The bitmap length is height times the width total, and the font covers exactly the codes 32..126. |
| Font8x16p.BlockSums | src/font8x16p.h:326-333 | each `widths_16s` entry equals the sum of its block of `widths` |
| Font8x16p.WidthsShape | src/font8x16p.h:317-324 | the running width sums at each block boundary are 0, 85, 173, 286, 395, 496 and 588, and twice the total is the 1176-byte bitmap |
| Font8x16p.WidthBounds | src/font8x16p.h:317-324 | 95 widths, each between 1 and 8; `\|` is one column wide |
| Font8x16p.FirstGlyphs | src/font8x16p.h:29-33 | the space glyph is 7 columns and `!` is 2, so `"` starts at column 9 |
| Font8x16p.Glyph | src/font8x16p.h:29-315 | a glyph is `2 * width` bytes (top page then bottom page) |
| Font8x16p.GlyphsTileBitmap | src/font8x16p.h:29-315 | the glyphs laid end to end from any index on are exactly the rest of the bitmap |
| Font8x16p.FontGlyphs | src/font8x16p.h:29-324 | the whole bitmap is the 95 glyphs in code order, the second glyph starting at byte 14 and the third at 18 |
| Font8x16p.GlyphStart | src/font8x16p.h:317-343 | the offset looked up for a code is where its glyph starts, and the glyph ends within the bitmap |
| Driver.InitSequenceIsTable | src/Tiny4kOLED.cpp:27-49 | the driver's init bytes are the flattened `tiny4koled_init_128x32r` table |
| Driver.InitSequenceMeaning | src/Tiny4kOLED.cpp:27-49 | the init bytes decode as COM scan flip, segment remap, 32-row multiplex, sequential COM pins, charge pump on |
| Driver.Begin | src/Tiny4kOLED.cpp:116-124 | `begin` sends one command frame with exactly those five commands and leaves the globals alone |
| Driver.SetFont | src/Tiny4kOLED.cpp:126-128 | the font becomes the one given; cursor and frames are kept |
| Driver.SetCursor | src/Tiny4kOLED.cpp:130-134 | the cursor becomes (x, y) and one command frame is sent, carrying no pixel data |
| Driver.CursorColumn | src/Tiny4kOLED.cpp:130-134 | the high and low column commands together give back the column x |
| Driver.CursorDecodes | src/Tiny4kOLED.cpp:130-134 | the cursor frame decodes as page start, high column, low column. Afterwards the controller's RAM pointer is at the page the first byte selects, column x. |
| Driver.CursorFields | src/Tiny4kOLED.cpp:130-134 | the three cursor bytes lie in the page, high-column and low-column opcode ranges and together encode x |
| Driver.AddressDecodes | src/Tiny4kOLED.cpp:130-134 | any page/high/low triple in those ranges decodes and points as the datasheet says |
| Driver.PageOfRow | src/Tiny4kOLED.cpp:130-134 | on a 4-page panel, rows address pages 0-3 in frame 0 and 4-7 in frame 1 |
| Driver.NewLine | src/Tiny4kOLED.cpp:148-154 | the cursor goes to column 0 and moves down by the font height, but never below the last row where a full line still fits |
| Driver.NewLineOnLastLine | src/Tiny4kOLED.cpp:148-154 | `newLine` on the last line keeps the row and only returns to column 0 |
| Driver.Rows | src/Tiny4kOLED.cpp:181-201 | the do-while on `line` runs `height` passes, 256 for height 0 |
| Driver.SizeIsProduct | src/Tiny4kOLED.cpp:180 | a glyph occupies `width * height` bytes of the bitmap |
| Driver.DrawRows | src/Tiny4kOLED.cpp:181-201 | the glyph loop changes the cursor only, never the font or frames |
| Driver.DrawRowsRuns | src/Tiny4kOLED.cpp:181-201 | the data frames of the glyph loop are consecutive `width`-byte slices of the bitmap from the glyph offset, one per pass |
| Driver.DrawRowsPages | src/Tiny4kOLED.cpp:181-201 | for a multi-page glyph, passes alternate a data frame and a cursor move. Each cursor move goes to the next row of the same column. The last one goes back up to the first row, `width` columns right. |
| Driver.DrawRowsLine | src/Tiny4kOLED.cpp:189-191 | a one-page glyph is one data frame, and the column advances by the width without a cursor command |
| Driver.GlyphReturns | src/Tiny4kOLED.cpp:181-201 | after all passes the cursor is on the row it started on, `width` columns right |
| Driver.BelowCount | src/Tiny4kOLED.cpp:193-198 | going down `height - 1` rows and then up `height - 1` returns to the starting row |
| Driver.Write | src/Tiny4kOLED.cpp:160-172 | without a font or for `\r`, `write` sends nothing and changes nothing; `\n` is `newLine(height)` |
| Driver.WriteGlyph | src/Tiny4kOLED.cpp:174-201 | any other code sends exactly its glyph, in `height` runs of `width` bytes from `(c - first) * width * height` |
| Driver.WriteCursor | src/Tiny4kOLED.cpp:174-201 | a glyph that fits on the line moves the cursor `width` right. One that does not fit first wraps: x becomes `width`, and y moves down a line, clamped to the last line. |
| Driver.WriteAfterWrap | src/Tiny4kOLED.cpp:174-201 | the glyph is drawn where the wrap check left the cursor |
| Driver.WrapBoundary | src/Tiny4kOLED.cpp:176-178 | with a 6x8 font, a glyph at column 122 still fits (ending at 128) while one at 123 wraps to (6, 1) |
| Driver.DrawGlyphReturns | src/Tiny4kOLED.cpp:181-201 | drawing a glyph leaves the cursor `width` columns right on the same row |
| Driver.DrawGlyphRuns | src/Tiny4kOLED.cpp:180-201 | drawing a glyph sends its `height` runs of `width` bytes |
| Driver.Wrap | src/Tiny4kOLED.cpp:176-178 | the wrap check sends no pixel data and keeps font and frames |
| Driver.Repeat | src/Tiny4kOLED.cpp:229-233 | a do-while on a `uint8_t` count sends `length` bytes, 256 when `length` is 0, all equal to the fill |
| Driver.FillLength | src/Tiny4kOLED.cpp:226-235 | one data frame of `length` fill bytes (256 for 0), and the column advances by `length` mod 256 |
| Driver.FillToEOL | src/Tiny4kOLED.cpp:222-224 | below column 128, fills exactly the rest of the line and leaves the cursor at column 128 |
| Driver.FillToEOLAtLineEnd | src/Tiny4kOLED.cpp:222-235 | at column 128 the driver sends 256 fill bytes (see Findings) |
| Driver.FillToEOLChecked | src/Tiny4kOLED.cpp:222-224 | the intended fill: `128 - x` fill bytes below column 128 and none at or past it; the column moves to 128 only when below it |
| Driver.FillToEOLCheckedAgrees | src/Tiny4kOLED.cpp:222-224 | below column 128 the intended and the written fill are the same step |
| Driver.ClearToEOL | src/Tiny4kOLED.cpp:218-220 | below column 128, zeroes the rest of the line |
| Driver.FillPages | src/Tiny4kOLED.cpp:141-144 | the fill loop sends two frames per page |
| Driver.FillPagesLayout | src/Tiny4kOLED.cpp:141-144 | pass k of the fill loop sets the cursor to column 0 of row y + k and sends 128 fill bytes |
| Driver.Fill | src/Tiny4kOLED.cpp:140-146 | `fill` sends 2 frames per page plus the final cursor, and leaves the cursor at (0, 0) |
| Driver.FillLayout | src/Tiny4kOLED.cpp:140-146 | `fill` addresses rows 0 to 3 in turn with 128 fill bytes each, then homes the cursor |
| Driver.Clear | src/Tiny4kOLED.cpp:136-138 | `clear` is a fill with zero: every page gets 128 zero bytes and the cursor goes home |
| Driver.BitmapRows | src/Tiny4kOLED.cpp:207-214 | the bitmap loop sends two frames per row |
| Driver.BitmapRowsRuns | src/Tiny4kOLED.cpp:207-214 | the data of row k is the k-th `x1 - x0`-byte slice of the bitmap: `j` runs on across rows |
| Driver.BitmapRowAt | src/Tiny4kOLED.cpp:207-214 | row k starts with a cursor command to column x0 of row y0 + k |
| Driver.Bitmap | src/Tiny4kOLED.cpp:205-216 | `bitmap` sends one cursor and one data frame per row, then homes the cursor |
| Driver.BitmapRuns | src/Tiny4kOLED.cpp:205-216 | the bitmap's data frames are its rows in order, `x1 - x0` bytes each |
| Driver.BitmapLayout | src/Tiny4kOLED.cpp:205-216 | row k of the bitmap is drawn at column x0 of row y0 + k |
| Driver.SwitchRenderFrame | src/Tiny4kOLED.cpp:237-239 | flips which frame is drawn into and sends nothing |
| Driver.SwitchDisplayFrame | src/Tiny4kOLED.cpp:241-244 | flips which frame is shown and sends the start-line command that shows it: line 0 for frame 0, line 32 for frame 1 |
| Driver.StartLineDecodes | src/Tiny4kOLED.cpp:241-244 | both values of the start-line selector decode as start-line commands |
| Driver.SwitchFrame | src/Tiny4kOLED.cpp:246-249 | switching both keeps the globals valid and the cursor and font unchanged |
| Driver.SwitchRenderFrameTwice | src/Tiny4kOLED.cpp:237-239 | switching the render frame twice changes nothing |
| Driver.SwitchFrameTwice | src/Tiny4kOLED.cpp:246-249 | switching twice restores the globals. The two commands sent show the other frame and then the original one. |
| Driver.PageOfFrame | src/Tiny4kOLED.cpp:130-134 | rows of the rendering frame address page `0xB0 + 4 * currentRenderFrame() + y` |
| Driver.Initially | src/Tiny4kOLED.cpp:51-53 | the initial globals are valid, and render and display frame 0 |
| Legacy.SetFont | Tiny4kOLED.cpp:71-73 | the font selector becomes the one given; everything else is kept |
| Legacy.PageByte | Tiny4kOLED.cpp:107-112 | the page command is always a page-start opcode |
| Legacy.SetCursor | Tiny4kOLED.cpp:105-118 | the cursor becomes (x, y) and one command frame is sent, carrying no pixel data |
| Legacy.CursorDecodes | Tiny4kOLED.cpp:105-118 | the cursor frame decodes as page start, high column, low column. Under page addressing, which the legacy init does not select, it points the RAM at (page, x). |
| Legacy.CursorFields | Tiny4kOLED.cpp:105-118 | the three cursor bytes lie in their opcode ranges and together encode x |
| Legacy.PageOfRow | Tiny4kOLED.cpp:107-112 | frame 1 offsets the page by 4, wrapping within 8 pages |
| Legacy.CurrentFrame | Tiny4kOLED.cpp:57 | the legacy 0/1 selector maps onto the current driver's 0xB0/0xB4 page base |
| Legacy.PageAgreesWithCurrent | Tiny4kOLED.cpp:107-112 | the legacy page byte equals the current driver's if and only if the frame is 0, or the row is below 4 modulo 8 |
| Legacy.FrameOneRowFourWraps | Tiny4kOLED.cpp:107-112 | row 4 in frame 1 wraps to page 0 in the legacy driver but is page 4 in the current one |
| Legacy.CursorAgreesWithCurrent | Tiny4kOLED.cpp:105-118 | where the page bytes agree, the legacy cursor frame is the current one's |
| Legacy.NextLine | Tiny4kOLED.cpp:139-158 | a newline moves down one row (6x8) or two (8x16), clamped to the last row where the font still fits |
| Legacy.LineFeed | Tiny4kOLED.cpp:139-158 | `\n` sets the cursor to column 0 of the next line |
| Legacy.LineFeedAgrees | Tiny4kOLED.cpp:139-158 | the legacy newline is the current `newLine` with height 1 or 2 |
| Legacy.AsCurrent | Tiny4kOLED.cpp:56-57 | the legacy globals map to valid current-driver globals with the same render and display frames |
| Legacy.Wrap | Tiny4kOLED.cpp:164-170 | past the wrap limit the cursor moves to column 0 of the next line; otherwise nothing changes; no pixel data either way |
| Legacy.SmallGlyph | Tiny4kOLED.cpp:172-177 | a 6x8 glyph is one frame of the 6 table bytes and moves the cursor 6 right without a cursor command |
| Legacy.LargeGlyph | Tiny4kOLED.cpp:189-200 | an 8x16 glyph moves the cursor 8 right on the same row |
| Legacy.LargeGlyphFrames | Tiny4kOLED.cpp:189-200 | an 8x16 glyph sends the top 8 bytes, moves to the row below, sends the bottom 8 bytes, and moves back up 8 columns right |
| Legacy.Write | Tiny4kOLED.cpp:136-158 | `\r` changes nothing; `\n` is the line feed; font and frames never change |
| Legacy.WriteGlyph | Tiny4kOLED.cpp:160-201 | any other code is the wrap check followed by the glyph of the selected font |
| Legacy.WriteSmall | Tiny4kOLED.cpp:162-177 | a 6x8 glyph sends its 6 table bytes. The cursor moves 6 right, or wraps to x = 6 on the next line when past column 122. |
| Legacy.WriteLarge | Tiny4kOLED.cpp:180-201 | an 8x16 glyph sends its two 8-byte halves. The cursor moves 8 right, or wraps to x = 8 on the next line when past column 120. |
| Legacy.SmallFont | Tiny4kOLED.cpp:174 | the 6x8 table as a current-driver font: 6 wide, 1 page, first code 32 |
| Legacy.LargeFont | Tiny4kOLED.cpp:191 | the 8x16 table as a current-driver font: 8 wide, 2 pages, first code 32 |
| Legacy.GlyphOffsets | Tiny4kOLED.cpp:160-197 | the legacy offsets `ci * 6` and `ci * 16` are the current driver's glyph offsets for those fonts |
| Legacy.SmallDrawGlyph | Tiny4kOLED.cpp:172-177 | the current glyph loop on the 6x8 font sends what the legacy loop sends |
| Legacy.LargeDrawGlyph | Tiny4kOLED.cpp:189-200 | the current glyph loop on the 8x16 font sends the same two halves with the same cursor moves |
| Legacy.WrapAgrees | Tiny4kOLED.cpp:164-186 | the legacy wrap limits 122 and 120 are the current `x > 128 - width` check |
| Legacy.WriteSmallAgrees | Tiny4kOLED.cpp:162-177 | for the 6x8 font, the legacy `write` and the current one send the same frames and leave the same cursor |
| Legacy.WriteLargeAgrees | Tiny4kOLED.cpp:180-201 | for the 8x16 font the two drivers agree, except in frame 1 with the glyph on row 3 or below (see LargeGlyphOnLastRow) |
| Legacy.LargeGlyphOnLastRow | Tiny4kOLED.cpp:194 | in frame 1 on row 3, the legacy driver sends the bottom half to page 0, where the current driver addresses page 4 |
| Legacy.Copies | Tiny4kOLED.cpp:229-231 | a `for` loop on a `uint8_t` count sends exactly `n` fill bytes |
| Legacy.FillLength | Tiny4kOLED.cpp:227-234 | `length` fill bytes (none for 0), and the column advances by `length` |
| Legacy.FillLengthAgrees | Tiny4kOLED.cpp:227-234 | the two `fillLength`s agree for a nonzero length. For 0 the legacy driver sends nothing while the current one sends 256 bytes. The cursor ends in the same place. |
| Legacy.CopiesAreRepeat | Tiny4kOLED.cpp:229-231 | for a nonzero count the `for` loop and the current do-while send the same bytes |
| Legacy.FillToEOL | Tiny4kOLED.cpp:223-225 | up to column 128, fills exactly the rest of the line and leaves the cursor at 128 |
| Legacy.FillToEOLAgrees | Tiny4kOLED.cpp:223-234 | the legacy `fillToEOL` sends the same payload bytes as the corrected current one, including none at column 128 (the legacy driver still opens one empty data transmission there), and leaves the same cursor |
| Legacy.ClearToEOL | Tiny4kOLED.cpp:219-221 | up to column 128, zeroes the rest of the line |
| Legacy.FillPages | Tiny4kOLED.cpp:125-132 | the fill loop sends two frames per page |
| Legacy.Fill | Tiny4kOLED.cpp:124-134 | `fill` sends 9 frames and leaves the cursor at (0, 0) |
| Legacy.FillLayout | Tiny4kOLED.cpp:124-134 | `fill` addresses rows 0 to 3 in turn with 128 fill bytes each, then homes the cursor |
| Legacy.FillAgrees | Tiny4kOLED.cpp:124-134 | the legacy `fill` sends exactly the current driver's frames and ends in the same state, in either frame |
| Legacy.FillPagesAgree | Tiny4kOLED.cpp:125-132 | on rows 0 to 3 the two fill loops are frame for frame the same |
| Legacy.Clear | Tiny4kOLED.cpp:120-122 | `clear` is `fill(0)` |
| Legacy.BitmapRows | Tiny4kOLED.cpp:208-215 | the bitmap loop sends two frames per row |
| Legacy.Bitmap | Tiny4kOLED.cpp:206-217 | `bitmap` sends one cursor and one data frame per row, then homes the cursor |
| Legacy.BitmapRowsPayloads | Tiny4kOLED.cpp:208-215 | the legacy and current bitmap loops send the same data in every frame |
| Legacy.BitmapRuns | Tiny4kOLED.cpp:206-217 | the bitmap's data frames are its rows in order |
| Legacy.BitmapAgrees | Tiny4kOLED.cpp:206-217 | the two `bitmap`s are frame for frame the same, unless frame 1 is selected and the bitmap reaches row 4 |
| Legacy.BitmapRowsAgree | Tiny4kOLED.cpp:208-215 | the two bitmap loops agree on rows below 4, or in frame 0 |
| Legacy.BitmapRowFourWraps | Tiny4kOLED.cpp:208-215 | in frame 1 a bitmap row 4 is sent to page 0 |
| Legacy.SwitchRenderFrame | Tiny4kOLED.cpp:236-243 | the render selector becomes 0 if it was 1 and 1 otherwise; nothing else changes |
| Legacy.SwitchDisplayFrame | Tiny4kOLED.cpp:245-254 | the display selector flips the same way, and the command sent shows the new frame (start line 0 or 32) |
| Legacy.SwitchFrame | Tiny4kOLED.cpp:256-259 | switching both leaves valid selectors and the cursor and font unchanged |
| Legacy.SwitchFrameTwice | Tiny4kOLED.cpp:236-259 | from valid selectors, switching twice restores the globals |
| Legacy.SwitchRenderFrameNormalises | Tiny4kOLED.cpp:236-243 | an invalid selector 2 becomes 1; switching twice then gives 0, not the original |
| Legacy.SwitchFrameAgrees | Tiny4kOLED.cpp:245-259 | from valid selectors, the legacy frame switches send the same commands and reach the same state as the current ones |
| Legacy.SetMultiplexRatio | Tiny4kOLED.cpp:365-367 | the legacy encoder sends its argument unchanged, so it means `(mux & 63) + 1` rows |
| Legacy.MultiplexRatioShifted | Tiny4kOLED.cpp:365-367 | the legacy call with `m - 1` is the current call with `m` |
| Legacy.SetDisplayOffset | Tiny4kOLED.cpp:373-375 | the legacy encoder does not mask, and decodes as offset mod 64 |
| Legacy.DisplayOffsetAgrees | Tiny4kOLED.cpp:373-375 | both encoders mean the same offset; their bytes are identical if and only if the offset is below 64 |
| Legacy.SetDisplayClock | Tiny4kOLED.cpp:381-383 | the legacy encoder means ratio `(d & 15) + 1` and frequency `f & 15` |
| Legacy.DisplayClockShifted | Tiny4kOLED.cpp:381-383 | the legacy call with `d - 1` is the current call with `d` |
| Legacy.InitBytesAreCommands | Tiny4kOLED.cpp:31-54 | the legacy init bytes split into exactly the 18 commands they were written as |
| Legacy.Begin | Tiny4kOLED.cpp:61-69 | `begin` sends one command frame that decodes as the 18 init commands |
| Legacy.InitMeaning | Tiny4kOLED.cpp:31-54 | the legacy init turns the display off, selects horizontal addressing, flips COM scan and segments, sets 32 rows and enables the charge pump |
| Legacy.InitCoversCurrent | Tiny4kOLED.cpp:31-54 | every command of the current 128x32r init table also appears in the legacy init |

## Left out

- The I2C library behind `TinyWireM` (`begin`, its buffering and bus timing) is not modelled. It is a foreign call. Its `write` result, accepted or not, is an input of `Bus`.
- Driver and Legacy frames assume every byte is accepted. `Bus` shows separately what a refusal does: with `send_byte` the byte still arrives, with a bare write it is lost.
- The current driver's `write` with UTF-8 decoding, Unicode font sets, double size (`X2`), smooth scaling, `clipText`, `getTextWidth`, the `offsetX/offsetY` window and rotation are not modelled. They are outside the 128x32 core modelled here.
- Common.CharacterDataOffset: `getCharacterDataOffset` is declared at src/Tiny4kOLED_common.h:117, but its body is not part of this model. The method computes the offset the width tables imply, a whole-block skip and then single widths. Its contract states that offset.
- Common.CharacterDataOffset: returns an unbounded integer where the declaration returns `uint16_t`, so an offset of 65536 or more, which would wrap in C, is not modelled. The one proportional font in the sources fits: `Font8x16p.GlyphStart` keeps every offset within its 1176-byte bitmap.
- Bus.SendStart: the control byte written by `ssd1306_send_start` is always accepted. It is the first write after `beginTransmission`, into a buffer that call has just emptied. A refused control byte, after which the controller would read the first payload byte as the control byte, is not modelled.
- Font record of the current driver: `Driver.State` holds the eight-field `DCfont` of src/Tiny4kOLED_common.h. The driver is built against the five-field `DCfont` of src/Tiny4kOLED.h:20-25; the three extra fields are never read by the driver model.
- The legacy pixel tables `ssd1306xled_font6x8` and `ssd1306xled_font8x16` are not part of this model. They are parameters (`Legacy.Fonts`) with only the byte ranges read from them required.
- Font8x16p: the 1176 pixel bytes of `Tiny4kOLED_font8x16` are a parameter. Only their number is fixed, counted from the header, plus the fact that each glyph is its width in top-page bytes followed by as many bottom-page bytes.
- Reading outside a font's bitmap (a code below `first`, or a bitmap shorter than the glyph) is undefined in C. `Driver.Write` and `Driver.Bitmap` require the bytes they read to exist.
- Driver.WriteCursor: stated only for fonts 1 to 4 pages high on a line that still fits on the panel. `newLine`'s clamp is `uint8_t` arithmetic that wraps for taller fonts.
- Driver.GlyphReturns: excludes height 0, where the do-while runs 256 passes and the row arithmetic wraps.
- Driver.FillPages and Driver.BitmapRows drop the cursor left by the loop. The `setCursor(0, 0)` that follows each loop overwrites it, and the frames are kept in full.
- Legacy encoders that are byte-identical to the current ones (contrast, scroll, on/off, ...) are not modelled twice. Only multiplex ratio, display offset and display clock differ, and those three are modelled with their agreement lemmas.
- Legacy init addressing mode: the legacy init selects horizontal addressing (`0x20, 0x00`, Tiny4kOLED.cpp:33), while its `setCursor` sends page addressing commands (B0h-B7h and the 00h-1Fh column nibbles). `Ssd1306.Pointed` gives only their page addressing effect. What these commands do under horizontal addressing, and so where the legacy driver's pixels land, is not modelled.
- The Arduino `Print` base class (`print`, `println`) and the global `oled` object are not modelled; only the `write(byte)` they call is.
- The controller's power-on register state is not modelled. Only the commands the driver sends are.

## Findings

| source | as written | input that shows it | evidently intended | confidence | as-written member | corrected member |
|---|---|---|---|---|---|---|
| src/Tiny4kOLED.cpp:222-235 | `fillToEOL` passes `128 - oledX` as a `uint8_t` length to `fillLength`, whose do-while sends a byte before testing the count. At column 128 the length is 0 and 256 bytes are sent. | `oledX == 128`, the column a 6x8 line of text leaves after a glyph at 122 (see `Driver.WrapBoundary`), then `clearToEOL()` | nothing is sent when the cursor is already at the end of the line, as the legacy `for` loop does | not executed; high | Driver.FillToEOLAtLineEnd | Driver.FillToEOLChecked |

`Driver.FillToEOL` and `Driver.ClearToEOL` model the code as written. The corrected `Driver.FillToEOLChecked` sends exactly `128 - x` bytes below column 128 and none at or past it. `Driver.FillToEOLCheckedAgrees` proves it equal to the written one below column 128. `Driver.FillPages` calls `fillToEOL` at column 0, as the source does, where the two agree. `Legacy.FillToEOLAgrees` shows that the legacy driver sends the payload bytes of the corrected fill.
