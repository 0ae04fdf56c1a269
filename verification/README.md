# Debug text console of trunk/kernel/display.c, in Dafny

`display.c` is a small kernel console for debugging. It has these parts:

- **State.** An 80×25 text screen of 16-bit cells and a cursor. The cursor is `cursor_x` and `cursor_y`, both `uint8_t`. There is also a current attribute byte, `_color`.
- **Character renderer.** `Putc`.
- **String renderer.** `Puts`.
- **Numeral encoder.** `itoa` is unsigned, `itoa_s` is signed, and both handle bases 2 to 16.
- **Formatter.** `Printf` handles the directives `%c %s %d %i %x %X`.
- **Screen control.** `SetColor`, `GotoXY` and `ClrScr`.

This project models each of these as pure functions over an immutable state and proves what they do.

Modules:

- `Bytes` (bytes.dfy) holds the C types as integer subtypes: `u8`, `u16`, `u32`, `i32`. Wrap-around and truncating assignment are written out as `Trunc8`. The module also holds nullable pointers (`Option`) and NUL-terminated strings (`StrLen`, `Text`).
- `Bits` (bits.dfy) checks the two bitwise expressions of the source on 16-bit words. The cell is `c | (color << 8)` and the tab stop is `(x + 8) & ~7`. The other modules use their arithmetic forms; that these are the same expressions as the bit-vector ones in `Bits` is by inspection, not a Dafny proof.
- `Numerals` (numerals.dfy) models `itoa` and `itoa_s`. It gives a reference digit function (`Digits`) and a parser (`Decode`), and proves round trips both ways. It also models the two loops of `itoa`, over the 32-byte scratch buffer, as methods with loop invariants.
- `Display` (display.dfy) holds the console state `Console(x, y, color, video)`. The video memory is a map from raw cell index to cell. It models `Putc`, `Puts`, `SetColor`, `GotoXY` and `ClrScr`.
- `Format` (printf.dfy) models `Printf` in two ways:
  - as the scanning loop of the source (`Scan`), which reads `str[i+1]` as the terminator when `%` is the last byte;
  - as a reference expansion of the template into text (`Expand`).

  `PrintfRenders` proves that `Printf` shows exactly the expansion. It returns the template length when every `%` starts a directive, and 1 otherwise.

Four behaviours of the code a reader might not expect; the model follows the code:

- **The cell write is not bounds-checked.** `Putc` writes at `cursor_y*80 + cursor_x` whatever the row (display.c:69-70). The row is never clamped and the screen never scrolls. So the video memory is a map over all indices, and `ClrScr` blanks only indices 0..1999.
- **`ClrScr` may not reset the cursor.** It moves the cursor home only through `GotoXY(0, 0)`, and `GotoXY` assigns a coordinate only while that coordinate is still at most 80 (column) or 25 (row). A row that has run past 25 therefore survives `ClrScr` (`ClrScrKeepsRunawayRow`).
- **The wrap check can fire on a control byte.** The check after every byte (display.c:75-79) also fires on a control byte when `GotoXY` has put the column at 80 or beyond (above 80 for backspace, which first steps back one column). `Display.Putc` states this case.
- **The cursor column is one byte wide.** A tab from columns 248-255 truncates to column 0, and a printable byte at column 255 wraps it to 0. In both cases the row does not change.

## Model

| member | source | states |
|---|---|---|
| Bytes.Trunc8 | trunk/kernel/display.c:134-137 | assigning an `unsigned` to a `uint8_t` keeps the value modulo 256: the result differs from the argument by a multiple of 256 |
| Bytes.StrLen | trunk/kernel/display.c:160 | `strlen`: the count is the index of the first NUL, with no NUL before it, or the whole length when there is none |
| Bits.CellIsOr | trunk/kernel/display.c:45-70 | the attribute OR character is `color*256 + c`; the low byte reads back as the character and the high byte as the attribute |
| Bits.TabMaskIsRoundDown | trunk/kernel/display.c:53 | masking with `~(8-1)` rounds `x+8` down to a multiple of 8 |
| Display.Cell | trunk/kernel/display.c:70 | a cell keeps the character in its low byte and the attribute in its high byte |
| Display.Inc8 | trunk/kernel/display.c:62 | `cursor_y++` on a `uint8_t` adds one, and 255 wraps to 0 |
| Display.TabStop | trunk/kernel/display.c:53 | the tab column is the smallest multiple of 8 strictly after the current one; from columns 248-255 it truncates to 0 |
| Display.Putc | trunk/kernel/display.c:43-80 | the column is below 80 afterwards and the attribute never changes. A printable byte writes exactly one cell, at `y*80+x`; control bytes write nothing. For every starting column, the new cursor after a printable byte, tab, CR, LF and backspace is as the source computes it, including the row wrap from column 79 on and the byte-wide truncation at 248-255. Every other control byte, and backspace at column 0, leaves the state unchanged while the column is on screen; from column 80 or beyond (above 80 for backspace) it moves to the start of the next row |
| Display.PutcAll | trunk/kernel/display.c:160-161 | the attribute is kept and the column stays on screen; a text of control bytes only never touches video memory |
| Display.Puts | trunk/kernel/display.c:153-162 | a null string changes nothing; the attribute is kept and the column stays on screen |
| Display.PutcAllConcat | trunk/kernel/display.c:160-161 | rendering `a + b` is rendering `a` and then `b` |
| Display.PutsStopsAtNul | trunk/kernel/display.c:160-161 | `Puts` shows exactly the bytes before the first NUL, one by one through `Putc` |
| Display.StrLenAt | trunk/kernel/display.c:160 | the length of a string is the position of its first NUL |
| Display.WriteRunCells | trunk/kernel/display.c:69-71 | writing a run puts byte k at index i+k and leaves every index outside the run as it was |
| Display.PrintableRunWrites | trunk/kernel/display.c:66-72 | a printable run that ends before column 80 moves the cursor right by its length on the same row and writes its cells from the cursor on, in order |
| Display.PrintableStep | trunk/kernel/display.c:66-72 | a printable byte before column 79 writes the cursor's cell and advances one column; nothing else changes |
| Display.PrintableWrap | trunk/kernel/display.c:66-79 | two printable bytes from column 79 leave the cursor at column 1 of the next row, with the second byte at the start of that row |
| Display.SetColor | trunk/kernel/display.c:123-128 | returns the previous attribute and installs the new one, truncated to a byte; the cursor and memory are unchanged |
| Display.SetColorRestore | trunk/kernel/display.c:123-128 | installing the attribute that `SetColor` returned restores the original state |
| Display.GotoXY | trunk/kernel/display.c:131-138 | each coordinate is set to its argument, truncated to a byte, only when its current value is at most 80 (column) or 25 (row); otherwise it is kept |
| Display.GotoXYIdempotent | trunk/kernel/display.c:131-138 | a second identical move changes nothing |
| Display.Fill | trunk/kernel/display.c:145-146 | the first n indices hold the cell; every other index is as before |
| Display.ClrScr | trunk/kernel/display.c:141-150 | all 2000 screen cells become a space in attribute `c`; memory past the screen is unchanged; the cursor goes home only where the `GotoXY` guard allows it |
| Display.ClrScrKeepsRunawayRow | trunk/kernel/display.c:136-149 | a row past 25 survives `ClrScr` and any later `GotoXY` |
| Display.ClearMoveClear | trunk/kernel/display.c:131-150 | whenever the `GotoXY` guards hold (column at most 80, row at most 25), clearing, moving to (5, 5) and clearing again puts the cursor home |
| Numerals.DigitChar | trunk/kernel/display.c:84 | the computed digit character equals entry d of `bchars` |
| Numerals.DigitValueOfChar | trunk/kernel/display.c:84 | the digit character of d is a digit of any base above d, and parses back to d |
| Numerals.DigitValueOfDigit | trunk/kernel/display.c:84 | every digit of the base is the `bchars` entry of its own value |
| Numerals.Digits | trunk/kernel/display.c:97-106 | the digits are empty exactly for 0; a non-zero value never starts with '0' |
| Numerals.DigitsAreDigits | trunk/kernel/display.c:97-101 | every byte produced is a digit of the base |
| Numerals.Itoa | trunk/kernel/display.c:86-107 | "0" when `i == 0` or `base > 16`. Otherwise a canonical numeral in the base: only digits of the base, no leading zero. It has no NUL and is at most 32 bytes |
| Numerals.ItoaRoundTrip | trunk/kernel/display.c:86-107 | for bases 2-16, parsing the output gives `i` back |
| Numerals.DecodeDigits | trunk/kernel/display.c:97-106 | parsing the digit sequence of a value gives the value |
| Numerals.DigitsDecode | trunk/kernel/display.c:97-106 | a digit string without a leading zero is the digit sequence of the value it parses to |
| Numerals.ItoaOfDecode | trunk/kernel/display.c:86-107 | every canonical numeral whose value fits 32 bits is exactly what `itoa` prints for that value, so the representation is unique |
| Numerals.ItoaS | trunk/kernel/display.c:109-116 | nothing is written exactly when `base > 16`. A negative value gives '-' followed by `itoa` of its magnitude; any other value gives `itoa` of the value. The output is 1 to 33 bytes with no NUL |
| Numerals.ItoaSRoundTrip | trunk/kernel/display.c:109-116 | parsing the signed output, sign included, gives the value back |
| Numerals.DigitsLength | trunk/kernel/display.c:97-101 | a value below base^k has at most k digits |
| Numerals.DigitsFitWord | trunk/kernel/display.c:83-101 | a 32-bit value has at most 32 digits, so `tbuf[32]` never overflows |
| Numerals.PrintfBufferFits | trunk/kernel/display.c:205-217 | the `%d` text is at most 11 bytes and the `%x` text at most 9, so each fits `str[32]` with its terminator |
| Numerals.ItoaBuffered | trunk/kernel/display.c:86-107 | the two-loop algorithm over the scratch buffer yields exactly `itoa`'s text |
| Numerals.CollectDigits | trunk/kernel/display.c:97-101 | the first loop leaves the digits in `tbuf`, least significant first |
| Numerals.CollectStep | trunk/kernel/display.c:98-100 | one turn of the first loop moves the last digit of the value into `tbuf`, and the value decreases |
| Numerals.CopyReversed | trunk/kernel/display.c:102-106 | the second loop copies `tbuf` back in reverse order |
| Format.DirectiveText | trunk/kernel/display.c:184-221 | the text of every directive except `%c` is a C string, with no NUL |
| Format.ExpandOkIffDirected | trunk/kernel/display.c:177-226 | the expansion reaches the end of the template exactly when every '%' is followed by a directive letter |
| Format.ExpandLiteral | trunk/kernel/display.c:230-232 | a template without '%' needs no arguments and expands to itself |
| Format.DirectedStep | trunk/kernel/display.c:177-233 | dropping a literal byte, or a '%' and its directive letter, from the front keeps the template directed or not directed |
| Format.Scan | trunk/kernel/display.c:175-238 | the loop keeps the attribute and keeps the column on screen; it ends with the template length or with 1. The byte after '%' is read as `str[i+1]` (`Format.Next`), which is the terminator when '%' is the last byte |
| Format.RenderDirective | trunk/kernel/display.c:184-221 | one directive branch: `%c` sends its byte through `Putc`, `%s` shows the copied string with `Puts`, `%d %i` and `%x %X` show `itoa_s` in base 10 and 16 with `Puts`; the attribute is kept and the column stays on screen (`Format.DirectiveRenders` states the exact text) |
| Format.Printf | trunk/kernel/display.c:165-239 | a null template returns 0 and does nothing. Otherwise the result is the template length or 1; the attribute is kept and the column stays on screen |
| Format.ScanRenders | trunk/kernel/display.c:175-238 | from any index, the loop shows exactly the expansion of the remaining template, and returns its length when that expansion completes and 1 otherwise |
| Format.DirectiveRenders | trunk/kernel/display.c:184-221 | each recognised directive shows exactly its text: `%c` one byte, `%s` the string, `%d %i %x %X` the signed numeral |
| Format.PrintfRenders | trunk/kernel/display.c:165-239 | `Printf` shows exactly the expansion of its template. It returns the template length when every '%' starts a directive, and 1 otherwise |
| Format.PrintfLiteral | trunk/kernel/display.c:175-238 | a template without '%' is shown as `Puts` shows it, and its length is returned |
| Format.ExpandStopsAtStray | trunk/kernel/display.c:223-225 | literal bytes followed by a '%' that starts no directive expand to those bytes, and the expansion stops there |
| Format.PrintfUnsupported | trunk/kernel/display.c:223-225 | an unrecognised directive, "%%" or a trailing '%' makes the call return 1; the literal bytes before it remain on screen |
| Format.SingleDirective | trunk/kernel/display.c:181-221 | a template that is exactly one directive shows that directive's text and returns 2 |
| Format.PrintfNegativeDecimal | trunk/kernel/display.c:202-210 | `Printf("%d", -42)` shows "-42" and returns 2 |
| Format.PrintfNegativeHex | trunk/kernel/display.c:213-221 | `Printf("%x", -255)` shows "-FF": a sign and a magnitude, not two's complement, and returns 2 |

## Left out

- **The hardware mapping.** The pointer to physical address 0xB8000 (display.c:19) is replaced by a map from cell index to cell value. Memory beyond the 2000 screen cells is modelled only as more map entries, not as what real memory would do there.
- **`va_list` mechanics** (display.c:172-173, 185-215, 224, 237). The arguments are a typed list: `Int` for `int` arguments and `Str` for the text a `%s` pointer refers to.
- **Missing or wrong-kind arguments.** In C, reading an argument that was not passed is undefined. `Format.ArgsFit` requires that each directive the scan reaches has an argument of the right kind.
- **The `%s` copy.** The int-to-pointer cast and the `strcpy` into the 64-byte stack buffer (display.c:193-195) are not modelled as memory operations. `ArgFits` requires the text to be shorter than 64 bytes, and the copy is modelled as the text up to its terminator.
- **Base 0 and base 1.** `itoa` with a non-zero value divides by zero in base 0 and never terminates in base 1 (display.c:97-100). `Numerals.Itoa` and `Numerals.ItoaS` require `base >= 2` in that case.
- **INT_MIN.** Negating INT_MIN (display.c:113) is undefined in C. `Numerals.ItoaS` and `%d`/`%x` arguments exclude it.
- **The return conversion of `Printf`.** The `size_t` index is returned as `int` (display.c:238). The conversion is not modelled, so templates longer than INT_MAX bytes are outside the model.
- **The `%c` conversion.** `(char)va_arg(args, int)` followed by the conversion to `unsigned char` is modelled as truncation modulo 256. The intermediate `char` is not modelled separately.
- **Build noise.** The `hw_init.h` include and the MSVC pragma (display.c:16, 38-40) are not modelled.
- Format.Scan: its contract bounds the result and the state. The exact output is stated by `Format.ScanRenders` rather than by `Scan`'s own ensures.
