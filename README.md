# bitsflow MicroPython port: a verified model of its core

This project models in Dafny the core of the bitsflow board's MicroPython
port and proves properties of that model. The code is integer-only and
sequential:

- the `Image` type, which covers:
  - the greyscale pixel buffer;
  - the text parser of `Image('09:90')`, the bytes and size constructors, and the `repr` serialiser;
  - the checked pixel accessors, fill, blit, crop and shift;
  - saturating add and subtract;
  - font glyphs;
  - the scrolling-text iterator and the string facade with its iterator (`pictures.dfy`, `images.dfy`, `font.dfy`, `scrolling.dfy`, `facade.dfy`);
- the cycling iterator used by `display.show(..., loop=True)` (`iters.dfy`);
- `display.show`, `display.scroll`, the display's on/off state and its pixel checks (`display.dfy`);
- the pin-mode arbiter, which covers:
  - the per-pin mode table with its acquire and release rules (`pinmode.dfy`, `pins.dfy`);
  - the pin operations that drive it (`pin.dfy`);
  - the audio-pin router (`PinModes.PinTable.AudioSelect`, `AudioFree`);
- the `music` module: the note parser, the period and gap arithmetic, and the tick state machine behind `play`, `pitch`, `stop`, `set_tempo` and `reset` (`music.dfy`);
- the accelerometer's gesture recorder: a bitmask plus sixteen 4-bit entries packed into eight bytes (`gestures.dfy`);
- the soft timer: 31-bit wrap-around tick differences, the expiry queue and its handler loop, with the entries that loop can never work off and the queues on which it never ends (`softtimer.dfy`);
- `bitsflow.set_volume`, `bitsflow.sleep` and `bitsflow.run_every`, whose period check is modelled as corrected (see Findings) (`bitsflow.dfy`);
- the simulator board's gesture and threshold name tables (`conversions.dfy`).

`basics.dfy` holds the shared result types (`Wrappers`), the C word widths
(`Words`: wrap to 8, 16 and 32 bits, and the `int32_t` reading of a word) and
the display constants (`Screen`: 5 x 5 pixels, brightness 0 to 9). The board
and HAL are not modelled. Their results come in as parameters: the current
tick count `now`, whether audio or music is playing, and what the board
accepts. The calls the code makes into them go out as results: the display
calls of `show`, the fired timer entries, and the routed audio pin.

Where the code and its documentation differ, the model follows the code.
Three such places are kept on purpose:

- The digit check of the text parser reads `c <= '9'`, so `'!'` parses as -15.
- `show` turns a multi-character string into a facade that gives one glyph per frame, not into a scrolling text.
- EVT_NONE is named "none" by the simulator board but "" by the firmware's name table.

## Model

| member | source | states |
|---|---|---|
| Words.Signed32 | src/bitsflow/drv_softtimer.c:31 | an integer stored as a 32-bit word and read back as `int32_t`: it equals the integer modulo 2^32, and is the integer itself when that is already in the `int32_t` range |
| Font.GlyphFallback | src/bitsflow/bitsflow_image.c:425-431 | a character with a font entry gets that entry; any other character gets the `'?'` glyph |
| Font.FontPixel | src/bitsflow/bitsflow_image.c:433-436 | a glyph pixel is a single bit, 0 or 1 |
| Font.FontPixelIsBit | src/bitsflow/bitsflow_image.c:433-436 | pixel (x, y) is bit 4 - x of row y, so column 0 is the most significant of the five bits |
| Font.FontColumnNonBlank | src/bitsflow/bitsflow_image.c:561-568 | the loop answers 1 exactly when some row of the glyph has that column lit, otherwise 0 |
| Font.RightmostIsLastLitColumn | src/bitsflow/bitsflow_image.c:570-579 | the rightmost column lies in 2..4; no column to its right is lit; it is lit itself when above 2; it is above 2 exactly when column 3 or 4 is lit |
| Font.RightmostNonBlankColumn | src/bitsflow/bitsflow_image.c:570-579 | the method finds the rightmost lit column among 4 and 3, and answers 2 when neither is lit |
| Pictures.Blank | src/bitsflow/bitsflow_image.c:116-120 | a blank image has the asked size and every pixel 0 |
| Pictures.GetPixel | src/bitsflow/bitsflow_image.c:204-215 | a negative coordinate raises "index cannot be negative"; a coordinate past the size raises "index too large"; otherwise the answer is the pixel |
| Pictures.Update | src/bitsflow/bitsflow_image.c:239-241 | writing a pixel changes (x, y) alone, keeps the size and reads back as the written value |
| Pictures.SetPixelCheck | src/bitsflow/bitsflow_image.c:219-243 | set_pixel fails in this order: on an immutable image, on a negative index, on a brightness outside 0..9, then on an index that is too large; it passes exactly when the image is mutable, the index is inside and the brightness is in range |
| Pictures.SetThenGet | src/bitsflow/bitsflow_image.c:204-243 | get_pixel after set_pixel answers the written value at (x, y) and the old value at every other position |
| Pictures.ParsePic | src/bitsflow/bitsflow_image.c:54-108 | the text is refused with "unexpected character" exactly when some character is above '9' and is not ':'; otherwise the image is as wide as the longest row and as high as the number of rows |
| Pictures.LinesCount | src/bitsflow/bitsflow_image.c:60-78 | a text has one line more than it has separators ('\n' or ':'); the last line is empty exactly when the text is empty or ends in a separator |
| Pictures.ParsedHeight | src/bitsflow/bitsflow_image.c:60-78 | the height is the number of separators, plus one when the text ends in an unterminated, non-empty row |
| Pictures.ParsedWidth | src/bitsflow/bitsflow_image.c:74-106 | the width is the length of the longest row, every row fits in it, and a pixel past the end of its row is 0 |
| Pictures.LinesExample | src/bitsflow/bitsflow_image.c:60-78 | "9:0" is read as the two lines "9" and "0" |
| Pictures.RowsExample | src/bitsflow/bitsflow_image.c:60-99 | "9:0" has width 1 and height 2, with pixel (0, 0) = 9 and pixel (0, 1) = 0 |
| Pictures.ParseExample | src/bitsflow/bitsflow_image.c:54-108 | "9:0" parses to the 1 x 2 image whose rows are [9] and [0] |
| Pictures.ParseBelowDigits | src/bitsflow/bitsflow_image.c:68-97 | because the digit check reduces to `c <= '9'`, "!" is accepted as one pixel of value '!' - '0' = -15 |
| Pictures.ParseRefusesLetter | src/bitsflow/bitsflow_image.c:68-72 | "a" is refused with "unexpected character" |
| Pictures.ParseByPixels | src/bitsflow/bitsflow_image.c:54-108 | a text whose characters are all accepted parses to any image that has the measured size and the parsed pixels |
| Pictures.BodyLength | src/bitsflow/bitsflow_image.c:39-46 | the printed rows take one digit per pixel plus one ':' per row, plus the separators in between |
| Pictures.SerialiseLength | src/bitsflow/bitsflow_image.c:32-52 | repr is "Image('" + body + "')", and its length is h * (w + 1) + 9 |
| Pictures.Serialise | src/bitsflow/bitsflow_image.c:32-52 | repr starts with "Image(" and ends with ")", and the one-line form quotes its body |
| Pictures.RoundTrip | src/bitsflow/bitsflow_image.c:38-108 | parsing the quoted body of repr gives back the same width, height and pixels, for every image with pixels in 0..9 that has a row or is zero pixels wide |
| Pictures.GlyphPixels | src/bitsflow/bitsflow_image.c:433-445 | a glyph pixel is 9 when its font bit is set and 0 when it is not; a character with no font entry draws as '?' |
| Pictures.GlyphPic | src/bitsflow/bitsflow_image.c:438-445 | the image of a character is 5 x 5 |
| Pictures.BlitPic | src/bitsflow/bitsflow_image.c:283-286 | the assumed contract of the `image_blit` primitive: a clipped rectangle copy; destination pixels outside the copied rectangle keep their value |
| Pictures.Crop | src/bitsflow/bitsflow_image.c:180-190 | a negative width or height is clamped to 0; pixel (i, j) of the crop is source pixel (x + i, y + j), or 0 outside the source |
| Pictures.Shift | src/bitsflow/bitsflow_image.c:172-178 | a shift keeps the size; pixel (i, j) is source pixel (i + dx, j + dy), or 0 outside the source |
| Pictures.ShiftLeft | src/bitsflow/bitsflow_image.c:301-305 | shift_left(n) moves the picture n columns to the left |
| Pictures.ShiftRight | src/bitsflow/bitsflow_image.c:308-312 | shift_right(n) is a shift by -n columns |
| Pictures.ShiftUp | src/bitsflow/bitsflow_image.c:315-319 | shift_up(n) moves the picture n rows up |
| Pictures.ShiftDown | src/bitsflow/bitsflow_image.c:322-326 | shift_down(n) is a shift by -n rows |
| Pictures.CopyByCropOrShift | src/bitsflow/bitsflow_image.c:329-332 | cropping to the full size, or shifting by 0, gives back the same image, as copy does |
| Pictures.ShiftLeftTwice | src/bitsflow/bitsflow_image.c:301-305 | for non-negative a and b, shifting left by a and then by b is shifting left by a + b, since what falls off the edge stays lost |
| Pictures.Sum | src/bitsflow/bitsflow_image.c:467-488 | images of different sizes raise "images must be the same size"; otherwise the result has the same size and each pixel is min(l + r, 9) when adding or max(l - r, 0) when subtracting |
| Pictures.SumInRange | src/bitsflow/bitsflow_image.c:476-486 | every pixel of a sum or difference is a brightness in 0..9 |
| Pictures.SubtractUndoesAdd | src/bitsflow/bitsflow_image.c:467-488 | when no pixel saturates, (a + b) - b is a |
| Pictures.AddCommutes | src/bitsflow/bitsflow_image.c:476-486 | a + b is b + a |
| Images.BytesPixel | src/bitsflow/bitsflow_image.c:154-161 | pixel (x, y) of the bytes constructor is byte y * w + x, capped at 9 |
| Images.BytesInRange | src/bitsflow/bitsflow_image.c:154-161 | every pixel of the bytes constructor is a brightness |
| Images.BlitCheck | src/bitsflow/bitsflow_image.c:258-282 | blit fails on an immutable image before anything else, then when only the x offset is given, then on a negative width or height; it passes exactly when none of these holds |
| Images.FillCheck | src/bitsflow/bitsflow_image.c:246-255 | fill fails on an immutable image first; it passes exactly when the image is mutable and the brightness is in 0..9 |
| Images.Greyscale.Value | src/bitsflow/bitsflow_image.c:204-215 | the buffer seen as an image value: the same size and the same pixels |
| Images.Greyscale.Alloc | src/bitsflow/bitsflow_image.c:79 | a new, mutable buffer of the asked size |
| Images.Greyscale.Blank | src/bitsflow/bitsflow_image.c:140-150 | a new, mutable buffer of the asked size with every pixel 0 |
| Images.Greyscale.Frozen | src/bitsflow/bitsflow_image.c:219-223 | a built-in image holds the given pixels and refuses every change |
| Images.Greyscale.SetPixel | src/bitsflow/bitsflow_image.c:225-243 | the outcome is that of the check; on success only (x, y) changes, to v; on failure nothing changes |
| Images.Greyscale.Fill | src/bitsflow/bitsflow_image.c:246-255 | the outcome is that of the check; on success every pixel is n; on failure nothing changes |
| Images.Greyscale.Blit | src/bitsflow/bitsflow_image.c:258-287 | the outcome is that of the check; on success the buffer is the clipped copy, placed at (0, 0) when no offsets are given; on failure nothing changes |
| Images.Greyscale.SetFromChar | src/bitsflow/bitsflow_image.c:438-445 | the 5 x 5 buffer becomes the glyph of the character |
| Images.Greyscale.StoreBytes | src/bitsflow/bitsflow_image.c:154-161 | the buffer becomes the row-major image of the bytes, each capped at 9 |
| Images.Measure | src/bitsflow/bitsflow_image.c:60-78 | the first pass succeeds exactly when every character is accepted, and then answers the parsed width and height |
| Images.FillParsed | src/bitsflow/bitsflow_image.c:83-106 | the second pass writes every pixel of the parsed image into the buffer, padding short rows with 0 |
| Images.Parse | src/bitsflow/bitsflow_image.c:54-108 | image_from_parsed_str fails exactly when the text is refused; otherwise it gives a new, mutable image equal to the parsed image |
| Images.MakeNew | src/bitsflow/bitsflow_image.c:111-170 | Image() is blank 5 x 5; a non-string argument raises "Image(s) takes a string"; a one-character string gives its glyph; a longer string has the outcome and image of the parser; Image(w, h) is blank of that size, and a negative size is refused (an assumption about `greyscale_new`, see Left out); Image(w, h, buf) raises "image data is incorrect size" exactly when w < 0, h < 0 or w * h != len(buf), and otherwise holds the capped bytes in row-major order |
| Scrolling.LimitOf | src/bitsflow/bitsflow_image.c:570-595 | a character takes 3 to 5 columns, and 5 in monospace mode |
| Scrolling.Restart | src/bitsflow/bitsflow_image.c:581-595 | the restart position is the first character at offset 0, and it satisfies the iterator invariant |
| Scrolling.Advance | src/bitsflow/bitsflow_image.c:637-655 | one step keeps the invariant and stays on the same character or moves to the next one |
| Scrolling.NextState | src/bitsflow/bitsflow_image.c:612-657 | next stops exactly when a non-repeating scroll is finished; otherwise the new position satisfies the invariant |
| Scrolling.Frame | src/bitsflow/bitsflow_image.c:622-636 | a frame is the previous frame moved one column left, with column 4 taken from the glyph column at the current offset (blank past the glyph) |
| Scrolling.NextImage | src/bitsflow/bitsflow_image.c:614-636 | the next frame is always 5 x 5; a repeating restart clears the buffer first |
| Scrolling.AdvanceProgress | src/bitsflow/bitsflow_image.c:637-655 | every step of an unfinished scroll decreases what is left to show |
| Scrolling.FinishedRemaining | src/bitsflow/bitsflow_image.c:614-621 | a scroll is finished exactly when nothing is left to show |
| Scrolling.LimitRange | src/bitsflow/bitsflow_image.c:590-655 | under the invariant, offset_limit is always 3, 4 or 5, and 5 in monospace mode |
| Scrolling.RepeatNeverStops | src/bitsflow/bitsflow_image.c:614-621 | a repeating scroll never signals the end of the iteration |
| Scrolling.Run | src/bitsflow/bitsflow_image.c:612-657 | every position reached by repeated calls satisfies the invariant |
| Scrolling.EmptyTextFiveFrames | src/bitsflow/bitsflow_image.c:581-657 | a non-repeating scroll of the empty text shows exactly five frames and then stops |
| Scrolling.MonospaceGlyphInView | src/bitsflow/bitsflow_image.c:612-657 | in monospace mode a one-character text takes five calls to bring all five glyph columns into view, and then the frame is exactly the glyph |
| Scrolling.ColumnsScrollIn | src/bitsflow/bitsflow_image.c:622-636 | five frames that bring in columns 0 to 4 of an image leave exactly that image in view |
| Scrolling.RunPrefix | src/bitsflow/bitsflow_image.c:637-655 | the first five calls on a monospace one-character text count the offset up from 0 to 5 |
| Scrolling.RunMonospaceChar | src/bitsflow/bitsflow_image.c:637-645 | within the character of a monospace text, k calls add k to the offset |
| Scrolling.ScrollingIterator.constructor | src/bitsflow/bitsflow_image.c:597-610 | the iterator starts at the restart position, with its own frame buffer |
| Scrolling.ScrollingIterator.RestartPosition | src/bitsflow/bitsflow_image.c:581-595 | the fields become the restart position |
| Scrolling.ScrollingIterator.ShiftOut | src/bitsflow/bitsflow_image.c:622-629 | columns 0..3 receive the old columns 1..4, and column 4 becomes 0 |
| Scrolling.ScrollingIterator.DrawColumn | src/bitsflow/bitsflow_image.c:631-636 | column 4 receives the glyph column at the offset; the other columns are kept |
| Scrolling.ScrollingIterator.DrawFrame | src/bitsflow/bitsflow_image.c:622-636 | the buffer becomes the frame of the current position drawn over the old buffer |
| Scrolling.ScrollingIterator.AdvancePosition | src/bitsflow/bitsflow_image.c:637-655 | the fields move to the next position, including the uint8_t offset wrap from 255 back to 0 |
| Scrolling.ScrollingIterator.Next | src/bitsflow/bitsflow_image.c:612-657 | past the end the call answers stop-iteration and changes nothing; otherwise it answers the shared buffer, which holds the next frame, and moves to the next position |
| Facades.NormalIndex | src/bitsflow/bitsflow_image.c:689 | an index is valid exactly when -len <= i < len, and a negative index counts from the end |
| Facades.StringFacade.constructor | src/bitsflow/bitsflow_image.c:728-734 | the facade holds the text and one shared 5 x 5 image |
| Facades.StringFacade.Len | src/bitsflow/bitsflow_image.c:699-707 | the length of a facade is the length of its text (for ASCII text; `mp_obj_len` counts characters while subscr indexes bytes, see Left out) |
| Facades.StringFacade.Subscr | src/bitsflow/bitsflow_image.c:685-697 | store and delete are not supported; an index out of range raises and leaves the image alone; a valid index draws that character's glyph into the shared image and answers it |
| Facades.FacadeIterator.constructor | src/bitsflow/bitsflow_image.c:755-764 | the iterator starts at index 0 and shares the facade's image |
| Facades.FacadeIterator.Next | src/bitsflow/bitsflow_image.c:736-746 | after the last character it stops and changes nothing; otherwise it answers the shared image holding the glyph of text[index], and moves the index on by one |
| Iters.NextIndex | src/bitsflow/iters.c:38-41 | the index moves on by one and wraps to 0 at the length, so it stays in [0, len) for a non-empty list |
| Iters.IndexAfter | src/bitsflow/iters.c:36-58 | before any call the index is -1; after any call on a non-empty list it lies in [0, len) |
| Iters.IndexAfterCycles | src/bitsflow/iters.c:36-58 | the k-th call reads element (k - 1) mod len, so the elements come round as 0, 1, ..., len - 1, 0, ... |
| Iters.RepeatIterator.constructor | src/bitsflow/iters.c:52-58 | the iterator starts with index -1 |
| Iters.RepeatIterator.Next | src/bitsflow/iters.c:36-43 | the length is read again on every call; a non-empty list answers the element at the new index, never stop-iteration; an empty list raises IndexError |
| Pins.ModeIndex | src/bitsflow/bitsflow_pinmode.c:97-109 | every mode has a table position in 1..11, and 0 stays free for "initial mode" |
| Pins.ModeIndexRoundTrip | src/bitsflow/bitsflow_pinmode.c:34-46 | the mode stored at a position is read back as the same mode |
| Pins.ModeName | src/bitsflow/bitsflow_pinmode.c:97-109 | every mode has a non-empty name |
| Pins.ReleaseOf | src/bitsflow/bitsflow_pinmode.c:76-109 | display, button, i2c and spi pins refuse to be released; music and audio_play release through the audio router; every other mode releases silently |
| Pins.BoardTable | src/bitsflow/bitsflow_pin.c:31-52 | the board's pins have distinct numbers, and the display pins 3, 4, 6, 7 and 10 start in display mode |
| Pins.GetPin | src/bitsflow/bitsflow_pin.c:267-274 | an object is accepted exactly when it is a pin with a digital, AD or touch type, so the touch-only logo is rejected with "expecting a pin" |
| PinModes.ModeIn | src/bitsflow/bitsflow_pinmode.c:34-40 | a pin whose table entry is 0 is in its initial mode; otherwise it is in the stored mode |
| PinModes.Freed | src/bitsflow/bitsflow_pinmode.c:48-52 | freeing no pin changes nothing; freeing a pin sets its entry to unused and keeps every other entry |
| PinModes.Decide | src/bitsflow/bitsflow_pinmode.c:59-95 | acquiring changes nothing exactly when the pin is in that mode already, or is a button asked for read_digital; otherwise it is refused exactly when the current mode refuses release, or releases through audio while audio plays; the routed audio pin is freed exactly when the audio release runs while nothing plays |
| PinModes.CanBeAcquiredMeans | src/bitsflow/bitsflow_pinmode.c:54-95 | can_be_acquired is false exactly for the modes whose release raises, and for those modes any real change is refused; the only refusals for other modes are music and audio_play while audio plays |
| PinModes.AcquireSpec | src/bitsflow/bitsflow_pinmode.c:59-74 | the table after an acquire is still well formed |
| PinModes.AcquireSpecMeans | src/bitsflow/bitsflow_pinmode.c:59-74 | a kept mode answers false and changes nothing; a refused one raises with the pin's number and mode and changes nothing; a switch answers true, stores the new mode, and first frees the routed audio pin when the audio release runs |
| PinModes.AcquireTouchesOnlyItsPin | src/bitsflow/bitsflow_pinmode.c:59-74 | when the routed pin owns the audio, acquiring a mode other than music or audio_play changes that pin's own entry and no other |
| PinModes.PinTable.GetMode | src/bitsflow/bitsflow_pinmode.c:34-40 | the mode read from the table is that of ModeIn |
| PinModes.PinTable.constructor | src/bitsflow/bitsflow_pinmode.c:32 | every table entry starts at 0, so every pin is in its initial mode; no audio pin is routed |
| PinModes.PinTable.SetMode | src/bitsflow/bitsflow_pinmode.c:42-46 | only the entry of that pin changes, and the pin then reads as the new mode |
| PinModes.PinTable.Free | src/bitsflow/bitsflow_pinmode.c:48-52 | the table becomes its old contents with that pin freed |
| PinModes.PinTable.AudioFree | src/bitsflow/bitsflow_pinaudio.c:62-68 | the routed pin is freed and the routing cleared; a second call changes nothing |
| PinModes.PinTable.Acquire | src/bitsflow/bitsflow_pinmode.c:59-74 | the answer and the new table are those of AcquireSpec on the old table |
| PinModes.PinTable.AudioSelect | src/bitsflow/bitsflow_pinaudio.c:33-60 | the speaker pin raises and a non-pin raises "expecting a pin", before any change; None frees the routed pin, clears the routing and selects HAL pin -1; the routed pin only has its mode rewritten; any other pin frees the old one, is recorded as routed, and is then acquired (so a failed acquire leaves the routing on the new pin) |
| PinOps.OutcomeOf | src/bitsflow/bitsflow_pin.c:67-69 | a successful acquire passes, whatever it answered; a failed one carries its error |
| PinOps.IsBitExactly | src/bitsflow/bitsflow_pin.c:62 | `val >> 1 == 0` holds exactly for 0 and 1, so negatives are rejected too |
| PinOps.WriteDigital | src/bitsflow/bitsflow_pin.c:60-70 | a value other than 0 or 1 raises before any mode change; otherwise the pin acquires write_digital |
| PinOps.ReadDigital | src/bitsflow/bitsflow_pin.c:73-78 | the pin acquires read_digital, so a button reads without a change of mode |
| PinOps.GetPull | src/bitsflow/bitsflow_pin.c:91-99 | it passes exactly when the pin is in read_digital or button mode, and raises with the pin's mode otherwise; it never changes the mode |
| PinOps.WriteAnalogSpec | src/bitsflow/bitsflow_pin.c:108-120 | the table after write_analog is still well formed |
| PinOps.WriteAnalogEndsIn | src/bitsflow/bitsflow_pin.c:108-120 | a successful write of 0 leaves the pin unused, any other successful write leaves it in write_analog mode |
| PinOps.WriteAnalog | src/bitsflow/bitsflow_pin.c:102-121 | a value outside 0..1023 raises before any mode change; otherwise the outcome and table are those of WriteAnalogSpec |
| PinOps.ReadAnalog | src/bitsflow/bitsflow_pin.c:124-128 | the pin acquires unused mode |
| PinOps.PrepareTouch | src/bitsflow/bitsflow_pin.c:158-177 | a pin in touch or button mode is left alone; any other pin acquires touch mode |
| PinOps.SetAnalogPeriod | src/bitsflow/bitsflow_pin.c:131-138 | the period handed to the board is ms * 1000 in 32-bit arithmetic, which is exact for periods up to 2147483 ms; the call raises "invalid period" exactly when the board refuses it |
| PinOps.SetAnalogPeriodMicroseconds | src/bitsflow/bitsflow_pin.c:141-148 | the call raises "invalid period" exactly when the board refuses the period |
| Displays.DigitChar | src/bitsflow/bitsflow_display.c:63-65 | a digit's character stands for that digit |
| Displays.NatDigits | src/bitsflow/bitsflow_display.c:63-65 | a natural number is written in digits, with one digit exactly below 10 |
| Displays.NatDigitsRoundTrip | src/bitsflow/bitsflow_display.c:63-65 | reading the digits back gives the number |
| Displays.IntToString | src/bitsflow/bitsflow_display.c:63-65 | a negative integer is written as '-' and the digits of its magnitude |
| Displays.Normalise | src/bitsflow/bitsflow_display.c:63-117 | integers, booleans and floats become strings; strings, images, bytes and other objects are left as they are |
| Displays.Show | src/bitsflow/bitsflow_display.c:40-98 | show makes one or two display calls |
| Displays.ShowDecisions | src/bitsflow/bitsflow_display.c:59-97 | the first call always stops the animation; there is no second call exactly for the empty string; the second call draws at once exactly for a one-character string or an image without clear or loop; an animation keeps the caller's delay, clear and wait, goes through the repeat iterator exactly when loop is set, and animates a string as a facade |
| Displays.ShowInteger | src/bitsflow/bitsflow_display.c:63-65 | an integer is shown as its decimal text: 0..9 at once as one digit glyph (without clear and loop), and every other integer, negative ones included, animates a facade over its digits |
| Displays.Scroll | src/bitsflow/bitsflow_display.c:101-122 | scroll succeeds exactly when the normalised argument is a string or the argument is a bytes object, and then animates a scrolling string of that text (one character per byte for bytes) with the monospace and loop flags and clear = false; any other object raises |
| Displays.ScrollInteger | src/bitsflow/bitsflow_display.c:115-120 | scrolling an integer scrolls its non-empty decimal string |
| Displays.ByteText | src/bitsflow/bitsflow_display.c:118 | the text of a bytes object has one character per byte, each with the byte's code |
| Displays.TextOf | src/bitsflow/bitsflow_display.c:118 | `mp_obj_str_get_data` finds text exactly in a str or a bytes object: the string itself, or the bytes read as characters |
| Displays.AcquireAll | src/bitsflow/bitsflow_display.c:127-133 | acquiring a list of pins in turn keeps the table well formed |
| Displays.FreeAll | src/bitsflow/bitsflow_display.c:141-147 | freeing a list of pins in turn keeps a 32-entry table |
| Displays.AcquireAllEndsIn | src/bitsflow/bitsflow_display.c:127-133 | for distinct pins and a mode other than music, audio_play and read_digital, the entries of pins outside the list are kept, and when every acquire passes each listed pin ends in the mode |
| Displays.FreeAllEndsIn | src/bitsflow/bitsflow_display.c:141-147 | every listed pin ends unused and every other entry is kept |
| Displays.Display.constructor | src/bitsflow/bitsflow_display.c:221-224 | the display starts active |
| Displays.Display.On | src/bitsflow/bitsflow_display.c:125-136 | the pins 3, 4, 6, 7 and 10 acquire display mode in turn; on success the display is active and every display pin is in display mode; on failure it keeps its state |
| Displays.Display.Off | src/bitsflow/bitsflow_display.c:139-149 | the display becomes inactive and each display pin is freed; the audio routing is untouched |
| Displays.Display.SetPixel | src/bitsflow/bitsflow_display.c:171-179 | an index outside 5 x 5 raises before the brightness is checked, then a brightness outside 0..9 raises; on success only that LED changes |
| Displays.Display.GetPixel | src/bitsflow/bitsflow_display.c:189-194 | an index outside 5 x 5 raises; otherwise the LED's brightness is answered |
| Displays.Display.IsOn | src/bitsflow/bitsflow_display.c:152-155 | is_on answers whether the display is active, the flag On sets and Off clears |
| Music.RelativeOctave | src/bitsflow/modmusic.c:195-230 | the octave relative to 4, one lower for Cb, lies in -5..11 |
| Music.GuardAsWrittenReadsPastTable | src/bitsflow/modmusic.c:232 | the written guard lets 'h' (index 7) through, past the seven-entry period tables; every note the intended guard plays passes it too |
| Music.NotePeriod | src/bitsflow/modmusic.c:233-249 | the period of a played note is the table period halved per octave up or doubled per octave down, and is bounded |
| Music.MsPerTick | src/bitsflow/modmusic.c:170 | ms_per_tick is (60000 / bpm) / ticks in integer division, at most 60000 |
| Music.Gap | src/bitsflow/modmusic.c:255-259 | the next-note delay is the note length less the 10 ms articulation, computed in 32-bit words, and at least 10 |
| Music.GapIsClampedLength | src/bitsflow/modmusic.c:255-259 | the delay is max(ms_per_tick * duration - 10, 10); the word wrap-around never changes it |
| Music.NoteLetters | src/bitsflow/modmusic.c:167 | 'a'..'g' and 'A'..'G' have note indices 0..6, and 'r' is a rest |
| Music.FlatIsSharpBelow | src/bitsflow/modmusic.c:178-195 | 'b' takes the index one lower (A flat wraps to G) and reads the sharp table, as '#' does; Cb goes down an octave |
| Music.NoteIndex | src/bitsflow/modmusic.c:177-195 | without a flat the index is that of the letter; a flat moves a letter A..G one note down, A wrapping to G |
| Music.NewOctave | src/bitsflow/modmusic.c:197-205 | with no octave field the last octave is kept; an octave field gives a value below 16, a digit its own value |
| Music.NewDuration | src/bitsflow/modmusic.c:207-225 | with no ':' followed by a byte the last duration is kept; one digit after ':' gives its value, two digits give the two-digit number |
| Music.NoteExamples | src/bitsflow/modmusic.c:160-259 | worked notes: C4, C5 and C3 have periods 3822, 1911 and 7644 us; A keeps octave 4 at period 2273; a note without octave or duration keeps the previous ones; ":8" sets duration 8 and ":16" reads two digits |
| Music.ReadLetter | src/bitsflow/modmusic.c:167-195 | the letter loop finds the note index and accidental and the position after them |
| Music.ReadDuration | src/bitsflow/modmusic.c:208-225 | ':' and one or two digits set the duration; absent digits keep the last one |
| Music.HoldFor | src/bitsflow/modmusic.c:251-259 | the delay computed for a note is Gap of the current tempo and duration |
| Music.NotesOf | src/bitsflow/modmusic.c:318-323 | a single string is a tune of one note; a list is its items |
| Music.EmptyLoopReadsPastEnd | src/bitsflow/modmusic.c:107-119 | as written, play([], loop=True) goes on to read note 0 of an empty list |
| Music.NextStepOf | src/bitsflow/modmusic.c:105-119 | the intended NEXT_NOTE step finishes exactly when the tune is empty or it has ended without looping; otherwise it reads an existing note, from 0 again after the end |
| Music.NextStepAgrees | src/bitsflow/modmusic.c:105-119 | on every tune with a note, the intended step is the written one |
| Music.TempoAsWrittenStoresZero | src/bitsflow/modmusic.c:412-419 | as written, set_tempo(bpm=65536) stores a tempo of 0, which the next note divides by |
| Music.TempoAfter | src/bitsflow/modmusic.c:403-422 | the intended set_tempo ignores arguments that are zero after the uint16_t conversion, so neither value can become 0; all other arguments are stored |
| Music.TempoAfterAgrees | src/bitsflow/modmusic.c:412-419 | the intended set_tempo differs from the written one only on the arguments that would store 0 |
| Music.RouteMusic | src/bitsflow/modmusic.c:329 | the speaker pin raises; None unroutes the audio and never raises; a successful selection of a pin routes the audio to it in music mode |
| Music.MusicData.constructor | src/bitsflow/modmusic.c:425-434 | music starts idle with no tune, bpm 120, ticks 4, octave 4 and duration 4 |
| Music.MusicData.Reset | src/bitsflow/modmusic.c:262-268 | bpm, ticks, octave and duration return to 120, 4, 4 and 4; the playing state is kept |
| Music.MusicData.SetTempo | src/bitsflow/modmusic.c:403-422 | the tempo becomes TempoAfter of the old tempo and the arguments |
| Music.MusicData.StartNote | src/bitsflow/modmusic.c:152-260 | the octave and duration are updated from the note; a note the intended guard plays turns the output on at its period; a rest turns it off; the answer is the delay, at least 10 |
| Music.MusicData.SetOutput | src/bitsflow/modmusic.c:232-252 | with the intended guard (see Findings), a note A to G keeps the output on at its period; a rest turns the output off and keeps the period |
| Music.MusicData.Tick | src/bitsflow/modmusic.c:84-133 | idle, or before the deadline, nothing happens; ARTICULATE turns the output off, waits 10 ms and goes to NEXT_NOTE; NEXT_NOTE finishes to IDLE at the end of a non-looping tune or on a non-string note, and otherwise plays the note, moves the index on and goes to ARTICULATE |
| Music.MusicData.PlayNext | src/bitsflow/modmusic.c:105-133 | the NEXT_NOTE case: the end of the tune goes IDLE (or back to note 0 when looping); a note that is not a string goes IDLE; a string note is played, the index moves on and the state becomes ARTICULATE |
| Music.MusicData.Load | src/bitsflow/modmusic.c:332-344 | the tune is installed with index 0, the deadline now and the state NEXT_NOTE |
| Music.MusicData.Play | src/bitsflow/modmusic.c:299-352 | play resets octave and duration to 4; a non-list raises and leaves the player, the pin table and the audio routing as they were; a failed pin selection leaves music idle; otherwise the tune is loaded as Load says; with a pin the audio is routed to it in the music mode, with None it is unrouted and play never fails, and the speaker pin is refused |
| Music.MusicData.Sound | src/bitsflow/modmusic.c:378-390 | the output goes on; it fails, with "invalid pitch" and music left idle, exactly when the frequency is non-zero and the board refuses the period 1000000 / frequency; otherwise that period is set; a non-negative duration sets the player to switch the output off after it, and a negative one leaves music idle |
| Music.MusicData.Pitch | src/bitsflow/modmusic.c:355-400 | a failed pin selection raises and leaves music idle; otherwise the result is that of Sound, and with a pin the audio is routed to it in the music mode; with None it is unrouted; the speaker pin is refused |
| Music.MusicData.Stop | src/bitsflow/modmusic.c:279-296 | after the pin selection, music is idle with the output off, and with a pin the audio is routed to it in the music mode; with None the audio is unrouted and stop never fails; the speaker pin is refused; a failed selection changes neither state nor output |
| Music.MusicData.IsPlaying | src/bitsflow/modmusic.c:79-81 | music is playing exactly when its state is not IDLE |
| Music.MusicData.GetTempo | src/bitsflow/modmusic.c:271-276 | get_tempo answers (bpm, ticks), and both are positive in every reachable state |
| Gestures.GestureNamesDistinct | src/bitsflow/bitsflow_accelerometer.c:43-57 | the thirteen gesture names are distinct |
| Gestures.GestureFromName | src/bitsflow/bitsflow_accelerometer.c:59-67 | the search answers the index of the name in the table, and raises "invalid gesture" exactly when the name is not in the table |
| Gestures.NibbleAt | src/bitsflow/bitsflow_accelerometer.c:171-174 | a stored gesture is a 4-bit value |
| Gestures.Unpack | src/bitsflow/bitsflow_accelerometer.c:165-178 | entry i of the list is the low nibble of byte i / 2 for even i and the high nibble for odd i |
| Gestures.StoreNibbleReadsBack | src/bitsflow/bitsflow_accelerometer.c:80-88 | storing a gesture in a half byte reads back as that gesture and keeps the other half |
| Gestures.Recorder.constructor | src/bitsflow/bitsflow_accelerometer.c:39-41 | no gesture has been seen and none is recorded |
| Gestures.Recorder.Callback | src/bitsflow/bitsflow_accelerometer.c:77-91 | a value outside 1..12 is ignored; an event sets its bit of the mask and is appended to the recorded list while fewer than sixteen are held; later ones are dropped |
| Gestures.Recorder.WasGesture | src/bitsflow/bitsflow_accelerometer.c:154-162 | the answer is the gesture's bit; that bit alone is cleared, and the recorded list is emptied |
| Gestures.Recorder.GetGestures | src/bitsflow/bitsflow_accelerometer.c:165-178 | the answer is the name of every recorded gesture, in the order recorded, and the list is then empty |
| Gestures.ClearKeepsOthers | src/bitsflow/bitsflow_accelerometer.c:159 | clearing a gesture's bit clears it and keeps every other gesture's bit |
| Gestures.SetKeepsOthers | src/bitsflow/bitsflow_accelerometer.c:79 | setting a gesture's bit sets it and keeps every other gesture's bit |
| SoftTimers.Centred | src/bitsflow/drv_softtimer.c:30-31 | x brought into [-2^30, 2^30) modulo 2^31 |
| SoftTimers.CentredPeriodic | src/bitsflow/drv_softtimer.c:30-31 | centring does not change when a multiple of 2^31 is added |
| SoftTimers.CentredSmall | src/bitsflow/drv_softtimer.c:30-31 | a value already in [-2^30, 2^30) is centred to itself |
| SoftTimers.WrapKeepsHalfRemainder | src/bitsflow/drv_softtimer.c:31 | wrapping to 32 bits keeps the remainder modulo 2^31 |
| SoftTimers.SignedOfWrap | src/bitsflow/drv_softtimer.c:31 | reading a wrapped word as signed gives back any value in the int32_t range |
| SoftTimers.TicksDiff | src/bitsflow/drv_softtimer.c:30-31 | TICKS_DIFF always lies in [-2^30, 2^30) |
| SoftTimers.TicksDiffIsCentred | src/bitsflow/drv_softtimer.c:30-31 | TICKS_DIFF(t1, t0) is t1 - t0 centred modulo 2^31 |
| SoftTimers.TicksDiffSelf | src/bitsflow/drv_softtimer.c:31 | TICKS_DIFF(t, t) is 0 |
| SoftTimers.TicksDiffAfterAdding | src/bitsflow/drv_softtimer.c:31 | TICKS_DIFF((t0 + d) mod 2^32, t0) = d for every d in [-2^30, 2^30) |
| SoftTimers.TicksDiffAdd | src/bitsflow/drv_softtimer.c:31 | moving a time on by d moves its difference to any other time by d, centred modulo 2^31 |
| SoftTimers.TicksDiffShift | src/bitsflow/drv_softtimer.c:31 | moving an expiry later by delta adds exactly delta to its difference to now, as long as the sum stays below 2^30 |
| SoftTimers.EarlierFacts | src/bitsflow/drv_softtimer.c:35-39 | the heap order is irreflexive, but two expiries exactly 2^30 apart are each earlier than the other, so it is not a total order on all times |
| SoftTimers.TimerEntry.constructor | src/bitsflow/drv_softtimer.c:74-80 | an entry has the period, mode and callback kind asked for |
| SoftTimers.TimerEntry.MoveOn | src/bitsflow/drv_softtimer.c:59-62 | the expiry moves on by the period in 32 bits; the answer is whether the entry is stuck, and then it is still due and stuck; otherwise it owes the handler loop less |
| SoftTimers.AdvancedShift | src/bitsflow/drv_softtimer.c:59-62 | moving an expiry on by one period and then by n more is moving it on by n + 1 |
| SoftTimers.AdvanceDiff | src/bitsflow/drv_softtimer.c:59-62 | after one period the difference to now is the old difference plus the period modulo 2^31, centred |
| SoftTimers.AdvanceOwesLess | src/bitsflow/drv_softtimer.c:49-62 | a due periodic entry that is not stuck owes the loop less after one period, whatever its period: below 2^30 modulo 2^31 it gets less late, above 2^30 it either stops being due or stays within 2^30 of now |
| SoftTimers.StuckStaysDue | src/bitsflow/drv_softtimer.c:49-62 | a stuck entry (period 0 modulo 2^31, or 2^30 while exactly 0 or 2^30 late) is due and stuck again after one period |
| SoftTimers.StuckForever | src/bitsflow/drv_softtimer.c:49-62 | a stuck entry is still due after any number of periods, so the loop never works it off; whether the loop ends depends on the entries behind it (HalfPeriodOnTime, HalfPeriodLate) |
| SoftTimers.WorkedOff | src/bitsflow/drv_softtimer.c:49-62 | a periodic entry that is not stuck stops being due within as many periods as it owes, so the loop ends on it |
| SoftTimers.TotalOwedSplit | src/bitsflow/drv_softtimer.c:49-63 | what two queues owe the loop together is the sum of what each owes |
| SoftTimers.InsertOwed | src/bitsflow/drv_softtimer.c:59-62 | queueing an entry at any position adds what it owes to the total |
| SoftTimers.PushPos | src/bitsflow/drv_softtimer.c:35-39 | an entry expiring at x is pushed after every queued entry it does not come before, and in front of the first one it comes before |
| SoftTimers.PushPosIs | src/bitsflow/drv_softtimer.c:35-39 | that position is the only one with those two properties |
| SoftTimers.PushedSlots | src/bitsflow/drv_softtimer.c:61 | inserting an entry at such a position pushes its slot onto the queue as values |
| SoftTimers.Turned | src/bitsflow/drv_softtimer.c:49-62 | one turn pops the head and, when it is periodic, pushes it back one period later; the queue never gets longer, and what it becomes depends on the queue alone |
| SoftTimers.TurnOwes | src/bitsflow/drv_softtimer.c:49-62 | a turn never raises what the queue owes the loop, and lowers it unless the head is a stuck periodic entry |
| SoftTimers.RepeatedQueueNeverEnds | src/bitsflow/drv_softtimer.c:49-63 | once a run of the loop comes back to a queue it has been at, the head is due after any number of further turns, so the loop never ends |
| SoftTimers.StuckAloneNeverEnds | src/bitsflow/drv_softtimer.c:49-63 | a stuck periodic entry alone in the queue is the due head after any number of turns, so the loop never ends |
| SoftTimers.HalfPeriodOnTime | src/bitsflow/drv_softtimer.c:49-62 | an entry with period 2^30 popped on time is stuck, yet it goes back behind a waiting entry that is not due, and the loop ends |
| SoftTimers.HalfPeriodLate | src/bitsflow/drv_softtimer.c:49-62 | the same entry popped exactly 2^30 late comes before the waiting entry once more; it is popped twice, and then the loop ends |
| SoftTimers.TraceExtends | src/bitsflow/drv_softtimer.c:49-62 | one more turn keeps the run's account: the popped entry was the head, the queue before the turn is among those met, and what the queue owes has not risen |
| SoftTimers.RepeatIsStuck | src/bitsflow/drv_softtimer.c:49-62 | a turn that brings the loop back to a queue already met popped a stuck periodic entry |
| SoftTimers.SoftTimer.constructor | src/bitsflow/drv_softtimer.c:33 | nothing queued, not paused |
| SoftTimers.SoftTimer.Deinit | src/bitsflow/drv_softtimer.c:41-44 | the queue is emptied and the timer unpaused |
| SoftTimers.SoftTimer.Push | src/bitsflow/drv_softtimer.c:35-79 | the entry goes in after every entry it does not come before and in front of the first one it comes before; nothing else changes; as values, the queue is the old one with the entry's slot pushed (Pushed) |
| SoftTimers.SoftTimer.Insert | src/bitsflow/drv_softtimer.c:74-80 | the expiry is now + initial_delta in 32 bits; its difference to now is initial_delta centred modulo 2^31, so it is initial_delta below 2^30 and negative (due at once) from 2^30 up to 2^31; the entry is queued once |
| SoftTimers.SoftTimer.PopDue | src/bitsflow/drv_softtimer.c:49-62 | one turn of the loop pops the due head, and the queue as values becomes Turned of the old one; a one-shot entry leaves the queue with its expiry kept; a periodic one goes back in with expiry + period; the turn is stuck exactly when the entry is periodic and stuck |
| SoftTimers.SoftTimer.Drop | src/bitsflow/drv_softtimer.c:50-51 | the head leaves the queue, and the queue as values loses its first slot |
| SoftTimers.SoftTimer.Requeue | src/bitsflow/drv_softtimer.c:59-62 | a popped periodic entry is queued again with expiry + period, its slot moved on and pushed; the answer is whether it is stuck, and then it is still due |
| SoftTimers.SoftTimer.HandlerRun | src/bitsflow/drv_softtimer.c:46-65 | the loop pops due heads, each the head of the queue it was popped from, and goes through the queues of trace; it ends with the head not due, or answers hung exactly when the queue has come back to one it went through, on which the source loops for ever (RepeatedQueueNeverEnds), and the entry popped last is then queued, due and stuck; an entry not due at the start is neither popped nor moved; a periodic entry stays queued, moved on by one period per pop; a one-shot entry is popped at most once, leaves exactly when popped, and keeps its expiry; the popped entries fire exactly when callbacks run |
| SoftTimers.SoftTimer.WorkOff | src/bitsflow/drv_softtimer.c:49-63 | the while loop keeps the account of what it has popped and of the queues it went through, and ends with the head not due, or hung when the queue repeats one already met |
| SoftTimers.SoftTimer.Step | src/bitsflow/drv_softtimer.c:49-62 | one turn with its account: the queue before it joins those met, so fewer queues remain to meet; repeat says the queue after it was met already, and then the entry popped was stuck |
| SoftTimers.SoftTimer.Turn | src/bitsflow/drv_softtimer.c:49-62 | one turn adds the head to the popped entries, keeps the account, and turns the queue as values into Turned of it; it is stuck exactly when the head was a stuck periodic entry |
| SoftTimers.SoftTimer.Handler | src/bitsflow/drv_softtimer.c:68-72 | while paused nothing changes and nothing fires; otherwise the handler runs with callbacks, and every entry it pops fires: the run goes through the queues of trace (Ran) and keeps HandlerRun's account of every entry (Accounted: not due untouched, periodic moved on by one period per pop, one-shot popped at most once); unless hung the head is not due afterwards; when hung the entry fired last is queued and stuck |
| SoftTimers.SoftTimer.SetPause | src/bitsflow/drv_softtimer.c:82-88 | the flag becomes pause; leaving the paused state runs the handler with callbacks optional, and the popped entries fire exactly when callbacks run: the run goes through the queues of trace (Ran) and keeps HandlerRun's account of every entry (Accounted); unless hung the head is not due; when hung the entry popped last is queued and stuck; any other change pops, moves and fires nothing |
| SoftTimers.SoftTimer.MsToNextExpiry | src/bitsflow/drv_softtimer.c:90-100 | UINT32_MAX with nothing queued, 0 when the head is due, and otherwise the positive time to the head's expiry, below 2^30 |
| Bitsflow.Volume | src/bitsflow/modbitsflow.c:77-86 | the int32_t volume is clamped to [0, 255], with values in range passed unchanged |
| Bitsflow.VolumeIdempotentMonotone | src/bitsflow/modbitsflow.c:77-86 | clamping twice is clamping once, and the clamp keeps the order of volumes |
| Bitsflow.TruncateTowardZero | src/bitsflow/modbitsflow.c:46-48 | a float argument is cut towards zero, as a C cast does |
| Bitsflow.Sleep | src/bitsflow/modbitsflow.c:42-53 | sleep delays exactly when the millisecond count is positive, and then by that count |
| Bitsflow.SleepTruncates | src/bitsflow/modbitsflow.c:46-51 | a float below 1 ms, and every negative float, does not delay; 1.9 delays 1 ms |
| Bitsflow.RunEveryPeriod | src/bitsflow/modbitsflow.c:112-116 | the period is days * 86400000 + h * 3600000 + min * 60000 + s * 1000 + ms, modulo 2^32 |
| Bitsflow.RunEveryPeriodExact | src/bitsflow/modbitsflow.c:112-116 | a total that fits in 32 bits is the exact period |
| Bitsflow.RunEveryPeriodExamples | src/bitsflow/modbitsflow.c:112-116 | one hour is 3600000 ms; fifty days wrap past 2^32; no argument gives the period 0 |
| Bitsflow.NoArgumentPeriodStuck | src/bitsflow/modbitsflow.c:98-127 | as written, run_every with no time argument queues period 0, and once due the entry is due again after any number of periods, so the handler never works it off; when it is the only entry queued, the handler loop never ends |
| Bitsflow.LongPeriodDueAtOnce | src/bitsflow/modbitsflow.c:112-116 | as written, a 13-day period (1123200000 ms, above 2^30) gives an expiry whose difference to now is negative, so the entry fires at once |
| Bitsflow.CheckedPeriod | src/bitsflow/modbitsflow.c:112-116 | the corrected period is accepted exactly when the sum of its parts lies in (0, 2^30), and is then that sum |
| Bitsflow.CheckedPeriodIsKept | src/bitsflow/modbitsflow.c:112-127 | an accepted period queued at now is not due now, its difference to now is exactly the period, and it is never stuck |
| Bitsflow.RunEvery.constructor | src/bitsflow/modbitsflow.c:281-289 | a periodic entry with a Python callback and the period as its delta, not yet queued, with no user callback |
| Bitsflow.RunEvery.Call | src/bitsflow/modbitsflow.c:266-273 | the callback is installed and the entry queued one period after now |
| Bitsflow.RunEvery.Callback | src/bitsflow/modbitsflow.c:234-263 | nothing happens without a user callback; a callback that raises makes the entry one-shot and drops the callback |
| Bitsflow.RunEveryStart | src/bitsflow/modbitsflow.c:98-127 | with the corrected check: a period outside (0, 2^30) is refused and nothing is queued; otherwise the new object is periodic with that period and the caller's callback; with no callback nothing is queued; with one, exactly its entry is added |
| Conversions.ThresholdName | src/board/conversions.ts:19-30 | 0 is "low", 1 is "high", and any other number throws |
| Conversions.ThresholdNamesDistinct | src/board/conversions.ts:19-30 | the two threshold kinds have different names |
| Conversions.AccelNameIsTable | src/board/conversions.ts:65-96 | a number converts exactly when it is one of the thirteen gesture numbers, to that gesture's name; any other number throws |
| Conversions.AccelNumberIsTable | src/board/conversions.ts:32-63 | a string converts exactly when it is one of the thirteen names, to that name's number; any other string throws |
| Conversions.AccelNumber | src/board/conversions.ts:32-63 | a converted name gives a gesture number in 0..12; a refused one throws with that string |
| Conversions.AccelName | src/board/conversions.ts:65-96 | a number converts exactly when it lies in 0..12; a refused one throws with that number |
| Conversions.NumberNameRoundTrip | src/board/conversions.ts:32-96 | converting a number to its name and back gives the number |
| Conversions.NameNumberRoundTrip | src/board/conversions.ts:32-96 | converting a name to its number and back gives the name |
| Conversions.AccelNamesDistinct | src/board/conversions.ts:32-63 | the names are distinct, so the string switch is one-to-one |
| Conversions.AccelNamesMatchFirmware | src/board/conversions.ts:65-96 | the board names every gesture as the firmware's name table does, except EVT_NONE: "none" on the board, "" in the firmware |

## Left out

- The display driver (`bitsflow_display_animate`, `_show`, `_stop`), the font provider and the `drv_image` primitives are not part of this model. `show` and `scroll` answer the driver calls they make. The font is a map from characters to 5-row glyphs that always holds '?'. `image_blit` has the assumed clipped-copy contract of `Pictures.BlitPic`.
- The display constants come from `drv_display.h`, which is not part of this model. They are taken as 5 x 5 pixels and brightness 0 to 9.
- The storage width of `drv_image` pixels is unknown, so pixel values are unbounded integers. This is why the parser's -15 for '!' is kept as it is.
- The HAL calls are not modelled: the board's LED, pin, audio, music-output, accelerometer and clock calls, and the blocking waits `mp_hal_delay_ms` and `wait_async_music_idle`. The current time is a parameter, and the same "now" is used throughout one tick.
- Whether audio or music is playing is a parameter, because it is HAL state.
- `bitsflow_pin_get_analog_period_microseconds`, `set_pull`'s HAL call and `read_light_level` only pass values to or from the HAL.
- The accelerometer readers that only wrap the HAL are left out: `current_gesture`, `is_gesture`, `get_x`/`get_y`/`get_z`/`get_values`, `get_strength` (which uses `sqrtf`), `set_range` and `update_for_gesture`.
- `bitsflow.reset`, `panic`, `temperature`, `running_time` and `ws2812_write` only call into the HAL.
- Floating point is left out: `bitsflow_image_dim`, the `*` and `/` cases of `image_binary_op`, `bitsflow_scale`, the float path of `write_analog` (value + 0.5) and `convertAudioBuffer`.
- Bitsflow.Sleep: the float-to-integer cast is modelled only as truncation towards zero. A float beyond the `int32_t` range has no defined C result and is not modelled.
- The `Image` methods `copy`, `invert`, `width` and `height` are thin calls into `drv_image`. Copy is stated as `Pictures.CopyByCropOrShift`.
- The `mp_pairheap` is not part of this model. The queue is a sequence: an entry is pushed in front of the first queued entry it comes before (ties go after), and the head is popped. It is not proved that the head is the earliest queued entry; the heap order is not total (`SoftTimers.EarlierFacts`), and the pairing heap's restructuring is not modelled.
- Interrupts, `mp_sched_schedule`, atomic sections and the MicroPython object and argument plumbing are not modelled. Callbacks are ordinary sequential calls. A fired timer entry is answered to the caller instead of being run.
- The printout of a `run_every` callback's exception, and its `SystemExit` case, are left out. Only their effect on the timer entry is modelled.
- The text of the TypeError for a non-string note is not modelled; Tick simply goes to IDLE.
- The constants module that `conversions.ts` imports is not part of this model. The gesture numbers are taken from the EVT values of `bitsflowhal.h` (0 to 12), and the threshold kinds from its SET_THRESHOLD values (0 and 1).
- The Python-level negative indexing of `mp_get_index` is modelled by `Facades.NormalIndex`.
- Music.MusicData.Play: requires a tune of fewer than 65536 notes, because `async_notes_len` is a `uint16_t` and longer lists would wrap.
- SoftTimers.SoftTimer.HandlerRun: the model remembers every queue the loop has been at, which the source does not. When the queue comes back to one of them, the source repeats the same turns for ever (`SoftTimers.RepeatedQueueNeverEnds`); the model stops there and answers hung. Only a popped stuck entry can bring the queue back: its period is 0 modulo 2^31, or 2^30 while it is exactly 0 or 2^30 late (`SoftTimers.RepeatIsStuck`). A stuck entry does not always hang the loop (`SoftTimers.HalfPeriodOnTime`, `SoftTimers.HalfPeriodLate`), but one queued alone always does (`SoftTimers.StuckAloneNeverEnds`).
- SoftTimers.SoftTimer.HandlerRun: when it is not hung it states "not due" only of the head of the queue, not of every entry.
- Bitsflow.RunEveryStart: follows the corrected period check `Bitsflow.CheckedPeriod` (see Findings); the ValueError it raises has no counterpart in the source.
- Displays.Show: text is taken to be ASCII, one character per byte. `mp_obj_str_get_data` gives UTF-8 bytes, so for non-ASCII text the source's one-character test and its facade count bytes where the model counts characters. Non-ASCII UTF-8 is not modelled.
- Displays.ShowDecisions: the "one-character string" is one character of ASCII text, which is one byte; non-ASCII UTF-8 is not modelled, as for Show.
- Displays.Scroll: the scrolled text is taken to be ASCII, one character per byte; a bytes object scrolls its bytes as characters (`Displays.ByteText`). Non-ASCII UTF-8 str text is not modelled.
- Images.MakeNew: a string argument is taken to be ASCII, one character per byte; the source counts and parses UTF-8 bytes as (signed) chars, which is not modelled.
- Images.MakeNew: `greyscale_new` is not part of this model. Image(w, h) with a negative size is assumed to be refused (`UnsupportedSize`); the source calls `greyscale_new(w, h)` with no check, and the three-argument form calls it before its own size check. The model also takes w * h as an unbounded product, where the source compares the `mp_int_t` product cast to `size_t`, which can wrap.
- Facades.StringFacade.Len: the text is taken to be ASCII. For non-ASCII text `mp_obj_len` counts characters while subscr and the facade iterator index UTF-8 bytes, so the two differ; that is not modelled.
- Scrolling.ScrollingIterator.Next: the scrolled text is taken to be ASCII, one character per byte, as for Scroll.
- Facades.FacadeIterator.Next: the text is taken to be ASCII, one character per byte.
- SoftTimers.SoftTimer.Insert: requires the entry not to be queued already, because an entry queued twice would corrupt the pairing heap.
- Bitsflow.RunEvery.Call: requires the entry not to be queued already, for the same reason.
- Bitsflow.RunEveryPeriod: the `mp_int_t` sum is modelled modulo 2^32, as it is stored into the `uint32_t` delta. The wider intermediate width does not change the stored result.

## Findings

| source | as written | input that shows it | evidently intended | confidence | as-written member | corrected member |
|---|---|---|---|---|---|---|
| src/bitsflow/modmusic.c:232 | the note guard is `note_index < 10`, but the period tables have 7 entries | the note "h" (index 7), or 'i' or 'j', indexes past the end of `periods_us` | only the letters A to G (indices 0 to 6) play; every other index is a rest | not executed | Music.GuardAsWrittenReadsPastTable | Music.MusicData.StartNote |
| src/bitsflow/modmusic.c:412-419 | `set_tempo` compares the argument with zero before truncating it to `uint16_t` | `set_tempo(bpm=65536)` stores bpm 0, and the next `start_note` divides by it at line 170 | an argument that truncates to 0 is ignored like a zero one | not executed | Music.TempoAsWrittenStoresZero | Music.TempoAfter |
| src/bitsflow/modmusic.c:107-119 | at the end of a looping tune, NEXT_NOTE resets the index to 0 and reads note 0 without checking the tune's length | `music.play([], loop=True)` reads item 0 of an empty list | an empty tune finishes even when it loops | not executed | Music.EmptyLoopReadsPastEnd | Music.NextStepOf |
| src/bitsflow/modbitsflow.c:98-127 | with no time argument the period is 0, and a periodic entry with period 0 stays due after every requeue | `bitsflow.run_every(f)` (no days, h, min, s or ms) queues period 0; once it is due it is due again after every requeue, and when it is the only entry queued the handler loop never ends | a period of 0 is refused | not executed | Bitsflow.NoArgumentPeriodStuck | Bitsflow.CheckedPeriod |
| src/bitsflow/modbitsflow.c:112-116 | any period is stored, but tick differences are taken modulo 2^31 and centred | `bitsflow.run_every(f, days=13)` (1123200000 ms, at least 2^30) is due as soon as it is queued and fires at the next tick | a period of 2^30 ms or more is refused | not executed | Bitsflow.LongPeriodDueAtOnce | Bitsflow.CheckedPeriod |
