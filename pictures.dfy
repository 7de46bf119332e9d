// Greyscale images as values (bitsflow_image.c): the image description
// language and its parser specification, the Image('...') serialiser, the
// glyph image of a character, the clipped copy (image_blit) and the pure
// operations built on it (crop, shift, saturating sum).

module Pictures {
  import opened Wrappers
  import Screen
  import Font

  /** A w x h greyscale image; rows[y][x] is the pixel in column x of row y. */
  datatype Pic = Pic(w: nat, h: nat, rows: seq<seq<int>>)

  predicate WellFormed(p: Pic) {
    |p.rows| == p.h && forall y :: 0 <= y < p.h ==> |p.rows[y]| == p.w
  }

  type Image = p: Pic | WellFormed(p) witness Pic(0, 0, [])

  /** The Python exceptions raised by the image operations. */
  datatype ImageError =
    | UnexpectedCharacter     // ValueError "unexpected character in Image definition"
    | TakesAString            // TypeError "Image(s) takes a string"
    | DataIncorrectSize       // ValueError "image data is incorrect size"
    | UnsupportedSize         // greyscale_new of a negative size, not part of this model
    | IndexNegative           // ValueError "index cannot be negative"
    | IndexTooLarge           // ValueError "index too large"
    | BrightnessOutOfBounds   // ValueError "brightness out of bounds"
    | CannotModify            // TypeError "image cannot be modified (try copying first)"
    | BothOffsets             // TypeError "must specify both offsets"
    | SizeNegative            // ValueError "size cannot be negative"
    | NotSameSize             // ValueError "images must be the same size"

  function At(p: Image, x: int, y: int): int
    requires 0 <= x < p.w && 0 <= y < p.h
  {
    p.rows[y][x]
  }

  /** The pixel at (x, y), or 0 outside the image. */
  function PixelOr0(p: Image, x: int, y: int): int {
    if 0 <= x < p.w && 0 <= y < p.h then At(p, x, y) else 0
  }

  /** Every pixel of the rows is a brightness 0..MAX. */
  predicate Bright(rows: seq<seq<int>>) {
    forall y, x :: 0 <= y < |rows| && 0 <= x < |rows[y]| ==> 0 <= rows[y][x] <= Screen.MAX
  }

  predicate InRange(p: Image) {
    Bright(p.rows)
  }

  /** The w x h image whose pixel (x, y) is f(x, y). */
  function Tabulate(w: nat, h: nat, f: (int, int) -> int): (r: Image)
    ensures r.w == w && r.h == h
    ensures forall x, y :: 0 <= x < w && 0 <= y < h ==> At(r, x, y) == f(x, y)
  {
    Pic(w, h, seq(h, y => seq(w, x => f(x, y))))
  }

  /** Two images of the same size with the same pixels are the same value. */
  lemma Extensionality(p: Image, q: Image)
    requires p.w == q.w && p.h == q.h
    requires forall x, y :: 0 <= x < p.w && 0 <= y < p.h ==> At(p, x, y) == At(q, x, y)
    ensures p == q
  {
    forall y | 0 <= y < p.h
      ensures p.rows[y] == q.rows[y]
    {
      assert forall x :: 0 <= x < p.w ==> p.rows[y][x] == At(p, x, y);
    }
  }

  function Blank(w: nat, h: nat): (r: Image)
    ensures r.w == w && r.h == h
    ensures forall x, y :: 0 <= x < w && 0 <= y < h ==> At(r, x, y) == 0
  {
    Tabulate(w, h, (x, y) => 0)
  }

  // ---------------------------------------------------------------------
  // Pixel accessors

  /** get_pixel: negative coordinates and coordinates past the edge raise. */
  function GetPixel(p: Image, x: int, y: int): (r: Result<int, ImageError>)
    ensures (x < 0 || y < 0) ==> r == Err(IndexNegative)
    ensures (0 <= x && 0 <= y && (x >= p.w || y >= p.h)) ==> r == Err(IndexTooLarge)
    ensures r.Ok? <==> 0 <= x < p.w && 0 <= y < p.h
    ensures r.Ok? ==> r.value == At(p, x, y)
  {
    if x < 0 || y < 0 then Err(IndexNegative)
    else if x < p.w && y < p.h then Ok(At(p, x, y))
    else Err(IndexTooLarge)
  }

  /** The image with pixel (x, y) replaced by v. */
  function Update(p: Image, x: int, y: int, v: int): (r: Image)
    requires 0 <= x < p.w && 0 <= y < p.h
    ensures r.w == p.w && r.h == p.h
    ensures At(r, x, y) == v
    ensures forall i, j :: 0 <= i < p.w && 0 <= j < p.h && (i != x || j != y) ==> At(r, i, j) == At(p, i, j)
  {
    Pic(p.w, p.h, p.rows[y := p.rows[y][x := v]])
  }

  /** set_pixel's checks, in the source's order: mutability, negative index,
    * brightness, index too large. */
  function SetPixelCheck(readOnly: bool, p: Image, x: int, y: int, v: int): (r: Outcome<ImageError>)
    ensures readOnly ==> r == Fail(CannotModify)
    ensures !readOnly && (x < 0 || y < 0) ==> r == Fail(IndexNegative)
    ensures !readOnly && 0 <= x && 0 <= y && !(0 <= v <= Screen.MAX) ==> r == Fail(BrightnessOutOfBounds)
    ensures r.Pass? <==> !readOnly && 0 <= x < p.w && 0 <= y < p.h && 0 <= v <= Screen.MAX
  {
    if readOnly then Fail(CannotModify)
    else if x < 0 || y < 0 then Fail(IndexNegative)
    else if v < 0 || v > Screen.MAX then Fail(BrightnessOutOfBounds)
    else if x < p.w && y < p.h then Pass
    else Fail(IndexTooLarge)
  }

  /** A successful set_pixel is observed by the next get_pixel, and no other
    * pixel changes. */
  lemma SetThenGet(p: Image, x: int, y: int, v: int, i: int, j: int)
    requires SetPixelCheck(false, p, x, y, v).Pass?
    ensures GetPixel(Update(p, x, y, v), x, y) == Ok(v)
    ensures (i != x || j != y) ==> GetPixel(Update(p, x, y, v), i, j) == GetPixel(p, i, j)
  {
  }

  // ---------------------------------------------------------------------
  // The image description language (image_from_parsed_str)

  predicate Separator(c: char) {
    c == '\n' || c == ':'
  }

  /** The characters the parser lets through. The digit check of the code reads
    * ('c' >= '0' && c <= '9'), whose first half compares two constants, so
    * every character up to '9' is accepted, not only the digits. */
  predicate Accepted(c: char) {
    Separator(c) || c == ' ' || c <= '9'
  }

  /** The pixel a cell character stands for: 0 for a space, c - '0' otherwise
    * (negative for the characters below '0'). */
  function CellValue(c: char): int {
    if c == ' ' then 0 else c as int - '0' as int
  }

  /** One more character of text: a separator opens a new, empty line; any
    * other character extends the last line. */
  function Push(lines: seq<string>, c: char): (r: seq<string>)
    requires |lines| >= 1
    ensures |r| >= 1
  {
    if Separator(c) then lines + [[]] else lines[..|lines| - 1] + [lines[|lines| - 1] + [c]]
  }

  /** The text split at every separator; the last line is what follows the
    * last separator and may be empty. */
  function Lines(s: string): (r: seq<string>)
    ensures |r| >= 1
  {
    if |s| == 0 then [[]] else Push(Lines(s[..|s| - 1]), s[|s| - 1])
  }

  /** The image rows: every line, except an empty last line. */
  function Rows(s: string): (r: seq<string>)
  {
    var l := Lines(s);
    if l[|l| - 1] == [] then l[..|l| - 1] else l
  }

  function MaxLen(l: seq<string>): (m: nat)
    ensures forall k :: 0 <= k < |l| ==> |l[k]| <= m
    ensures |l| == 0 ==> m == 0
    ensures |l| > 0 ==> exists k :: 0 <= k < |l| && |l[k]| == m
  {
    if |l| == 0 then 0
    else
      var m := MaxLen(l[..|l| - 1]);
      if |l[|l| - 1]| > m then |l[|l| - 1]| else m
  }

  function Height(s: string): nat {
    |Rows(s)|
  }

  function Width(s: string): nat {
    MaxLen(Rows(s))
  }

  /** Pixel (x, y) of a parsed description: the cell's value, or 0 past the
    * end of a short row. */
  function ParsedPixel(s: string, x: int, y: int): int {
    var rows := Rows(s);
    if 0 <= y < |rows| && 0 <= x < |rows[y]| then CellValue(rows[y][x]) else 0
  }

  predicate AllAccepted(s: string) {
    forall i :: 0 <= i < |s| ==> Accepted(s[i])
  }

  /** What Image(s) makes of a description string. */
  function ParsePic(s: string): (r: Result<Image, ImageError>)
    ensures r.Err? <==> exists i :: 0 <= i < |s| && !Accepted(s[i])
    ensures r.Err? ==> r.error == UnexpectedCharacter
    ensures r.Ok? ==> r.value.w == Width(s) && r.value.h == Height(s)
  {
    if AllAccepted(s) then Ok(Tabulate(Width(s), Height(s), (x, y) => ParsedPixel(s, x, y)))
    else Err(UnexpectedCharacter)
  }

  function CountSeparators(s: string): nat {
    if |s| == 0 then 0
    else CountSeparators(s[..|s| - 1]) + (if Separator(s[|s| - 1]) then 1 else 0)
  }

  lemma {:induction false} LinesCount(s: string)
    ensures |Lines(s)| == CountSeparators(s) + 1
    ensures Lines(s)[|Lines(s)| - 1] == [] <==> |s| == 0 || Separator(s[|s| - 1])
  {
    if |s| > 0 {
      LinesCount(s[..|s| - 1]);
    }
  }

  /** The height is the number of separators, plus one for a non-empty
    * unterminated last row. */
  lemma ParsedHeight(s: string)
    ensures Height(s) == CountSeparators(s) + (if |s| > 0 && !Separator(s[|s| - 1]) then 1 else 0)
  {
    LinesCount(s);
  }

  /** The width is the length of the longest row; shorter rows are padded
    * with 0. */
  lemma ParsedWidth(s: string, x: int, y: int)
    requires ParsePic(s).Ok?
    requires 0 <= y < Height(s) && 0 <= x < Width(s) && x >= |Rows(s)[y]|
    ensures At(ParsePic(s).value, x, y) == 0
    ensures forall k :: 0 <= k < Height(s) ==> |Rows(s)[k]| <= Width(s)
    ensures Height(s) > 0 ==> exists k :: 0 <= k < Height(s) && |Rows(s)[k]| == Width(s)
  {
  }

  lemma LinesExample()
    ensures Lines("9:0") == ["9", "0"]
  {
    LinesOfPlain("9");
    LinesSnoc("9", ':');
    assert "9" + [':'] == "9:";
    LinesOfPlain("0");
    LinesAppend("9:", "0");
    assert "9:" + "0" == "9:0";
  }

  /** Image('9:0') is one pixel wide and two high. */
  lemma ParseExample()
    ensures ParsePic("9:0").Ok? && ParsePic("9:0").value == Pic(1, 2, [[9], [0]])
  {
    RowsExample();
    ParseByPixels("9:0", Pic(1, 2, [[9], [0]]));
  }

  lemma RowsExample()
    ensures Rows("9:0") == ["9", "0"] && Width("9:0") == 1 && Height("9:0") == 2
    ensures AllAccepted("9:0") && ParsedPixel("9:0", 0, 0) == 9 && ParsedPixel("9:0", 0, 1) == 0
  {
    LinesExample();
    assert MaxLen(["9", "0"]) == 1;
  }

  /** Characters below '0' are taken as cells: '!' gives the pixel value -15. */
  lemma ParseBelowDigits()
    ensures ParsePic("!").Ok? && ParsePic("!").value == Pic(1, 1, [[-15]])
  {
    LinesOfPlain("!");
    assert Rows("!") == ["!"];
    assert MaxLen(["!"]) == 1;
    ParseByPixels("!", Pic(1, 1, [[-15]]));
  }

  /** A description whose characters are all accepted parses to the image
    * of its size whose pixels it describes. */
  lemma ParseByPixels(s: string, p: Image)
    requires AllAccepted(s) && p.w == Width(s) && p.h == Height(s)
    requires forall x, y :: 0 <= x < p.w && 0 <= y < p.h ==> At(p, x, y) == ParsedPixel(s, x, y)
    ensures ParsePic(s) == Ok(p)
  {
    Extensionality(ParsePic(s).value, p);
  }

  /** A letter is refused. */
  lemma ParseRefusesLetter()
    ensures ParsePic("a") == Err(UnexpectedCharacter)
  {
    assert !Accepted("a"[0]);
  }

  // ---------------------------------------------------------------------
  // The serialiser (bitsflow_image_print)

  const DigitChars: string := "0123456789"

  function Digits(row: seq<int>): (t: string)
    requires forall i :: 0 <= i < |row| ==> 0 <= row[i] <= Screen.MAX
    ensures |t| == |row|
  {
    seq(|row|, i requires 0 <= i < |row| => DigitChars[row[i]])
  }

  /** The rows in print order, each as its digits and a ':', with sep between
    * consecutive rows. */
  function Body(rows: seq<seq<int>>, sep: string): (t: string)
    requires Bright(rows)
  {
    if |rows| == 0 then []
    else if |rows| == 1 then Digits(rows[0]) + ":"
    else Body(rows[..|rows| - 1], sep) + sep + Digits(rows[|rows| - 1]) + ":"
  }

  /** repr / str of an image. The pixels index a ten-character table, so
    * they must lie in 0..MAX. */
  function Serialise(p: Image, str: bool): (t: string)
    requires InRange(p)
    ensures |t| >= 9 && t[..6] == "Image(" && t[|t| - 1] == ')'
    ensures !str ==> t[6] == '\'' && t[|t| - 2] == '\''
  {
    if str then "Image(\n    '" + Body(p.rows, "'\n    '") + "'\n)"
    else "Image('" + Body(p.rows, "") + "')"
  }

  lemma {:induction false} BodyLength(rows: seq<seq<int>>, sep: string, w: nat)
    requires Bright(rows)
    requires forall y :: 0 <= y < |rows| ==> |rows[y]| == w
    ensures |Body(rows, sep)| == |rows| * (w + 1) + (if |rows| == 0 then 0 else (|rows| - 1) * |sep|)
  {
    var n := |rows|;
    if n == 1 {
      assert |Body(rows, sep)| == |Digits(rows[0])| + 1;
    } else if n > 1 {
      var init := rows[..n - 1];
      BodyLength(init, sep, w);
      var m := |Body(init, sep)|;
      assert |Body(rows, sep)| == m + |sep| + |Digits(rows[n - 1])| + 1;
      LengthStep(n, w, |sep|, m);
    }
  }

  lemma LengthStep(n: int, w: int, k: int, m: int)
    requires m == (n - 1) * (w + 1) + (n - 2) * k
    ensures m + k + w + 1 == n * (w + 1) + (n - 1) * k
  {
    assert (n - 1) * (w + 1) + (w + 1) == n * (w + 1);
    assert (n - 2) * k + k == (n - 1) * k;
  }

  /** repr is "Image('" + one digit per pixel and one ':' per row + "')"; str
    * adds four-space indented lines, one per row. */
  lemma SerialiseLength(p: Image)
    requires InRange(p)
    ensures |Serialise(p, false)| == 9 + p.h * (p.w + 1)
    ensures p.h > 0 ==> |Serialise(p, true)| == 15 + p.h * (p.w + 1) + (p.h - 1) * 7
  {
    BodyLength(p.rows, "", p.w);
    BodyLength(p.rows, "'\n    '", p.w);
  }

  lemma DigitValue(v: int)
    requires 0 <= v <= Screen.MAX
    ensures CellValue(DigitChars[v]) == v && DigitChars[v] != ' ' && !Separator(DigitChars[v])
  {
  }

  lemma LinesSnoc(s: string, c: char)
    ensures Lines(s + [c]) == Push(Lines(s), c)
  {
    assert (s + [c])[..|s|] == s;
  }

  lemma PushFront(f: seq<string>, r: seq<string>, c: char)
    requires |r| >= 1
    ensures Push(f + r, c) == f + Push(r, c)
  {
    if !Separator(c) {
      assert (f + r)[..|f + r| - 1] == f + r[..|r| - 1];
    }
  }

  lemma LinesAppendStep(s: string, b: string, c: char, front: seq<string>, s2: string, b2: string)
    requires Lines(s) == front + Lines(b)
    requires s2 == s + [c] && b2 == b + [c]
    ensures Lines(s2) == front + Lines(b2)
  {
    LinesSnoc(s, c);
    LinesSnoc(b, c);
    PushFront(front, Lines(b), c);
  }

  lemma LinesAppendBase(a: string, b: string)
    requires Lines(a)[|Lines(a)| - 1] == []
    requires |b| == 0
    ensures Lines(a + b) == Lines(a)[..|Lines(a)| - 1] + Lines(b)
  {
    var front := Lines(a)[..|Lines(a)| - 1];
    assert a + b == a;
    assert Lines(b) == [[]];
    assert Lines(a) == front + [[]];
  }

  /** A text whose last line is empty continues on a fresh line. */
  lemma {:induction false} LinesAppend(a: string, b: string)
    requires Lines(a)[|Lines(a)| - 1] == []
    ensures Lines(a + b) == Lines(a)[..|Lines(a)| - 1] + Lines(b)
  {
    if |b| == 0 {
      LinesAppendBase(a, b);
    } else {
      var b' := b[..|b| - 1];
      var c := b[|b| - 1];
      LinesAppend(a, b');
      assert b == b' + [c];
      assert a + b == (a + b') + [c];
      LinesAppendStep(a + b', b', c, Lines(a)[..|Lines(a)| - 1], a + b, b);
    }
  }

  lemma {:induction false} LinesOfPlain(t: string)
    requires forall i :: 0 <= i < |t| ==> !Separator(t[i])
    ensures Lines(t) == [t]
  {
    if |t| > 0 {
      LinesOfPlain(t[..|t| - 1]);
      assert t[..|t| - 1] + [t[|t| - 1]] == t;
    }
  }

  /** A line without separators, then ':', is that line and an empty one. */
  lemma PlainRowLines(t: string)
    requires forall i :: 0 <= i < |t| ==> !Separator(t[i])
    ensures Lines(t + ":") == [t, []]
  {
    LinesOfPlain(t);
    LinesSnoc(t, ':');
  }

  /** The digit lines of the rows, in order. */
  function RowTexts(rows: seq<seq<int>>): (t: seq<string>)
    requires Bright(rows)
    ensures |t| == |rows|
  {
    if |rows| == 0 then [] else RowTexts(rows[..|rows| - 1]) + [Digits(rows[|rows| - 1])]
  }

  lemma {:induction false} RowTextsAt(rows: seq<seq<int>>, y: int)
    requires Bright(rows) && 0 <= y < |rows|
    ensures RowTexts(rows)[y] == Digits(rows[y])
  {
    if y < |rows| - 1 {
      RowTextsAt(rows[..|rows| - 1], y);
    }
  }

  lemma {:induction false} LinesOfBody(rows: seq<seq<int>>)
    requires Bright(rows)
    ensures Lines(Body(rows, "")) == RowTexts(rows) + [[]]
  {
    var n := |rows|;
    if n == 0 {
      assert Body(rows, "") == [];
    } else {
      var init := rows[..n - 1];
      var d := Digits(rows[n - 1]);
      forall i | 0 <= i < |d| ensures !Separator(d[i]) {
        DigitValue(rows[n - 1][i]);
      }
      var a := RowTexts(init);
      var front: string := if n == 1 then [] else Body(init, "");
      if n == 1 {
        assert Lines(front) == a + [[]];
      } else {
        LinesOfBody(init);
      }
      BodySnoc(rows);
      LinesAddRow(front, a, d);
      RowTextsSnoc(rows);
    }
  }

  lemma BodySnoc(rows: seq<seq<int>>)
    requires Bright(rows) && |rows| > 0
    ensures Body(rows, "") == (if |rows| == 1 then [] else Body(rows[..|rows| - 1], "")) + (Digits(rows[|rows| - 1]) + ":")
  {
    if |rows| > 1 {
      BodySnocMore(rows, rows[..|rows| - 1], Digits(rows[|rows| - 1]));
    }
  }

  lemma BodySnocMore(rows: seq<seq<int>>, init: seq<seq<int>>, d: string)
    requires Bright(rows) && |rows| > 1 && init == rows[..|rows| - 1] && d == Digits(rows[|rows| - 1])
    ensures Body(rows, "") == Body(init, "") + (d + ":")
  {
    var x := Body(init, "");
    assert Body(rows, "") == x + "" + d + ":";
    assert x + "" + d + ":" == x + (d + ":");
  }

  lemma RowTextsSnoc(rows: seq<seq<int>>)
    requires Bright(rows) && |rows| > 0
    ensures RowTexts(rows) + [[]] == RowTexts(rows[..|rows| - 1]) + [Digits(rows[|rows| - 1]), []]
  {
  }

  /** A text whose lines end in an empty one, followed by a line without
    * separators and a ':', has that line added before the empty one. */
  lemma LinesAddRow(front: string, a: seq<string>, d: string)
    requires Lines(front) == a + [[]]
    requires forall i :: 0 <= i < |d| ==> !Separator(d[i])
    ensures Lines(front + (d + ":")) == a + [d, []]
  {
    PlainRowLines(d);
    assert Lines(front)[..|Lines(front)| - 1] == a;
    LinesAppend(front, d + ":");
  }

  /** repr's body holds digits and ':' only. */
  lemma {:induction false} BodyAccepted(rows: seq<seq<int>>)
    requires Bright(rows)
    ensures AllAccepted(Body(rows, ""))
  {
    var n := |rows|;
    if n > 0 {
      var t := Digits(rows[n - 1]);
      forall i | 0 <= i < |t| ensures Accepted(t[i]) {
        DigitValue(rows[n - 1][i]);
      }
      if n > 1 {
        BodyAccepted(rows[..n - 1]);
      }
    }
  }

  lemma RowsOfBody(rows: seq<seq<int>>)
    requires Bright(rows)
    ensures Rows(Body(rows, "")) == RowTexts(rows)
  {
    LinesOfBody(rows);
    var l := Lines(Body(rows, ""));
    assert l[..|l| - 1] == RowTexts(rows);
  }

  lemma {:induction false} MaxLenOfTexts(rows: seq<seq<int>>, w: nat)
    requires Bright(rows) && |rows| > 0
    requires forall y :: 0 <= y < |rows| ==> |rows[y]| == w
    ensures MaxLen(RowTexts(rows)) == w
  {
    var t := RowTexts(rows);
    forall k | 0 <= k < |t| ensures |t[k]| == w {
      RowTextsAt(rows, k);
    }
  }

  /** Parsing the quoted text of repr gives the image back, for every image
    * that has a row or is zero pixels wide. */
  lemma RoundTrip(p: Image)
    requires InRange(p)
    requires p.h > 0 || p.w == 0
    ensures ParsePic(Body(p.rows, "")).Ok?
    ensures ParsePic(Body(p.rows, "")).value == p
  {
    var s := Body(p.rows, "");
    RowsOfBody(p.rows);
    BodyAccepted(p.rows);
    if p.h > 0 {
      MaxLenOfTexts(p.rows, p.w);
    }
    var q := ParsePic(s).value;
    forall x, y | 0 <= x < p.w && 0 <= y < p.h ensures At(q, x, y) == At(p, x, y) {
      DigitValue(p.rows[y][x]);
      RowTextsAt(p.rows, y);
    }
    Extensionality(q, p);
  }

  // ---------------------------------------------------------------------
  // Glyph images (bitsflow_image_set_from_char, bitsflow_image_for_char)

  /** The 5 x 5 image of a character: lit font bits at full brightness. */
  function GlyphPic(font: Font.FontTable, c: char): (r: Image)
    ensures r.w == Screen.W && r.h == Screen.H
  {
    var g := Font.GlyphData(font, c);
    Tabulate(Screen.W, Screen.H,
      (x, y) => if 0 <= x < Screen.W && 0 <= y < Screen.H then Font.FontPixel(g, x, y) * Screen.MAX else 0)
  }

  /** Every glyph pixel is off or at full brightness, as the font bit says,
    * and a character without a font entry looks like '?'. */
  lemma GlyphPixels(font: Font.FontTable, c: char, x: int, y: int)
    requires 0 <= x < Screen.W && 0 <= y < Screen.H
    ensures At(GlyphPic(font, c), x, y) == Screen.MAX <==> Font.FontPixel(Font.GlyphData(font, c), x, y) == 1
    ensures At(GlyphPic(font, c), x, y) == 0 <==> Font.FontPixel(Font.GlyphData(font, c), x, y) == 0
    ensures InRange(GlyphPic(font, c))
    ensures c !in font ==> GlyphPic(font, c) == GlyphPic(font, '?')
  {
  }

  // ---------------------------------------------------------------------
  // Clipped copy and the operations built on it

  /** image_blit(src, dst, x, y, w, h, xdest, ydest), whose implementation is
    * not part of this model. Assumed contract: the w x h rectangle at
    * (xdest, ydest) of dst, clipped to dst, receives the pixels of src at
    * (x, y) onwards, with pixels outside src reading as 0; src is read as it
    * was before the copy; the rest of dst is unchanged. */
  function BlitPic(src: Image, dst: Image, x: int, y: int, w: int, h: int, xd: int, yd: int): (r: Image)
    ensures r.w == dst.w && r.h == dst.h
    ensures forall i, j :: 0 <= i < dst.w && 0 <= j < dst.h ==>
      At(r, i, j) == if xd <= i < xd + w && yd <= j < yd + h then PixelOr0(src, x + i - xd, y + j - yd) else At(dst, i, j)
  {
    Tabulate(dst.w, dst.h,
      (i, j) =>
        if xd <= i < xd + w && yd <= j < yd + h then PixelOr0(src, x + i - xd, y + j - yd)
        else if 0 <= i < dst.w && 0 <= j < dst.h then At(dst, i, j)
        else 0)
  }

  /** image_crop: the w x h region at (x, y), negative sizes taken as 0. */
  function Crop(p: Image, x: int, y: int, w: int, h: int): (r: Image)
    ensures r.w == (if w < 0 then 0 else w) && r.h == (if h < 0 then 0 else h)
    ensures forall i, j :: 0 <= i < r.w && 0 <= j < r.h ==> At(r, i, j) == PixelOr0(p, x + i, y + j)
  {
    var w' := if w < 0 then 0 else w;
    var h' := if h < 0 then 0 else h;
    BlitPic(p, Blank(w', h'), x, y, w', h', 0, 0)
  }

  /** image_shift: a same-size image whose pixel (i, j) is the source pixel
    * (i + dx, j + dy), or 0 where that is outside. */
  function Shift(p: Image, dx: int, dy: int): (r: Image)
    ensures r.w == p.w && r.h == p.h
    ensures forall i, j :: 0 <= i < p.w && 0 <= j < p.h ==> At(r, i, j) == PixelOr0(p, i + dx, j + dy)
  {
    BlitPic(p, Blank(p.w, p.h), dx, dy, p.w, p.h, 0, 0)
  }

  /** shift_left(n): the content moves n columns to the left. */
  function ShiftLeft(p: Image, n: int): (r: Image)
    ensures r.w == p.w && r.h == p.h
    ensures forall i, j :: 0 <= i < p.w && 0 <= j < p.h ==> At(r, i, j) == PixelOr0(p, i + n, j)
  {
    Shift(p, n, 0)
  }

  /** shift_right(n) negates the offset: the content moves n columns right. */
  function ShiftRight(p: Image, n: int): (r: Image)
    ensures r.w == p.w && r.h == p.h
    ensures forall i, j :: 0 <= i < p.w && 0 <= j < p.h ==> At(r, i, j) == PixelOr0(p, i - n, j)
  {
    Shift(p, -n, 0)
  }

  /** shift_up(n): the content moves n rows up. */
  function ShiftUp(p: Image, n: int): (r: Image)
    ensures r.w == p.w && r.h == p.h
    ensures forall i, j :: 0 <= i < p.w && 0 <= j < p.h ==> At(r, i, j) == PixelOr0(p, i, j + n)
  {
    Shift(p, 0, n)
  }

  /** shift_down(n) negates the offset: the content moves n rows down. */
  function ShiftDown(p: Image, n: int): (r: Image)
    ensures r.w == p.w && r.h == p.h
    ensures forall i, j :: 0 <= i < p.w && 0 <= j < p.h ==> At(r, i, j) == PixelOr0(p, i, j - n)
  {
    Shift(p, 0, -n)
  }

  /** Cropping the whole image, or shifting by nothing, is a copy. */
  lemma CopyByCropOrShift(p: Image)
    ensures Crop(p, 0, 0, p.w, p.h) == p
    ensures Shift(p, 0, 0) == p
  {
    Extensionality(Crop(p, 0, 0, p.w, p.h), p);
    Extensionality(Shift(p, 0, 0), p);
  }

  /** Two left shifts by non-negative amounts are one shift by their sum:
    * what falls off the edge stays lost. */
  lemma ShiftLeftTwice(p: Image, a: int, b: int)
    requires a >= 0 && b >= 0
    ensures ShiftLeft(ShiftLeft(p, a), b) == ShiftLeft(p, a + b)
  {
    var l := ShiftLeft(ShiftLeft(p, a), b);
    var r := ShiftLeft(p, a + b);
    forall i, j | 0 <= i < p.w && 0 <= j < p.h ensures At(l, i, j) == At(r, i, j) {
      if i + b < p.w {
        assert At(l, i, j) == At(ShiftLeft(p, a), i + b, j);
      }
    }
    Extensionality(l, r);
  }

  /** bitsflow_image_sum: images of different sizes raise; otherwise every
    * pixel is min(l + r, MAX) when adding and max(0, l - r) when subtracting. */
  function Sum(l: Image, r: Image, add: bool): (res: Result<Image, ImageError>)
    ensures res.Err? <==> l.w != r.w || l.h != r.h
    ensures res.Err? ==> res.error == NotSameSize
    ensures res.Ok? ==> res.value.w == l.w && res.value.h == l.h
    ensures res.Ok? ==> forall x, y :: 0 <= x < l.w && 0 <= y < l.h ==>
      At(res.value, x, y) == (if add then (if At(l, x, y) + At(r, x, y) < Screen.MAX then At(l, x, y) + At(r, x, y) else Screen.MAX)
                              else (if At(l, x, y) - At(r, x, y) > 0 then At(l, x, y) - At(r, x, y) else 0))
  {
    if r.h != l.h || r.w != l.w then Err(NotSameSize)
    else
      Ok(Tabulate(l.w, l.h,
        (x, y) =>
          var lv := PixelOr0(l, x, y);
          var rv := PixelOr0(r, x, y);
          if add then (if lv + rv < Screen.MAX then lv + rv else Screen.MAX)
          else (if lv - rv > 0 then lv - rv else 0)))
  }

  /** Sums of images with pixels in 0..MAX stay in 0..MAX. */
  lemma SumInRange(l: Image, r: Image, add: bool)
    requires InRange(l) && InRange(r) && l.w == r.w && l.h == r.h
    ensures InRange(Sum(l, r, add).value)
  {
  }

  /** Subtracting what was added gives the original image back, when the
    * addition did not saturate. */
  lemma SubtractUndoesAdd(a: Image, b: Image)
    requires InRange(a) && InRange(b) && a.w == b.w && a.h == b.h
    requires forall x, y :: 0 <= x < a.w && 0 <= y < a.h ==> At(a, x, y) + At(b, x, y) <= Screen.MAX
    ensures Sum(a, b, true).Ok?
    ensures Sum(Sum(a, b, true).value, b, false) == Ok(a)
  {
    var s := Sum(a, b, true).value;
    Extensionality(Sum(s, b, false).value, a);
  }

  /** Adding is symmetric. */
  lemma AddCommutes(a: Image, b: Image)
    ensures Sum(a, b, true).Ok? ==> Sum(a, b, true) == Sum(b, a, true)
  {
    if Sum(a, b, true).Ok? {
      Extensionality(Sum(a, b, true).value, Sum(b, a, true).value);
    }
  }
}
