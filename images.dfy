// Image objects (bitsflow_image.c): a greyscale pixel buffer updated in
// place, the Image(...) constructor with its two-pass description parser and
// its bytes form, and the mutating methods set_pixel, fill and blit.

module Images {
  import opened Wrappers
  import Screen
  import Font
  import opened Pictures

  /** The line lists of a text and of a longer text it begins: the earlier
    * lines are the same and the last one has only grown. */
  predicate Extends(a: seq<string>, b: seq<string>) {
    1 <= |a| <= |b| && a[..|a| - 1] == b[..|a| - 1] && a[|a| - 1] <= b[|a| - 1]
  }

  lemma PushExtends(l: seq<string>, c: char)
    requires |l| >= 1
    ensures Extends(l, Push(l, c))
  {
  }

  lemma ExtendsTrans(a: seq<string>, b: seq<string>, c: seq<string>)
    requires Extends(a, b) && Extends(b, c)
    ensures Extends(a, c)
  {
    var n := |a|;
    assert a[..n - 1] == b[..n - 1];
    if n < |b| {
      assert b[..n] <= b[..|b| - 1];
      assert b[n - 1] == c[n - 1];
    }
  }

  /** The lines read so far are those of the whole text, the last one possibly
    * still incomplete. */
  lemma {:induction false} LinesOfPrefix(s: string, i: int)
    requires 0 <= i <= |s|
    ensures Extends(Lines(s[..i]), Lines(s))
    decreases |s| - i
  {
    if i == |s| {
      assert s[..i] == s;
    } else {
      LinesOfPrefix(s, i + 1);
      assert s[..i + 1] == s[..i] + [s[i]];
      LinesSnoc(s[..i], s[i]);
      PushExtends(Lines(s[..i]), s[i]);
      ExtendsTrans(Lines(s[..i]), Lines(s[..i + 1]), Lines(s));
    }
  }

  lemma LinesStep(s: string, i: int)
    requires 0 <= i < |s|
    ensures Lines(s[..i + 1]) == Push(Lines(s[..i]), s[i])
  {
    assert s[..i + 1] == s[..i] + [s[i]];
    LinesSnoc(s[..i], s[i]);
  }

  /** The row-major image of w x h bytes, each capped at MAX. */
  function BytesPic(w: nat, h: nat, buf: seq<Font.Byte>): (r: Image)
    requires w * h == |buf|
    ensures r.w == w && r.h == h
  {
    Tabulate(w, h, (x, y) => ByteAt(buf, y * w + x))
  }

  /** Byte i of the buffer capped at MAX, or 0 outside it. */
  function ByteAt(buf: seq<Font.Byte>, i: int): (v: int)
    ensures 0 <= v <= Screen.MAX
  {
    if 0 <= i < |buf| then Min(buf[i], Screen.MAX) else 0
  }

  function Min(a: int, b: int): int {
    if a < b then a else b
  }

  /** Cell (x, y) of a w x h row-major buffer is inside the buffer. */
  lemma RowMajorIndex(w: nat, h: nat, x: int, y: int)
    requires 0 <= x < w && 0 <= y < h
    ensures 0 <= y * w + x < w * h
  {
    MulMonotone(y + 1, h, w);
    assert (y + 1) * w == y * w + w;
  }

  lemma MulMonotone(a: int, b: int, c: nat)
    requires a <= b
    ensures a * c <= b * c
  {
  }

  /** Pixel (x, y) of the bytes constructor is byte y * w + x, capped at MAX. */
  lemma BytesPixel(w: nat, h: nat, buf: seq<Font.Byte>, x: int, y: int)
    requires w * h == |buf| && 0 <= x < w && 0 <= y < h
    ensures 0 <= y * w + x < |buf|
    ensures At(BytesPic(w, h, buf), x, y) == (if buf[y * w + x] <= Screen.MAX then buf[y * w + x] else Screen.MAX)
  {
    RowMajorIndex(w, h, x, y);
  }

  /** Every pixel of the bytes form is a brightness. */
  lemma BytesInRange(w: nat, h: nat, buf: seq<Font.Byte>)
    requires w * h == |buf|
    ensures InRange(BytesPic(w, h, buf))
  {
    var p := BytesPic(w, h, buf);
    forall y, x | 0 <= y < |p.rows| && 0 <= x < |p.rows[y]|
      ensures 0 <= p.rows[y][x] <= Screen.MAX
    {
      assert p.rows[y][x] == At(p, x, y) == ByteAt(buf, y * w + x);
    }
  }

  /** The first argument of a one-argument Image(...). */
  datatype ImageArg = StrArg(s: string) | NonStrArg

  /** The positional arguments of Image(...). Non-integer sizes and
    * non-buffer data raise inside the runtime's conversions and are not part
    * of this model. */
  datatype ImageArgs =
    | NoArgs
    | OneArg(a: ImageArg)
    | TwoArgs(w: int, h: int)
    | ThreeArgs(w: int, h: int, buf: seq<Font.Byte>)

  /** The destination offsets of blit: none (0, 0), only x (refused), or both. */
  datatype Offsets = DefaultOffsets | OnlyX(x: int) | BothOffsetsGiven(x: int, y: int)

  /** blit's checks, in the source's order: mutability, the 7-argument form,
    * negative sizes. */
  function BlitCheck(readOnly: bool, w: int, h: int, dest: Offsets): (r: Outcome<ImageError>)
    ensures readOnly ==> r == Fail(CannotModify)
    ensures !readOnly && dest.OnlyX? ==> r == Fail(BothOffsets)
    ensures r.Pass? <==> !readOnly && !dest.OnlyX? && w >= 0 && h >= 0
  {
    if readOnly then Fail(CannotModify)
    else if dest.OnlyX? then Fail(BothOffsets)
    else if w < 0 || h < 0 then Fail(SizeNegative)
    else Pass
  }

  /** fill's checks: mutability, then the brightness. */
  function FillCheck(readOnly: bool, n: int): (r: Outcome<ImageError>)
    ensures readOnly ==> r == Fail(CannotModify)
    ensures r.Pass? <==> !readOnly && 0 <= n <= Screen.MAX
  {
    if readOnly then Fail(CannotModify)
    else if n < 0 || n > Screen.MAX then Fail(BrightnessOutOfBounds)
    else Pass
  }

  /** A greyscale image object: a w x h pixel buffer, data[x, y], and the
    * read-only flag of the built-in images. */
  class Greyscale {
    const w: nat
    const h: nat
    const data: array2<int>
    const readOnly: bool

    predicate Valid() {
      data.Length0 == w && data.Length1 == h
    }

    /** The pixels as an image value. */
    function Value(): (p: Image)
      reads data
      requires Valid()
      ensures p.w == w && p.h == h
      ensures forall x, y :: 0 <= x < w && 0 <= y < h ==> At(p, x, y) == data[x, y]
    {
      Pic(w, h, seq(h, y requires 0 <= y < h reads data => seq(w, x requires 0 <= x < w reads data => data[x, y])))
    }

    /** greyscale_new: a mutable w x h buffer whose contents are not specified. */
    constructor Alloc(w: nat, h: nat)
      ensures Valid() && this.w == w && this.h == h && !readOnly && fresh(data)
    {
      this.w, this.h, readOnly := w, h, false;
      data := new int[w, h];
    }

    /** greyscale_new followed by greyscale_clear. */
    constructor Blank(w: nat, h: nat)
      ensures Valid() && this.w == w && this.h == h && !readOnly && fresh(data)
      ensures Value() == Pictures.Blank(w, h)
    {
      this.w, this.h, readOnly := w, h, false;
      data := new int[w, h]((x, y) => 0);
      new;
      Extensionality(Value(), Pictures.Blank(w, h));
    }

    /** A built-in image, which refuses modification. */
    constructor Frozen(p: Image)
      ensures Valid() && w == p.w && h == p.h && readOnly && fresh(data)
      ensures Value() == p
    {
      w, h, readOnly := p.w, p.h, true;
      data := new int[p.w, p.h]((x, y) => PixelOr0(p, x, y));
      new;
      Extensionality(Value(), p);
    }

    /** Overwrite every pixel with those of p (the drv_image primitives). */
    method Store(p: Image)
      requires Valid() && p.w == w && p.h == h
      modifies data
      ensures Value() == p
    {
      var x := 0;
      while x < w
        invariant 0 <= x <= w
        invariant forall i, j :: 0 <= i < x && 0 <= j < h ==> data[i, j] == At(p, i, j)
      {
        var y := 0;
        while y < h
          invariant 0 <= y <= h
          invariant forall i, j :: 0 <= i < x && 0 <= j < h ==> data[i, j] == At(p, i, j)
          invariant forall j :: 0 <= j < y ==> data[x, j] == At(p, x, j)
        {
          data[x, y] := At(p, x, y);
          y := y + 1;
        }
        x := x + 1;
      }
      Extensionality(Value(), p);
    }

    /** greyscale_clear: every pixel becomes 0. */
    method Clear()
      requires Valid()
      modifies data
      ensures Value() == Pictures.Blank(w, h)
    {
      Store(Pictures.Blank(w, h));
    }

    /** set_pixel: on success only (x, y) changes, to v; on failure nothing. */
    method SetPixel(x: int, y: int, v: int) returns (r: Outcome<ImageError>)
      requires Valid()
      modifies data
      ensures r == SetPixelCheck(readOnly, old(Value()), x, y, v)
      ensures r.Pass? ==> Value() == Update(old(Value()), x, y, v)
      ensures r.Fail? ==> Value() == old(Value())
    {
      ghost var before := Value();
      r := SetPixelCheck(readOnly, Value(), x, y, v);
      if r.Pass? {
        data[x, y] := v;
        Extensionality(Value(), Update(before, x, y, v));
      }
    }

    /** fill: every pixel becomes n. */
    method Fill(n: int) returns (r: Outcome<ImageError>)
      requires Valid()
      modifies data
      ensures r == FillCheck(readOnly, n)
      ensures r.Pass? ==> Value() == Tabulate(w, h, (x, y) => n)
      ensures r.Fail? ==> Value() == old(Value())
    {
      r := FillCheck(readOnly, n);
      if r.Pass? {
        Store(Tabulate(w, h, (x, y) => n));
      }
    }

    /** blit: copy the w x h region of src at (x, y) to the offsets given,
      * clipped (image_blit, whose assumed contract BlitPic states). */
    method Blit(src: Greyscale, x: int, y: int, bw: int, bh: int, dest: Offsets) returns (r: Outcome<ImageError>)
      requires Valid() && src.Valid()
      modifies data
      ensures r == BlitCheck(readOnly, bw, bh, dest)
      ensures r.Pass? && dest.DefaultOffsets? ==> Value() == BlitPic(old(src.Value()), old(Value()), x, y, bw, bh, 0, 0)
      ensures r.Pass? && dest.BothOffsetsGiven? ==>
        Value() == BlitPic(old(src.Value()), old(Value()), x, y, bw, bh, dest.x, dest.y)
      ensures r.Fail? ==> Value() == old(Value())
    {
      r := BlitCheck(readOnly, bw, bh, dest);
      if r.Pass? {
        var xd, yd := 0, 0;
        if dest.BothOffsetsGiven? {
          xd, yd := dest.x, dest.y;
        }
        var copy := BlitPic(src.Value(), Value(), x, y, bw, bh, xd, yd);
        Store(copy);
      }
    }

    /** bitsflow_image_set_from_char: the glyph of c, column by column. */
    method SetFromChar(font: Font.FontTable, c: char)
      requires Valid() && w == Screen.W && h == Screen.H
      modifies data
      ensures Value() == GlyphPic(font, c)
    {
      var g := Font.GlyphData(font, c);
      var x := 0;
      while x < Screen.W
        invariant 0 <= x <= Screen.W
        invariant forall i, j :: 0 <= i < x && 0 <= j < Screen.H ==> data[i, j] == Font.FontPixel(g, i, j) * Screen.MAX
      {
        var y := 0;
        while y < Screen.H
          invariant 0 <= y <= Screen.H
          invariant forall i, j :: 0 <= i < x && 0 <= j < Screen.H ==> data[i, j] == Font.FontPixel(g, i, j) * Screen.MAX
          invariant forall j :: 0 <= j < y ==> data[x, j] == Font.FontPixel(g, x, j) * Screen.MAX
        {
          data[x, y] := Font.FontPixel(g, x, y) * Screen.MAX;
          y := y + 1;
        }
        x := x + 1;
      }
      Extensionality(Value(), GlyphPic(font, c));
    }

    /** The bytes form of Image(w, h, buffer): the size must match, pixels
      * are stored row by row, capped at MAX. */
    method StoreBytes(buf: seq<Font.Byte>)
      requires Valid() && w * h == |buf|
      modifies data
      ensures Value() == BytesPic(w, h, buf)
    {
      var i := 0;
      var y := 0;
      while y < h
        invariant 0 <= y <= h
        invariant i == y * w
        invariant forall a, b :: 0 <= a < w && 0 <= b < y ==> data[a, b] == At(BytesPic(w, h, buf), a, b)
      {
        var x := 0;
        while x < w
          invariant 0 <= x <= w
          invariant i == y * w + x
          invariant forall a, b :: 0 <= a < w && 0 <= b < y ==> data[a, b] == At(BytesPic(w, h, buf), a, b)
          invariant forall a :: 0 <= a < x ==> data[a, y] == At(BytesPic(w, h, buf), a, y)
        {
          BytesPixel(w, h, buf, x, y);
          var v := Min(buf[i], Screen.MAX);
          data[x, y] := v;
          i := i + 1;
          x := x + 1;
        }
        y := y + 1;
      }
      Extensionality(Value(), BytesPic(w, h, buf));
    }
  }

  /** A separator read at i opens a new, empty line. */
  lemma SeparatorStep(s: string, i: int, l: seq<string>)
    requires 0 <= i < |s| && Separator(s[i]) && l == Lines(s[..i])
    ensures Lines(s[..i + 1]) == l + [[]]
  {
    LinesStep(s, i);
  }

  /** Any other character read at i extends the last line. */
  lemma CellStep(s: string, i: int, l: seq<string>)
    requires 0 <= i < |s| && !Separator(s[i]) && l == Lines(s[..i])
    ensures Lines(s[..i + 1]) == l[..|l| - 1] + [l[|l| - 1] + [s[i]]]
  {
    LinesStep(s, i);
  }

  /** The first pass after i characters: all accepted, h finished lines, the
    * current one lineLen long, and the widest finished line w long. */
  predicate Measured(s: string, i: int, w: int, h: int, lineLen: int) {
    0 <= i <= |s| && AllAccepted(s[..i]) &&
    h == |Lines(s[..i])| - 1 && lineLen == |Lines(s[..i])[h]| && w == MaxLen(Lines(s[..i])[..h])
  }

  lemma MeasuredStart(s: string)
    ensures Measured(s, 0, 0, 0, 0)
  {
    assert s[..0] == [];
  }

  lemma MeasuredSeparator(s: string, i: int, w: int, h: int, lineLen: int)
    requires Measured(s, i, w, h, lineLen) && i < |s| && Separator(s[i])
    ensures Measured(s, i + 1, if lineLen > w then lineLen else w, h + 1, 0)
  {
    var l := Lines(s[..i]);
    SeparatorStep(s, i, l);
    assert Lines(s[..i + 1])[..h + 1] == l;
    assert l[..h] == l[..|l| - 1];
    assert s[..i + 1] == s[..i] + [s[i]];
  }

  lemma MeasuredCell(s: string, i: int, w: int, h: int, lineLen: int)
    requires Measured(s, i, w, h, lineLen) && i < |s| && !Separator(s[i]) && Accepted(s[i])
    ensures Measured(s, i + 1, w, h, lineLen + 1)
  {
    var l := Lines(s[..i]);
    CellStep(s, i, l);
    assert Lines(s[..i + 1])[..h] == l[..h];
    assert s[..i + 1] == s[..i] + [s[i]];
  }

  /** A character the parser refuses makes the whole description refused. */
  lemma MeasuredRefused(s: string, i: int)
    requires 0 <= i < |s| && !Accepted(s[i])
    ensures !AllAccepted(s)
  {
  }

  /** After the first pass: the trailing adjustment turns the count of
    * finished lines and the widest of them into the image size. */
  lemma MeasuredSize(s: string, w: int, h: int, lineLen: int)
    requires Measured(s, |s|, w, h, lineLen)
    ensures AllAccepted(s)
    ensures (if lineLen != 0 then h + 1 else h) == Height(s)
    ensures (if lineLen != 0 then (if lineLen > w then lineLen else w) else w) == Width(s)
  {
    assert s[..|s|] == s;
    var l := Lines(s);
    assert l[..h + 1] == l;
  }

  /** The first pass of image_from_parsed_str: count the rows and the widest
    * row, raising on an unexpected character before anything is allocated. */
  method Measure(s: string) returns (r: Result<(nat, nat), ImageError>)
    ensures r.Ok? <==> AllAccepted(s)
    ensures r.Err? ==> r.error == UnexpectedCharacter
    ensures r.Ok? ==> r.value == (Width(s), Height(s))
  {
    var w, h, lineLen := 0, 0, 0;
    var i := 0;
    MeasuredStart(s);
    while i < |s|
      invariant Measured(s, i, w, h, lineLen)
      decreases |s| - i
    {
      var c := s[i];
      if c == '\n' || c == ':' {
        MeasuredSeparator(s, i, w, h, lineLen);
        w := if lineLen > w then lineLen else w;
        lineLen := 0;
        h := h + 1;
      } else if c == ' ' {
        MeasuredCell(s, i, w, h, lineLen);
        lineLen := lineLen + 1;
      } else if c <= '9' {
        MeasuredCell(s, i, w, h, lineLen);
        lineLen := lineLen + 1;
      } else {
        MeasuredRefused(s, i);
        return Err(UnexpectedCharacter);
      }
      i := i + 1;
    }
    MeasuredSize(s, w, h, lineLen);
    if lineLen != 0 {
      h := h + 1;
      w := if lineLen > w then lineLen else w;
    }
    return Ok((w, h));
  }

  /** The second pass after i characters is at column x of row y: x is the
    * length of the line being read, which is row y of the image. */
  predicate Position(s: string, i: int, x: int, y: int) {
    0 <= i <= |s| && y == |Lines(s[..i])| - 1 && x == |Lines(s[..i])[y]|
  }

  lemma PositionStart(s: string)
    ensures Position(s, 0, 0, 0)
  {
    assert s[..0] == [];
  }

  /** The line being read at i is a row of the image, and what has been read
    * of it is a prefix of that row. */
  lemma CurrentRow(s: string, i: int, l: seq<string>)
    requires 0 <= i < |s| && l == Lines(s[..i])
    ensures |l| - 1 < Height(s) && l[|l| - 1] <= Rows(s)[|l| - 1]
    ensures Separator(s[i]) ==> Rows(s)[|l| - 1] == l[|l| - 1]
    ensures !Separator(s[i]) ==> |l[|l| - 1]| < |Rows(s)[|l| - 1]| && Rows(s)[|l| - 1][|l[|l| - 1]|] == s[i]
  {
    LinesStep(s, i);
    LinesOfPrefix(s, i + 1);
    var all := Lines(s);
    assert Rows(s) == if all[|all| - 1] == [] then all[..|all| - 1] else all;
    if Separator(s[i]) {
      RowAtSeparator(l, all, Rows(s));
    } else {
      RowAtCell(l, s[i], all, Rows(s));
    }
  }

  /** A separator closes the current line, which is then a whole row. */
  lemma RowAtSeparator(l: seq<string>, all: seq<string>, rows: seq<string>)
    requires |l| >= 1 && Extends(l + [[]], all)
    requires rows == if all[|all| - 1] == [] then all[..|all| - 1] else all
    ensures |l| - 1 < |rows| && rows[|l| - 1] == l[|l| - 1]
  {
    var y := |l| - 1;
    assert (l + [[]])[..|l|] == l;
    assert all[..|l|][y] == all[y];
  }

  /** Another character extends the current line, which stays a prefix of
    * its row. */
  lemma RowAtCell(l: seq<string>, c: char, all: seq<string>, rows: seq<string>)
    requires |l| >= 1 && Extends(l[..|l| - 1] + [l[|l| - 1] + [c]], all)
    requires rows == if all[|all| - 1] == [] then all[..|all| - 1] else all
    ensures |l| - 1 < |rows| && l[|l| - 1] <= rows[|l| - 1]
    ensures |l[|l| - 1]| < |rows[|l| - 1]| && rows[|l| - 1][|l[|l| - 1]|] == c
  {
    var y := |l| - 1;
    var l' := l[..|l| - 1] + [l[|l| - 1] + [c]];
    assert l'[y] == l[y] + [c];
    assert l'[y] <= all[y];
    assert all[y] != [];
  }

  /** A separator ends row y, which is x cells long, and moves to the next row. */
  lemma PositionSeparator(s: string, i: int, x: int, y: int)
    requires Position(s, i, x, y) && i < |s| && Separator(s[i])
    ensures Position(s, i + 1, 0, y + 1)
    ensures y < Height(s) && |Rows(s)[y]| == x
  {
    var l := Lines(s[..i]);
    CurrentRow(s, i, l);
    SeparatorStep(s, i, l);
  }

  /** Another character is cell x of row y. */
  lemma PositionCell(s: string, i: int, x: int, y: int)
    requires Position(s, i, x, y) && i < |s| && !Separator(s[i])
    ensures Position(s, i + 1, x + 1, y)
    ensures y < Height(s) && x < Width(s) && ParsedPixel(s, x, y) == CellValue(s[i])
  {
    var l := Lines(s[..i]);
    CurrentRow(s, i, l);
    CellStep(s, i, l);
  }

  /** At the end the last line is either the empty line after a final
    * separator, which is not a row, or the unterminated last row. */
  lemma PositionEnd(s: string, x: int, y: int)
    requires Position(s, |s|, x, y)
    ensures y == Height(s) || (y == Height(s) - 1 && |Rows(s)[y]| == x)
  {
    assert s[..|s|] == s;
  }

  /** Rows 0..y-1 and the first x cells of row y hold the parsed pixels. */
  ghost predicate FilledUpTo(s: string, img: Greyscale, x: int, y: int)
    reads img.data
    requires img.Valid()
  {
    (forall a, b :: 0 <= a < img.w && 0 <= b < y && b < img.h ==> img.data[a, b] == ParsedPixel(s, a, b)) &&
    (forall a :: 0 <= a < x ==> a < img.w && 0 <= y < img.h && img.data[a, y] == ParsedPixel(s, a, y))
  }

  /** A finished row y is the same as the start of row y + 1. */
  lemma FilledNextRow(s: string, img: Greyscale, y: int)
    requires img.Valid() && 0 <= y < img.h && FilledUpTo(s, img, img.w, y)
    ensures FilledUpTo(s, img, 0, y + 1)
  {
  }

  /** greyscale_set_pixel of the second pass: cell x of row y receives its
    * parsed value. */
  method StoreCell(s: string, img: Greyscale, x: int, y: int, v: int)
    requires img.Valid() && 0 <= x < img.w && 0 <= y < img.h && v == ParsedPixel(s, x, y)
    requires FilledUpTo(s, img, x, y)
    modifies img.data
    ensures FilledUpTo(s, img, x + 1, y)
  {
    img.data[x, y] := v;
  }

  /** The padding loop of the second pass: the rest of row y, from x up to the
    * width, is 0, which is what the parsed description holds there. */
  method PadRow(s: string, img: Greyscale, x: int, y: int) returns (x': int)
    requires img.Valid() && 0 <= y < img.h && y < Height(s) && |Rows(s)[y]| <= x <= img.w
    requires FilledUpTo(s, img, x, y)
    modifies img.data
    ensures x' == img.w && FilledUpTo(s, img, x', y)
  {
    x' := x;
    while x' < img.w
      invariant x <= x' <= img.w && FilledUpTo(s, img, x', y)
    {
      img.data[x', y] := 0;
      x' := x' + 1;
    }
  }

  /** The second pass of image_from_parsed_str: every cell of row y is the
    * row's character value, padded with 0 up to the width. */
  method FillParsed(s: string, img: Greyscale)
    requires AllAccepted(s) && img.Valid() && img.w == Width(s) && img.h == Height(s)
    modifies img.data
    ensures img.Value() == ParsePic(s).value
  {
    var w, h := img.w, img.h;
    var x, y := 0, 0;
    var i := 0;
    PositionStart(s);
    while i < |s|
      invariant Position(s, i, x, y) && y <= h
      invariant FilledUpTo(s, img, x, y)
      decreases |s| - i
    {
      x, y := FillChar(s, img, i, x, y);
      i := i + 1;
    }
    PositionEnd(s, x, y);
    if y < h {
      x := PadRow(s, img, x, y);
      FilledNextRow(s, img, y);
    }
    assert FilledUpTo(s, img, 0, h);
    Extensionality(img.Value(), ParsePic(s).value);
  }

  /** One character of the second pass: a separator pads the rest of the row
    * with 0 and moves to the next row; a space or a digit stores its cell. */
  method FillChar(s: string, img: Greyscale, i: int, x: int, y: int) returns (x': int, y': int)
    requires AllAccepted(s) && img.Valid() && img.w == Width(s) && img.h == Height(s)
    requires i < |s| && Position(s, i, x, y) && y <= img.h && FilledUpTo(s, img, x, y)
    modifies img.data
    ensures Position(s, i + 1, x', y') && y' <= img.h && FilledUpTo(s, img, x', y')
  {
    var c := s[i];
    x', y' := x, y;
    if c == '\n' || c == ':' {
      PositionSeparator(s, i, x, y);
      x' := PadRow(s, img, x, y);
      FilledNextRow(s, img, y);
      y' := y + 1;
      x' := 0;
    } else if c == ' ' {
      PositionCell(s, i, x, y);
      StoreCell(s, img, x, y, 0);
      x' := x + 1;
    } else if c <= '9' {
      PositionCell(s, i, x, y);
      StoreCell(s, img, x, y, c as int - '0' as int);
      x' := x + 1;
    }
  }

  /** image_from_parsed_str: measure, allocate, fill. */
  method Parse(s: string) returns (r: Result<Greyscale, ImageError>)
    ensures r.Err? <==> ParsePic(s).Err?
    ensures r.Err? ==> r.error == UnexpectedCharacter
    ensures r.Ok? ==> fresh(r.value) && fresh(r.value.data) && r.value.Valid() && !r.value.readOnly
    ensures r.Ok? ==> r.value.Value() == ParsePic(s).value
  {
    var size := Measure(s);
    if size.Err? {
      return Err(size.error);
    }
    var result := new Greyscale.Alloc(size.value.0, size.value.1);
    FillParsed(s, result);
    return Ok(result);
  }

  /** Image(...): no arguments give a blank 5 x 5 image, one character its
    * glyph, another string its parsed description, two sizes a blank image
    * and two sizes with a buffer the bytes form. */
  method MakeNew(font: Font.FontTable, args: ImageArgs) returns (r: Result<Greyscale, ImageError>)
    ensures r.Ok? ==> fresh(r.value) && fresh(r.value.data) && r.value.Valid() && !r.value.readOnly
    ensures args.NoArgs? ==> r.Ok? && r.value.Value() == Pictures.Blank(Screen.W, Screen.H)
    ensures args == OneArg(NonStrArg) ==> r == Err(TakesAString)
    ensures args.OneArg? && args.a.StrArg? && |args.a.s| == 1 ==> r.Ok? && r.value.Value() == GlyphPic(font, args.a.s[0])
    ensures args.OneArg? && args.a.StrArg? && |args.a.s| != 1 ==>
      (r.Err? <==> ParsePic(args.a.s).Err?) && (r.Ok? ==> r.value.Value() == ParsePic(args.a.s).value)
    ensures args.TwoArgs? ==> (r.Ok? <==> args.w >= 0 && args.h >= 0)
    ensures args.TwoArgs? && r.Ok? ==> r.value.Value() == Pictures.Blank(args.w, args.h)
    ensures args.ThreeArgs? ==> (r.Err? <==> args.w < 0 || args.h < 0 || args.w * args.h != |args.buf|)
    ensures args.ThreeArgs? && r.Err? ==> r.error == DataIncorrectSize
    ensures args.ThreeArgs? && r.Ok? ==> r.value.Value() == BytesPic(args.w, args.h, args.buf)
  {
    if args.NoArgs? {
      var g := new Greyscale.Blank(Screen.W, Screen.H);
      return Ok(g);
    } else if args.OneArg? {
      if !args.a.StrArg? {
        return Err(TakesAString);
      }
      var text := args.a.s;
      if |text| == 1 {
        var g := new Greyscale.Alloc(Screen.W, Screen.H);
        g.SetFromChar(font, text[0]);
        return Ok(g);
      }
      r := Parse(text);
    } else if args.TwoArgs? {
      if args.w < 0 || args.h < 0 {
        return Err(UnsupportedSize);
      }
      var g := new Greyscale.Blank(args.w, args.h);
      return Ok(g);
    } else {
      if args.w < 0 || args.h < 0 || args.w * args.h != |args.buf| {
        return Err(DataIncorrectSize);
      }
      var g := new Greyscale.Alloc(args.w, args.h);
      g.StoreBytes(args.buf);
      return Ok(g);
    }
  }
}
