// The scrolling-text iterator of display.scroll (bitsflow_image.c): a state
// machine over the text that moves one column per call and draws every frame
// into one reused 5 x 5 buffer.

module Scrolling {
  import opened Wrappers
  import opened Words
  import Screen
  import Font
  import opened Pictures
  import opened Images

  /** The rightmost column, where new columns come in. */
  const Right: int := Screen.W - 1

  /** scrolling_string_image_iterable: the text and the two flags. */
  datatype ScrollingString = ScrollingString(text: string, monospace: bool, repeat: bool)

  /** The iterator's position: next is next_char as an index into the text
    * (end is |text|), offset the uint8_t column counter, limit offset_limit
    * and right the character entering on the right. */
  datatype Scroll = Scroll(next: nat, offset: int, limit: int, right: char)

  /** How many columns a character takes: 5 in monospace mode, otherwise one
    * past its rightmost non-blank column among 2, 3 and 4. */
  function LimitOf(monospace: bool, font: Font.FontTable, c: char): (r: int)
    ensures 3 <= r <= 5
    ensures monospace ==> r == 5
  {
    var g := Font.GlyphData(font, c);
    Font.RightmostIsLastLitColumn(g);
    if monospace then 5 else Font.Rightmost(g) + 1
  }

  /** The iterator invariant: the position lies inside the text, the
    * offset never passes the limit, the character on the right is the one at
    * next_char with its own limit, and at the end it is a blank of 5 columns. */
  predicate Inv(text: string, monospace: bool, font: Font.FontTable, st: Scroll) {
    st.next <= |text| && 0 <= st.offset <= st.limit &&
    (st.next == |text| ==> st.right == ' ' && st.limit == 5) &&
    (st.next < |text| ==> st.right == text[st.next] && st.limit == LimitOf(monospace, font, st.right))
  }

  /** restart: back to the first character, or to a trailing blank when the
    * text is empty. */
  function Restart(text: string, monospace: bool, font: Font.FontTable): (st: Scroll)
    ensures Inv(text, monospace, font, st)
    ensures st.next == 0 && st.offset == 0
  {
    if 0 < |text| then Scroll(0, 0, LimitOf(monospace, font, text[0]), text[0])
    else Scroll(0, 0, 5, ' ')
  }

  /** next stops (or restarts, when repeating) once the trailing blank has
    * been shown in full. */
  predicate Finished(text: string, st: Scroll) {
    st.next == |text| && st.offset == 5
  }

  /** The position after one frame. Within a character the offset moves one
    * column; at its limit the next character comes in, its offset set to
    * uint8_t -1 in monospace mode and to minus "column 0 is lit" otherwise,
    * and then the offset moves one column as in every frame. */
  function Advance(text: string, monospace: bool, font: Font.FontTable, st: Scroll): (r: Scroll)
    requires Inv(text, monospace, font, st) && !Finished(text, st)
    ensures Inv(text, monospace, font, r)
    ensures r.next == st.next || r.next == st.next + 1
  {
    if st.offset < st.limit then st.(offset := Wrap8(st.offset + 1))
    else
      var n := st.next + 1;
      if n == |text| then Scroll(n, Wrap8(0 + 1), 5, ' ')
      else
        var c := text[n];
        var g := Font.GlyphData(font, c);
        if monospace then Scroll(n, Wrap8(Wrap8(-1) + 1), 5, c)
        else Scroll(n, Wrap8(Wrap8(-(if Font.ColumnLit(g, 0) then 1 else 0)) + 1), LimitOf(monospace, font, c), c)
  }

  /** Column x of the glyph of c, at full brightness where the font bit is set. */
  function GlyphColumn(font: Font.FontTable, c: char, x: int): (col: seq<int>)
    requires 0 <= x < Screen.W
    ensures |col| == Screen.H
    ensures forall y :: 0 <= y < Screen.H ==> col[y] == At(GlyphPic(font, c), x, y)
  {
    seq(Screen.H, y requires 0 <= y < Screen.H => Font.FontPixel(Font.GlyphData(font, c), x, y) * Screen.MAX)
  }

  /** The frame with its rightmost column replaced by col. */
  function WithColumn(p: Image, col: seq<int>): (r: Image)
    requires p.w == Screen.W && p.h == Screen.H && |col| == Screen.H
    ensures r.w == Screen.W && r.h == Screen.H
    ensures forall x, y :: 0 <= x < Screen.W && 0 <= y < Screen.H ==>
      At(r, x, y) == if x == Screen.W - 1 then col[y] else At(p, x, y)
  {
    Tabulate(Screen.W, Screen.H,
      (x, y) => if x == Screen.W - 1 && 0 <= y < Screen.H then col[y] else PixelOr0(p, x, y))
  }

  /** The position bitsflow_scrolling_string_iter_next moves to: nothing
    * once finished without repeat; after a restart when finished with repeat;
    * otherwise one frame further. */
  function NextState(text: string, monospace: bool, repeat: bool, font: Font.FontTable, st: Scroll): (r: Option<Scroll>)
    requires Inv(text, monospace, font, st)
    ensures r.None? <==> Finished(text, st) && !repeat
    ensures r.Some? ==> Inv(text, monospace, font, r.value)
  {
    if Finished(text, st) && !repeat then None
    else if Finished(text, st) then Some(Advance(text, monospace, font, Restart(text, monospace, font)))
    else Some(Advance(text, monospace, font, st))
  }

  /** The frame drawn from a position that is not finished: the previous
    * frame shifted one column left, with the next glyph column on the right
    * while the character still has columns to show, a blank column when it
    * is at its limit. */
  function Frame(font: Font.FontTable, st: Scroll, prev: Image): (r: Image)
    requires 0 <= st.offset && st.limit <= Screen.W && prev.w == Screen.W && prev.h == Screen.H
    ensures r.w == Screen.W && r.h == Screen.H
    ensures forall x, y :: 0 <= x < Screen.W - 1 && 0 <= y < Screen.H ==> At(r, x, y) == At(prev, x + 1, y)
    ensures forall y :: 0 <= y < Screen.H ==>
      At(r, Screen.W - 1, y) == if st.offset < st.limit then At(GlyphPic(font, st.right), st.offset, y) else 0
  {
    var shifted := ShiftLeft(prev, 1);
    if st.offset < st.limit then WithColumn(shifted, GlyphColumn(font, st.right, st.offset)) else shifted
  }

  /** The frame of the next call: restarting clears the buffer first. */
  function NextImage(text: string, monospace: bool, repeat: bool, font: Font.FontTable, st: Scroll, prev: Image): (r: Image)
    requires Inv(text, monospace, font, st) && prev.w == Screen.W && prev.h == Screen.H
    requires !Finished(text, st) || repeat
    ensures r.w == Screen.W && r.h == Screen.H
  {
    if Finished(text, st) then Frame(font, Restart(text, monospace, font), Blank(Screen.W, Screen.H))
    else Frame(font, st, prev)
  }

  /** A measure of what is left to show: six per character still to come,
    * plus the columns left of the current one. */
  function Remaining(text: string, st: Scroll): int {
    (|text| - st.next) * 6 + (st.limit - st.offset)
  }

  /** Every frame of a non-repeating scroll brings it closer to the end, so
    * it stops after finitely many frames; a finished scroll has nothing left. */
  lemma AdvanceProgress(text: string, monospace: bool, font: Font.FontTable, st: Scroll)
    requires Inv(text, monospace, font, st) && !Finished(text, st)
    ensures 0 <= Remaining(text, Advance(text, monospace, font, st)) < Remaining(text, st)
  {
  }

  lemma FinishedRemaining(text: string, monospace: bool, font: Font.FontTable, st: Scroll)
    requires Inv(text, monospace, font, st)
    ensures Finished(text, st) <==> Remaining(text, st) == 0
  {
  }

  /** offset_limit is always 3, 4 or 5, and 5 in monospace mode. */
  lemma LimitRange(text: string, monospace: bool, font: Font.FontTable, st: Scroll)
    requires Inv(text, monospace, font, st)
    ensures 3 <= st.limit <= 5
    ensures monospace ==> st.limit == 5
  {
  }

  /** A repeating scroll never signals the end of the iteration. */
  lemma RepeatNeverStops(text: string, monospace: bool, font: Font.FontTable, st: Scroll)
    requires Inv(text, monospace, font, st)
    ensures NextState(text, monospace, true, font, st).Some?
  {
  }

  /** The position after k calls from st, or None if the iteration stops first. */
  function Run(text: string, monospace: bool, repeat: bool, font: Font.FontTable, st: Scroll, k: nat): (r: Option<Scroll>)
    requires Inv(text, monospace, font, st)
    ensures r.Some? ==> Inv(text, monospace, font, r.value)
    decreases k
  {
    if k == 0 then Some(st)
    else
      match NextState(text, monospace, repeat, font, st)
      case None => None
      case Some(n) => Run(text, monospace, repeat, font, n, k - 1)
  }

  /** Scrolling an empty text without repeat shows exactly five frames (the
    * blank scrolling through) and then stops. */
  lemma EmptyTextFiveFrames(monospace: bool, font: Font.FontTable)
    ensures Run([], monospace, false, font, Restart([], monospace, font), 5) == Some(Scroll(0, 5, 5, ' '))
    ensures NextState([], monospace, false, font, Scroll(0, 5, 5, ' ')).None?
  {
    var s0 := Restart([], monospace, font);
    assert NextState([], monospace, false, font, Scroll(0, 4, 5, ' ')) == Some(Scroll(0, 5, 5, ' '));
    assert Run([], monospace, false, font, Scroll(0, 4, 5, ' '), 1) == Some(Scroll(0, 5, 5, ' '));
    assert Run([], monospace, false, font, Scroll(0, 3, 5, ' '), 2) == Some(Scroll(0, 5, 5, ' '));
    assert Run([], monospace, false, font, Scroll(0, 2, 5, ' '), 3) == Some(Scroll(0, 5, 5, ' '));
    assert Run([], monospace, false, font, Scroll(0, 1, 5, ' '), 4) == Some(Scroll(0, 5, 5, ' '));
  }

  /** In monospace mode a one-character text has its glyph fully in view
    * after five frames, whatever the buffer held before. */
  lemma MonospaceGlyphInView(font: Font.FontTable, c: char, prev: Image)
    requires prev.w == Screen.W && prev.h == Screen.H
    ensures forall k :: 0 <= k <= 5 ==> Run([c], true, false, font, Restart([c], true, font), k) == Some(Scroll(0, k, 5, c))
    ensures Frame(font, Scroll(0, 4, 5, c), Frame(font, Scroll(0, 3, 5, c), Frame(font, Scroll(0, 2, 5, c),
              Frame(font, Scroll(0, 1, 5, c), Frame(font, Scroll(0, 0, 5, c), prev))))) == GlyphPic(font, c)
  {
    RunPrefix(c, font);
    var f1 := Frame(font, Scroll(0, 0, 5, c), prev);
    var f2 := Frame(font, Scroll(0, 1, 5, c), f1);
    var f3 := Frame(font, Scroll(0, 2, 5, c), f2);
    var f4 := Frame(font, Scroll(0, 3, 5, c), f3);
    var f5 := Frame(font, Scroll(0, 4, 5, c), f4);
    ColumnsScrollIn(GlyphPic(font, c), prev, f1, f2, f3, f4, f5);
  }

  /** One frame of the chain: the previous frame moved one column left and
    * column k of g coming in on the right. */
  ghost predicate ScrollsIn(g: Image, k: int, prev: Image, f: Image)
    requires g.w == Screen.W && g.h == Screen.H && prev.w == Screen.W && prev.h == Screen.H
    requires f.w == Screen.W && f.h == Screen.H && 0 <= k < Screen.W
  {
    (forall x, y :: 0 <= x < Screen.W - 1 && 0 <= y < Screen.H ==> At(f, x, y) == At(prev, x + 1, y)) &&
    (forall y :: 0 <= y < Screen.H ==> At(f, Screen.W - 1, y) == At(g, k, y))
  }

  /** Five frames bringing in columns 0 to 4 of g leave exactly g in view. */
  lemma ColumnsScrollIn(g: Image, f0: Image, f1: Image, f2: Image, f3: Image, f4: Image, f5: Image)
    requires g.w == Screen.W && g.h == Screen.H
    requires f0.w == Screen.W && f0.h == Screen.H && f1.w == Screen.W && f1.h == Screen.H
    requires f2.w == Screen.W && f2.h == Screen.H && f3.w == Screen.W && f3.h == Screen.H
    requires f4.w == Screen.W && f4.h == Screen.H && f5.w == Screen.W && f5.h == Screen.H
    requires ScrollsIn(g, 0, f0, f1) && ScrollsIn(g, 1, f1, f2) && ScrollsIn(g, 2, f2, f3)
    requires ScrollsIn(g, 3, f3, f4) && ScrollsIn(g, 4, f4, f5)
    ensures f5 == g
  {
    forall x, y | 0 <= x < Screen.W && 0 <= y < Screen.H
      ensures At(f5, x, y) == At(g, x, y)
    {
      if x == 0 {
        assert At(f5, 0, y) == At(f4, 1, y) == At(f3, 2, y) == At(f2, 3, y) == At(f1, 4, y);
      } else if x == 1 {
        assert At(f5, 1, y) == At(f4, 2, y) == At(f3, 3, y) == At(f2, 4, y);
      } else if x == 2 {
        assert At(f5, 2, y) == At(f4, 3, y) == At(f3, 4, y);
      } else if x == 3 {
        assert At(f5, 3, y) == At(f4, 4, y);
      }
    }
    Extensionality(f5, g);
  }

  lemma RunPrefix(c: char, font: Font.FontTable)
    ensures forall k :: 0 <= k <= 5 ==> Run([c], true, false, font, Restart([c], true, font), k) == Some(Scroll(0, k, 5, c))
  {
    var s0 := Restart([c], true, font);
    assert s0 == Scroll(0, 0, 5, c);
    forall k | 0 <= k <= 5
      ensures Run([c], true, false, font, s0, k) == Some(Scroll(0, k, 5, c))
    {
      RunMonospaceChar(c, font, k, 0);
    }
  }

  /** Within the one character of a monospace text the offset counts up. */
  lemma {:induction false} RunMonospaceChar(c: char, font: Font.FontTable, k: nat, o: int)
    requires 0 <= o && o + k <= 5
    ensures Run([c], true, false, font, Scroll(0, o, 5, c), k) == Some(Scroll(0, o + k, 5, c))
    decreases k
  {
    if k > 0 {
      assert NextState([c], true, false, font, Scroll(0, o, 5, c)) == Some(Scroll(0, o + 1, 5, c));
      RunMonospaceChar(c, font, k - 1, o + 1);
    }
  }

  /** scrolling_string_iterator_t: the text, its flags, the font, the one
    * frame buffer it draws into and the position fields. */
  class ScrollingIterator {
    const text: string
    const monospace: bool
    const repeat: bool
    const font: Font.FontTable
    const img: Greyscale
    var next: nat
    var offset: int
    var offsetLimit: int
    var right: char

    function State(): Scroll
      reads this
    {
      Scroll(next, offset, offsetLimit, right)
    }

    predicate Valid()
      reads this
    {
      img.Valid() && img.w == Screen.W && img.h == Screen.H && !img.readOnly &&
      Inv(text, monospace, font, State())
    }

    /** get_bitsflow_scrolling_string_iter: a fresh buffer (not cleared) and
      * the restarted position. */
    constructor (s: ScrollingString, font: Font.FontTable)
      ensures Valid() && fresh(img) && fresh(img.data)
      ensures text == s.text && monospace == s.monospace && repeat == s.repeat && this.font == font
      ensures State() == Restart(s.text, s.monospace, font)
    {
      text, monospace, repeat, this.font := s.text, s.monospace, s.repeat, font;
      img := new Greyscale.Alloc(Screen.W, Screen.H);
      new;
      RestartPosition();
    }

    /** restart. */
    method RestartPosition()
      modifies this`next, this`offset, this`offsetLimit, this`right
      ensures State() == Restart(text, monospace, font)
    {
      next := 0;
      offset := 0;
      if 0 < |text| {
        right := text[next];
        if monospace {
          offsetLimit := 5;
        } else {
          var col := Font.RightmostNonBlankColumn(Font.GlyphData(font, right));
          offsetLimit := col + 1;
        }
      } else {
        right := ' ';
        offsetLimit := 5;
      }
    }

    /** The buffer moves one column left; the rightmost column becomes 0. */
    method ShiftOut()
      requires Valid()
      modifies img.data
      ensures forall i, j :: 0 <= i < Screen.W - 1 && 0 <= j < Screen.H ==> img.data[i, j] == old(img.data[i + 1, j])
      ensures forall j :: 0 <= j < Screen.H ==> img.data[Right, j] == 0
    {
      var x := 0;
      while x < Screen.W - 1
        invariant 0 <= x <= Screen.W - 1
        invariant forall i, j :: 0 <= i < x && 0 <= j < Screen.H ==> img.data[i, j] == old(img.data[i + 1, j])
        invariant forall i, j :: x <= i < Screen.W && 0 <= j < Screen.H ==> img.data[i, j] == old(img.data[i, j])
      {
        var y := 0;
        while y < Screen.H
          invariant 0 <= y <= Screen.H
          invariant forall i, j :: 0 <= i < x && 0 <= j < Screen.H ==> img.data[i, j] == old(img.data[i + 1, j])
          invariant forall j :: 0 <= j < y ==> img.data[x, j] == old(img.data[x + 1, j])
          invariant forall i, j :: x <= i < Screen.W && 0 <= j < Screen.H && (i > x || j >= y) ==> img.data[i, j] == old(img.data[i, j])
        {
          img.data[x, y] := img.data[x + 1, y];
          y := y + 1;
        }
        x := x + 1;
      }
      var y := 0;
      while y < Screen.H
        invariant 0 <= y <= Screen.H && x == Screen.W - 1
        invariant forall i, j :: 0 <= i < x && 0 <= j < Screen.H ==> img.data[i, j] == old(img.data[i + 1, j])
        invariant forall j :: 0 <= j < y ==> img.data[x, j] == 0
      {
        img.data[x, y] := 0;
        y := y + 1;
      }
    }

    /** The rightmost column receives column offset of the glyph on the right. */
    method DrawColumn()
      requires Valid() && 0 <= offset < offsetLimit
      modifies img.data
      ensures forall i, j :: 0 <= i < Screen.W - 1 && 0 <= j < Screen.H ==> img.data[i, j] == old(img.data[i, j])
      ensures forall j :: 0 <= j < Screen.H ==>
        img.data[Right, j] == Font.FontPixel(Font.GlyphData(font, right), offset, j) * Screen.MAX
    {
      var g := Font.GlyphData(font, right);
      var x := Screen.W - 1;
      var y := 0;
      while y < Screen.H
        invariant 0 <= y <= Screen.H
        invariant forall i, j :: 0 <= i < x && 0 <= j < Screen.H ==> img.data[i, j] == old(img.data[i, j])
        invariant forall j :: 0 <= j < y ==> img.data[x, j] == Font.FontPixel(g, offset, j) * Screen.MAX
      {
        img.data[x, y] := Font.FontPixel(g, offset, y) * Screen.MAX;
        y := y + 1;
      }
    }

    /** The drawing half of a call: shift, then the new rightmost column. */
    method DrawFrame()
      requires Valid()
      modifies img.data
      ensures img.Value() == Frame(font, State(), old(img.Value()))
    {
      ghost var prev := img.Value();
      ShiftOut();
      if offset < offsetLimit {
        DrawColumn();
      }
      Extensionality(img.Value(), Frame(font, State(), prev));
    }

    /** The position half of a call: the next column, or the next character
      * once the limit is reached, and the final ++offset on the uint8_t. */
    method AdvancePosition()
      requires Valid() && !Finished(text, State())
      modifies this`next, this`offset, this`offsetLimit, this`right
      ensures State() == Advance(text, monospace, font, old(State()))
    {
      if offset < offsetLimit {
      } else if offset == offsetLimit {
        next := next + 1;
        if next == |text| {
          right := ' ';
          offsetLimit := 5;
          offset := 0;
        } else {
          right := text[next];
          var g := Font.GlyphData(font, right);
          if monospace {
            offset := Wrap8(-1);
            offsetLimit := 5;
          } else {
            var lit := Font.FontColumnNonBlank(g, 0);
            offset := Wrap8(-lit);
            var col := Font.RightmostNonBlankColumn(g);
            offsetLimit := col + 1;
          }
        }
      }
      offset := Wrap8(offset + 1);
    }

    /** bitsflow_scrolling_string_iter_next: the shared buffer holding the
      * next frame, or the end of the iteration. */
    method Next() returns (r: Option<Greyscale>)
      requires Valid()
      modifies this`next, this`offset, this`offsetLimit, this`right, img.data
      ensures Valid()
      ensures NextState(text, monospace, repeat, font, old(State())).None? ==>
        r.None? && State() == old(State()) && img.Value() == old(img.Value())
      ensures NextState(text, monospace, repeat, font, old(State())).Some? ==>
        r == Some(img) && State() == NextState(text, monospace, repeat, font, old(State())).value &&
        img.Value() == NextImage(text, monospace, repeat, font, old(State()), old(img.Value()))
    {
      if next == |text| && offset == 5 {
        if repeat {
          RestartPosition();
          img.Clear();
        } else {
          return None;
        }
      }
      DrawFrame();
      AdvancePosition();
      return Some(img);
    }
  }
}
