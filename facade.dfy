// The string facade of display.show (bitsflow_image.c, string_image_facade_t
// and facade_iterator_t): a string seen as a sequence of glyph images, all of
// them drawn into one shared 5x5 buffer.

module Facades {
  import opened Wrappers
  import Screen
  import Font
  import opened Pictures
  import opened Images

  /** The errors of subscripting a facade. */
  datatype SubscrError =
    | IndexOutOfRange   // IndexError raised by mp_get_index
    | NotSupported      // store or delete: the subscr slot answers MP_OBJ_NULL

  /** The three uses of a subscript slot: load, store and delete. */
  datatype Subscript = Load | Store | Delete

  /** mp_get_index without slices: a negative index counts from the end, and
    * an index still outside [0, len) is an IndexError. */
  function NormalIndex(len: nat, i: int): (r: Result<nat, SubscrError>)
    ensures r.Ok? <==> 0 - len <= i < len
    ensures r.Ok? ==> r.value < len && (r.value == i || r.value == i + len)
    ensures r.Err? ==> r.error == IndexOutOfRange
  {
    var j := if i < 0 then i + len else i;
    if j < 0 || j >= len then Err(IndexOutOfRange) else Ok(j)
  }

  /** The facade over a string: its length is the string's and element i is
    * the glyph of text[i], drawn into the facade's own buffer. */
  class StringFacade {
    const text: string
    const font: Font.FontTable
    const image: Greyscale

    predicate Valid() {
      image.Valid() && image.w == Screen.W && image.h == Screen.H && !image.readOnly
    }

    /** bitsflow_string_facade: keeps the string and allocates one 5x5 buffer. */
    constructor (text: string, font: Font.FontTable)
      ensures Valid() && this.text == text && this.font == font && fresh(image) && fresh(image.data)
    {
      this.text, this.font := text, font;
      image := new Greyscale.Alloc(Screen.W, Screen.H);
    }

    /** facade_unary_op for len: the number of characters. */
    function Len(): (n: nat)
      ensures n == |text|
    {
      |text|
    }

    /** string_image_facade_subscr: loading index i draws the glyph of the
      * character it names into the shared buffer and returns that buffer. */
    method Subscr(op: Subscript, i: int) returns (r: Result<Greyscale, SubscrError>)
      requires Valid()
      modifies image.data
      ensures Valid()
      ensures op != Load ==> r == Err(NotSupported) && image.Value() == old(image.Value())
      ensures op == Load && NormalIndex(|text|, i).Err? ==> r == Err(IndexOutOfRange) && image.Value() == old(image.Value())
      ensures op == Load && NormalIndex(|text|, i).Ok? ==>
        r == Ok(image) && image.Value() == GlyphPic(font, text[NormalIndex(|text|, i).value])
    {
      if op != Load {
        return Err(NotSupported);
      }
      var index := NormalIndex(|text|, i);
      if index.Err? {
        return Err(index.error);
      }
      image.SetFromChar(font, text[index.value]);
      return Ok(image);
    }
  }

  /** The iterator over a facade: it walks the string once, redrawing the
    * facade's buffer for each character. */
  class FacadeIterator {
    const text: string
    const font: Font.FontTable
    const image: Greyscale
    var index: nat
    /** The characters whose glyphs have been produced so far. */
    ghost var shown: string

    ghost predicate Valid()
      reads this
    {
      image.Valid() && image.w == Screen.W && image.h == Screen.H && !image.readOnly
      && index <= |text| && shown == text[..index]
    }

    /** bitsflow_facade_iterator: shares the facade's string and buffer and
      * starts at the first character. */
    constructor (f: StringFacade)
      requires f.Valid()
      ensures Valid() && text == f.text && font == f.font && image == f.image
      ensures index == 0 && shown == []
    {
      text, font, image := f.text, f.font, f.image;
      index := 0;
      shown := [];
    }

    predicate Done()
      reads this
    {
      index >= |text|
    }

    /** bitsflow_facade_iter_next: past the end it stops and changes nothing;
      * otherwise it draws the glyph of the next character into the shared
      * buffer, moves on, and returns that same buffer. */
    method Next() returns (r: Option<Greyscale>)
      requires Valid()
      modifies this`index, this`shown, image.data
      ensures Valid()
      ensures old(Done()) ==> r.None? && index == old(index) && shown == old(shown) && image.Value() == old(image.Value())
      ensures !old(Done()) ==> r == Some(image) && index == old(index) + 1
      ensures !old(Done()) ==> shown == old(shown) + [text[old(index)]] && image.Value() == GlyphPic(font, text[old(index)])
    {
      if index >= |text| {
        return None;
      }
      image.SetFromChar(font, text[index]);
      shown := shown + [text[index]];
      index := index + 1;
      assert text[..index] == text[..index - 1] + [text[index - 1]];
      return Some(image);
    }
  }
}
