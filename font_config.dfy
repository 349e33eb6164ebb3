/** FontConfig and TextTexture (FontConfig.h): the key of the rendered
    text cache and its value. The key orders by text, then colour, then
    scale. */
module Fonts {
  import Colors

  /** A text as its bytes; std::string compares them as unsigned char. */
  type Text = seq<Colors.Byte>

  /** std::string operator<: lexicographic, a proper prefix first. */
  function TextLess(a: Text, b: Text): bool
  {
    if a == [] then b != []
    else if b == [] then false
    else if a[0] != b[0] then a[0] < b[0]
    else TextLess(a[1..], b[1..])
  }

  /** The text order is a strict total order. */
  lemma {:induction false} TextLessTotal(a: Text, b: Text)
    ensures !TextLess(a, a)
    ensures TextLess(a, b) ==> !TextLess(b, a)
    ensures TextLess(a, b) || TextLess(b, a) || a == b
  {
    if a != [] {
      TextLessTotal(a[1..], a[1..]);
    }
    if a != [] && b != [] {
      TextLessTotal(a[1..], b[1..]);
      if a[0] == b[0] && a[1..] == b[1..] {
        assert a == [a[0]] + a[1..] && b == [b[0]] + b[1..];
      }
    }
  }

  lemma {:induction false} TextLessTransitive(a: Text, b: Text, c: Text)
    requires TextLess(a, b) && TextLess(b, c)
    ensures TextLess(a, c)
  {
    if a != [] && a[0] == b[0] && b[0] == c[0] {
      TextLessTransitive(a[1..], b[1..], c[1..]);
    }
  }

  /** The scale is a float in the source; here a real. */
  datatype FontConfig = FontConfig(text: Text, color: Colors.Color, scale: real)

  /** operator==: text, colour and scale all equal. */
  function Equal(a: FontConfig, f: FontConfig): (res: bool)
    ensures res <==> a == f
  {
    a.text == f.text && Colors.Equal(a.color, f.color) && a.scale == f.scale
  }

  /** operator<: by text, then colour, then scale. */
  function Less(a: FontConfig, f: FontConfig): bool
  {
    if a.text != f.text then TextLess(a.text, f.text)
    else if !Colors.Equal(a.color, f.color) then Colors.Less(a.color, f.color)
    else a.scale < f.scale
  }

  /** < is a strict total order consistent with ==, as std::map needs of
      its key: irreflexive, and exactly one of a < f, f < a and a == f. */
  lemma LessTotal(a: FontConfig, f: FontConfig)
    ensures !Less(a, a)
    ensures Less(a, f) ==> !Less(f, a)
    ensures Less(a, f) || Less(f, a) || Equal(a, f)
  {
    TextLessTotal(a.text, f.text);
    TextLessTotal(a.text, a.text);
    Colors.LessTotal(a.color, f.color);
  }

  lemma LessTransitive(a: FontConfig, b: FontConfig, c: FontConfig)
    requires Less(a, b) && Less(b, c)
    ensures Less(a, c)
  {
    TextLessTotal(a.text, b.text);
    TextLessTotal(b.text, c.text);
    TextLessTotal(a.text, c.text);
    if a.text != b.text && b.text != c.text {
      TextLessTransitive(a.text, b.text, c.text);
    }
    if a.text == b.text == c.text && a.color != b.color && b.color != c.color {
      Colors.LessTransitive(a.color, b.color, c.color);
    }
    Colors.LessTotal(a.color, c.color);
  }

  /** unsigned int. */
  newtype UInt32 = x: int | 0 <= x < 0x1_0000_0000

  /** TextTexture: a rendered texture, held through a shared pointer the
      model leaves abstract, with its width and height. */
  datatype TextTexture<Texture> = TextTexture(texture: Texture, width: UInt32, height: UInt32)

  /** The TextTexture constructor. An integer passed for the width or the
      height is converted to unsigned int, which reduces it modulo 2^32. */
  function NewTextTexture<Texture>(t: Texture, w: int, h: int): (r: TextTexture<Texture>)
    ensures r.texture == t
    ensures (r.width as int - w) % 0x1_0000_0000 == 0 && (r.height as int - h) % 0x1_0000_0000 == 0
    ensures 0 <= w < 0x1_0000_0000 ==> r.width as int == w
    ensures 0 <= h < 0x1_0000_0000 ==> r.height as int == h
  {
    TextTexture(t, (w % 0x1_0000_0000) as UInt32, (h % 0x1_0000_0000) as UInt32)
  }
}
