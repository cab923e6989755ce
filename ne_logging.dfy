/** NeLogging.c: the display names of the log colours, styles, fonts and
    priorities, and the Select Graphic Rendition parameters (section 8.3.117
    of ECMA-48) the logger writes for a format. An enumeration value that no
    case of a switch names is `Unnamed`. */
module NeLogging {

  datatype Color =
    | Black | Red | Green | Yellow | Blue | Magenta | Cyan | White
    | Normal
    | DarkGrey | LightRed | LightGreen | LightYellow | LightBlue | LightMagenta | LightCyan | LightWhite
    | Unnamed

  datatype Style =
    | Normal | Bold | Dim | Italics | Underline | Blink | FastBlink | Reverse | Conceal | Strikeout
    | Fraktur | NoBold | NoBright | NoItalics | NoUnderline | NoBlink | NoReverse | Reveal | NoStrikeout
    | Frame | Circle | Overline | NoFrame | NoOverline
    | IdeoUnderline | IdeoDoubleUnderline | IdeoOverline | IdeoDoubleOverline | IdeoStress | IdeoOff
    | Unnamed

  datatype Font = Normal | Font1 | Font2 | Font3 | Font4 | Font5 | Font6 | Font7 | Font8 | Font9 | Unnamed

  datatype Priority = Debug | Normal | Warning | Error | Critical | Unnamed

  /** `struct NeLogFormat`. */
  datatype Format = Format(foreground: Color, background: Color, style: Style, font: Font)

  /** The eight colours of the base palette, in SGR order. */
  predicate Base(c: Color) {
    c.Black? || c.Red? || c.Green? || c.Yellow? || c.Blue? || c.Magenta? || c.Cyan? || c.White?
  }

  /** The bright counterpart of a base colour. */
  function Light(c: Color): (l: Color)
    requires Base(c)
    ensures !Base(l) && !l.Normal? && !l.Unnamed?
  {
    match c
    case Black => DarkGrey
    case Red => LightRed
    case Green => LightGreen
    case Yellow => LightYellow
    case Blue => LightBlue
    case Magenta => LightMagenta
    case Cyan => LightCyan
    case White => LightWhite
  }

  /** NeLogColorStr. */
  function ColorName(c: Color): (s: string)
    ensures s == "Invalid" <==> c.Unnamed?
  {
    match c
    case Black => "Black"
    case Red => "Red"
    case Green => "Green"
    case Yellow => "Yellow"
    case Blue => "Blue"
    case Magenta => "Magenta"
    case Cyan => "Cyan"
    case White => "White"
    case Normal => "Normal"
    case DarkGrey => "Dark Grey"
    case LightRed => "Light Red"
    case LightGreen => "Light Green"
    case LightYellow => "Light Yellow"
    case LightBlue => "Light Blue"
    case LightMagenta => "Light Magenta"
    case LightCyan => "Light Cyan"
    case LightWhite => "Light White"
    case Unnamed => "Invalid"
  }

  /** NeLogStyleStr. */
  function StyleName(st: Style): (s: string)
    ensures s == "Invalid" <==> st.Unnamed?
  {
    match st
    case Normal => "Normal"
    case Bold => "Bold"
    case Dim => "Dim"
    case Italics => "Italics"
    case Underline => "Underline"
    case Blink => "Blink"
    case FastBlink => "Fast Blink"
    case Reverse => "Reverse"
    case Conceal => "Conceal"
    case Strikeout => "Strikeout"
    case Fraktur => "Fraktur"
    case NoBold => "No Bold"
    case NoBright => "No Bright"
    case NoItalics => "No Italics"
    case NoUnderline => "No Underline"
    case NoBlink => "No Blink"
    case NoReverse => "No Reverse"
    case Reveal => "Reveal"
    case NoStrikeout => "No Strikeout"
    case Frame => "Frame"
    case Circle => "Circle"
    case Overline => "Overline"
    case NoFrame => "No Frame"
    case NoOverline => "No Overline"
    case IdeoUnderline => "Ideogram Underline"
    case IdeoDoubleUnderline => "Ideogram Double Underline"
    case IdeoOverline => "Ideogram Overline"
    case IdeoDoubleOverline => "Ideogram Double Overline"
    case IdeoStress => "Ideogram Stress"
    case IdeoOff => "Ideogram Off"
    case Unnamed => "Invalid"
  }

  /** The number of an alternate font, 0 for the primary one. */
  function FontNumber(fn: Font): (n: nat)
    requires !fn.Unnamed?
    ensures n <= 9 && (n == 0 <==> fn.Normal?)
  {
    match fn
    case Normal => 0
    case Font1 => 1
    case Font2 => 2
    case Font3 => 3
    case Font4 => 4
    case Font5 => 5
    case Font6 => 6
    case Font7 => 7
    case Font8 => 8
    case Font9 => 9
  }

  /** NeLogFontStr. */
  function FontName(fn: Font): (s: string)
    ensures s == "Invalid" <==> fn.Unnamed?
    ensures !fn.Unnamed? && !fn.Normal? ==> s == "Alternate " + [('0' as int + FontNumber(fn)) as char]
  {
    match fn
    case Normal => "Normal"
    case Font1 => "Alternate 1"
    case Font2 => "Alternate 2"
    case Font3 => "Alternate 3"
    case Font4 => "Alternate 4"
    case Font5 => "Alternate 5"
    case Font6 => "Alternate 6"
    case Font7 => "Alternate 7"
    case Font8 => "Alternate 8"
    case Font9 => "Alternate 9"
    case Unnamed => "Invalid"
  }

  /** NeLogPriorityStr. */
  function PriorityName(pr: Priority): (s: string)
    ensures s == "Invalid" <==> pr.Unnamed?
  {
    match pr
    case Debug => "Debug"
    case Normal => "Normal"
    case Warning => "Warning"
    case Error => "Error"
    case Critical => "Critical"
    case Unnamed => "Invalid"
  }

  /** The SGR foreground parameter of one colour. */
  function ColorCode(c: Color): (code: int)
    ensures Base(c) ==> 30 <= code <= 37
    ensures c.Normal? || c.Unnamed? ==> code == 39
    ensures !Base(c) && !c.Normal? && !c.Unnamed? ==> 90 <= code <= 97
  {
    match c
    case Black => 30
    case Red => 31
    case Green => 32
    case Yellow => 33
    case Blue => 34
    case Magenta => 35
    case Cyan => 36
    case White => 37
    case Normal => 39
    case DarkGrey => 90
    case LightRed => 91
    case LightGreen => 92
    case LightYellow => 93
    case LightBlue => 94
    case LightMagenta => 95
    case LightCyan => 96
    case LightWhite => 97
    case Unnamed => 39
  }

  /** NeForegroundIndex: the parameter of the format's foreground colour. */
  function ForegroundIndex(fmt: Format): (code: int)
    ensures 30 <= code <= 37 || code == 39 || 90 <= code <= 97
    ensures code == 39 <==> fmt.foreground.Normal? || fmt.foreground.Unnamed?
  {
    ColorCode(fmt.foreground)
  }

  /** NeBackgroundIndex: the foreground parameter of the background colour,
      plus 10. */
  function BackgroundIndex(fmt: Format): (code: int)
    ensures 40 <= code <= 47 || code == 49 || 100 <= code <= 107
    ensures code == 49 <==> fmt.background.Normal? || fmt.background.Unnamed?
  {
    ForegroundIndex(Format(fmt.background, Color.Normal, Style.Normal, Font.Normal)) + 10
  }

  /** NeStyleIndex. */
  function StyleIndex(fmt: Format): (code: int)
    ensures 0 <= code <= 9 || 20 <= code <= 25 || 27 <= code <= 29 || 51 <= code <= 55 || 60 <= code <= 65
    ensures code == 0 <==> fmt.style.Normal? || fmt.style.Unnamed?
  {
    match fmt.style
    case Normal => 0
    case Bold => 1
    case Dim => 2
    case Italics => 3
    case Underline => 4
    case Blink => 5
    case FastBlink => 6
    case Reverse => 7
    case Conceal => 8
    case Strikeout => 9
    case Fraktur => 20
    case NoBold => 21
    case NoBright => 22
    case NoItalics => 23
    case NoUnderline => 24
    case NoBlink => 25
    case NoReverse => 27
    case Reveal => 28
    case NoStrikeout => 29
    case Frame => 51
    case Circle => 52
    case Overline => 53
    case NoFrame => 54
    case NoOverline => 55
    case IdeoUnderline => 60
    case IdeoDoubleUnderline => 61
    case IdeoOverline => 62
    case IdeoDoubleOverline => 63
    case IdeoStress => 64
    case IdeoOff => 65
    case Unnamed => 0
  }

  /** NeFontIndex. */
  function FontIndex(fmt: Format): (code: int)
    ensures 10 <= code <= 19
    ensures !fmt.font.Unnamed? ==> code == 10 + FontNumber(fmt.font)
    ensures fmt.font.Unnamed? ==> code == 10
  {
    match fmt.font
    case Normal => 10
    case Font1 => 11
    case Font2 => 12
    case Font3 => 13
    case Font4 => 14
    case Font5 => 15
    case Font6 => 16
    case Font7 => 17
    case Font8 => 18
    case Font9 => 19
    case Unnamed => 10
  }

  /** Reading an SGR foreground parameter back as a colour. */
  function ColorOfCode(code: int): Color {
    if code == 30 then Black else if code == 31 then Red else if code == 32 then Green
    else if code == 33 then Yellow else if code == 34 then Blue else if code == 35 then Magenta
    else if code == 36 then Cyan else if code == 37 then White else if code == 39 then Color.Normal
    else if code == 90 then DarkGrey else if code == 91 then LightRed else if code == 92 then LightGreen
    else if code == 93 then LightYellow else if code == 94 then LightBlue else if code == 95 then LightMagenta
    else if code == 96 then LightCyan else if code == 97 then LightWhite else Color.Unnamed
  }

  /** Every named colour gets its own parameter: reading it back gives the
      colour, so no two named colours share one. */
  lemma ColorCodeRoundTrip(c: Color)
    requires !c.Unnamed?
    ensures ColorOfCode(ColorCode(c)) == c
  {
  }

  /** A bright colour's parameter is its base colour's plus 60. */
  lemma LightIsBasePlus60(c: Color)
    requires Base(c)
    ensures ColorCode(Light(c)) == ColorCode(c) + 60
  {
  }

  /** The background parameters of the base colours are 40 to 47, in the
      same order as the foreground ones. */
  lemma BackgroundOfBase(c: Color, fg: Color, st: Style, fn: Font)
    requires Base(c)
    ensures BackgroundIndex(Format(fg, c, st, fn)) == ForegroundIndex(Format(c, fg, st, fn)) + 10
    ensures 40 <= BackgroundIndex(Format(fg, c, st, fn)) <= 47
  {
  }

  /** Reading an SGR rendition parameter back as a style. */
  function StyleOfCode(code: int): Style {
    if code == 0 then Style.Normal else if code == 1 then Bold else if code == 2 then Dim
    else if code == 3 then Italics else if code == 4 then Underline else if code == 5 then Blink
    else if code == 6 then FastBlink else if code == 7 then Reverse else if code == 8 then Conceal
    else if code == 9 then Strikeout else if code == 20 then Fraktur else if code == 21 then NoBold
    else if code == 22 then NoBright else if code == 23 then NoItalics else if code == 24 then NoUnderline
    else if code == 25 then NoBlink else if code == 27 then NoReverse else if code == 28 then Reveal
    else if code == 29 then NoStrikeout else if code == 51 then Frame else if code == 52 then Circle
    else if code == 53 then Overline else if code == 54 then NoFrame else if code == 55 then NoOverline
    else if code == 60 then IdeoUnderline else if code == 61 then IdeoDoubleUnderline
    else if code == 62 then IdeoOverline else if code == 63 then IdeoDoubleOverline
    else if code == 64 then IdeoStress else if code == 65 then IdeoOff else Style.Unnamed
  }

  /** Every named style gets its own parameter. */
  lemma StyleCodeRoundTrip(fmt: Format)
    requires !fmt.style.Unnamed?
    ensures StyleOfCode(StyleIndex(fmt)) == fmt.style
  {
  }

  /** Every named font gets its own parameter. */
  lemma FontCodeRoundTrip(fmt: Format, other: Format)
    requires !fmt.font.Unnamed? && !other.font.Unnamed?
    ensures FontIndex(fmt) == FontIndex(other) <==> fmt.font == other.font
  {
  }

  /** No two colours share a display name. */
  lemma ColorNamesDistinct(c: Color, d: Color)
    ensures ColorName(c) == ColorName(d) <==> c == d
  {
  }

  /** No two priorities share a display name. */
  lemma PriorityNamesDistinct(p: Priority, q: Priority)
    ensures PriorityName(p) == PriorityName(q) <==> p == q
  {
  }

  /** No two fonts share a display name. */
  lemma FontNamesDistinct(f: Font, g: Font)
    ensures FontName(f) == FontName(g) <==> f == g
  {
  }
}
