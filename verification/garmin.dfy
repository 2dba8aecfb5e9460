/** The Garmin GPX extension colours of GPX1_1/GarminExtensions.cs: the
    DisplayColor_t enumeration of the extension schema, the System.Drawing
    colours it is converted to, and the derived Color properties of the route
    and track extensions. */
module Garmin {

  /** DisplayColor_t.  A .NET enum variable can hold any integer of the
      underlying type; `Unlisted` stands for every value that is not one of the
      declared members. */
  datatype DisplayColor =
    | Black | DarkRed | DarkGreen | DarkYellow | DarkBlue | DarkMagenta | DarkCyan
    | LightGray | DarkGray | Red | Green | Yellow | Blue | Magenta | Cyan | White
    | Transparent
    | Unlisted(code: int)

  /** The System.Drawing named colours the conversion can produce. */
  datatype Color =
    | CBlack | CBlue | CCyan | CDarkBlue | CDarkCyan | CDarkGray | CDarkGreen
    | CDarkMagenta | CDarkRed | CDarkGoldenrod | CGreen | CLightGray | CMagenta
    | CRed | CTransparent | CWhite | CYellow

  /** The member name of a declared DisplayColor_t value. */
  function DisplayColorName(c: DisplayColor): string
    requires !c.Unlisted?
  {
    match c
    case Black => "Black"
    case DarkRed => "DarkRed"
    case DarkGreen => "DarkGreen"
    case DarkYellow => "DarkYellow"
    case DarkBlue => "DarkBlue"
    case DarkMagenta => "DarkMagenta"
    case DarkCyan => "DarkCyan"
    case LightGray => "LightGray"
    case DarkGray => "DarkGray"
    case Red => "Red"
    case Green => "Green"
    case Yellow => "Yellow"
    case Blue => "Blue"
    case Magenta => "Magenta"
    case Cyan => "Cyan"
    case White => "White"
    case Transparent => "Transparent"
  }

  /** The name of a System.Drawing named colour. */
  function ColorName(k: Color): string
  {
    match k
    case CBlack => "Black"
    case CBlue => "Blue"
    case CCyan => "Cyan"
    case CDarkBlue => "DarkBlue"
    case CDarkCyan => "DarkCyan"
    case CDarkGray => "DarkGray"
    case CDarkGreen => "DarkGreen"
    case CDarkMagenta => "DarkMagenta"
    case CDarkRed => "DarkRed"
    case CDarkGoldenrod => "DarkGoldenrod"
    case CGreen => "Green"
    case CLightGray => "LightGray"
    case CMagenta => "Magenta"
    case CRed => "Red"
    case CTransparent => "Transparent"
    case CWhite => "White"
    case CYellow => "Yellow"
  }

  /** ConvertColor: each declared member becomes the colour of the same name,
      except DarkYellow, which has no System.Drawing namesake and becomes
      DarkGoldenrod; any other value falls through to Black. */
  function ConvertColor(c: DisplayColor): (r: Color)
    ensures c == DarkYellow ==> r == CDarkGoldenrod
    ensures c.Unlisted? ==> r == CBlack
  {
    match c
    case Black => CBlack
    case Blue => CBlue
    case Cyan => CCyan
    case DarkBlue => CDarkBlue
    case DarkCyan => CDarkCyan
    case DarkGray => CDarkGray
    case DarkGreen => CDarkGreen
    case DarkMagenta => CDarkMagenta
    case DarkRed => CDarkRed
    case DarkYellow => CDarkGoldenrod
    case Green => CGreen
    case LightGray => CLightGray
    case Magenta => CMagenta
    case Red => CRed
    case Transparent => CTransparent
    case White => CWhite
    case Yellow => CYellow
    case Unlisted(_) => CBlack
  }

  /** The declared member a named colour comes from: the inverse of the
      conversion. */
  function Member(k: Color): (c: DisplayColor)
    ensures !c.Unlisted?
  {
    match k
    case CBlack => Black
    case CBlue => Blue
    case CCyan => Cyan
    case CDarkBlue => DarkBlue
    case CDarkCyan => DarkCyan
    case CDarkGray => DarkGray
    case CDarkGreen => DarkGreen
    case CDarkMagenta => DarkMagenta
    case CDarkRed => DarkRed
    case CDarkGoldenrod => DarkYellow
    case CGreen => Green
    case CLightGray => LightGray
    case CMagenta => Magenta
    case CRed => Red
    case CTransparent => Transparent
    case CWhite => White
    case CYellow => Yellow
  }

  /** Each declared member other than DarkYellow becomes the colour of the
      same name. */
  lemma ConvertColorKeepsName(c: DisplayColor)
    ensures !c.Unlisted? && c != DarkYellow ==> ColorName(ConvertColor(c)) == DisplayColorName(c)
  {
    match c
    case Black =>
    case DarkRed =>
    case DarkGreen =>
    case DarkYellow =>
    case DarkBlue =>
    case DarkMagenta =>
    case DarkCyan =>
    case LightGray =>
    case DarkGray =>
    case Red =>
    case Green =>
    case Yellow =>
    case Blue =>
    case Magenta =>
    case Cyan =>
    case White =>
    case Transparent =>
    case Unlisted(_) =>
  }

  /** Member undoes the conversion on the declared members. */
  lemma MemberUndoesConvert(c: DisplayColor)
    ensures !c.Unlisted? ==> Member(ConvertColor(c)) == c
  {
  }

  /** The conversion undoes Member on every colour. */
  lemma ConvertUndoesMember(k: Color)
    ensures ConvertColor(Member(k)) == k
  {
  }

  /** On the declared members the conversion loses nothing: distinct members
      give distinct colours, and every named colour is reached. */
  lemma ConvertColorBijective(a: DisplayColor, b: DisplayColor, k: Color)
    requires !a.Unlisted? && !b.Unlisted?
    ensures ConvertColor(a) == ConvertColor(b) ==> a == b
    ensures exists c: DisplayColor :: !c.Unlisted? && ConvertColor(c) == k
  {
    MemberUndoesConvert(a);
    MemberUndoesConvert(b);
    ConvertUndoesMember(k);
  }

  /** RouteExtension_t and TrackExtension_t, reduced to their DisplayColor. */
  datatype RouteExtension = RouteExtension(displayColor: DisplayColor)

  datatype TrackExtension = TrackExtension(displayColor: DisplayColor)

  /** RouteExtension_t.Color: the converted DisplayColor. */
  function RouteColor(e: RouteExtension): (r: Color)
    ensures e.displayColor.Unlisted? ==> r == CBlack
    ensures e.displayColor == DarkYellow ==> r == CDarkGoldenrod
    ensures !e.displayColor.Unlisted? && e.displayColor != DarkYellow ==>
              ColorName(r) == DisplayColorName(e.displayColor)
  {
    ConvertColorKeepsName(e.displayColor);
    ConvertColor(e.displayColor)
  }

  /** TrackExtension_t.Color: the same conversion as for a route extension
      of the same DisplayColor. */
  function TrackColor(e: TrackExtension): (r: Color)
    ensures e.displayColor.Unlisted? ==> r == CBlack
    ensures e.displayColor == DarkYellow ==> r == CDarkGoldenrod
    ensures !e.displayColor.Unlisted? && e.displayColor != DarkYellow ==>
              ColorName(r) == DisplayColorName(e.displayColor)
  {
    RouteColor(RouteExtension(e.displayColor))
  }
}
