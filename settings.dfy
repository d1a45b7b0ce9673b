/**
 * A user's settings that the engine and the renderers read: the on/off
 * toggle, the card colours with their defaults, and the validation of a colour
 * typed into the colour form.
 */
module Settings {
  import opened Common
  import opened PyText

  /** An RGB colour as the settings store it (a tuple of three integers). */
  datatype Rgb = Rgb(r: int, g: int, b: int)

  const CHANNEL_MAX := 255

  predicate InRange(v: int)
  {
    0 <= v <= CHANNEL_MAX
  }

  predicate ValidRgb(c: Rgb)
  {
    InRange(c.r) && InRange(c.g) && InRange(c.b)
  }

  /** The built-in colour of each card type. */
  function DefaultColour(t: CardType): Rgb
  {
    match t
    case RedCard => Rgb(220, 60, 60)
    case BlueCard => Rgb(20, 125, 200)
    case AssassinCard => Rgb(50, 50, 50)
    case NeutralCard => Rgb(220, 215, 210)
  }

  /** invert_on_off: Off becomes On, anything else becomes Off. */
  function InvertOnOff(x: OnOff): (r: OnOff)
    ensures r != x
  {
    if x == Off then On else Off
  }

  /** The setting toggled twice is the setting itself. */
  lemma InvertTwice(x: OnOff)
    ensures InvertOnOff(InvertOnOff(x)) == x
  {
  }

  /** VisualSettings.get_color: the user's colour when one is set, else the card type's default. */
  function GetColor(t: CardType, colour: Option<Rgb>): (c: Rgb)
    ensures colour.Some? ==> c == colour.value
    ensures colour.None? ==> c == DefaultColour(t)
  {
    if colour.None? then DefaultColour(t) else colour.value
  }

  /** The colours a user has set, one optional entry per card type (the card colour map of the image renderer). */
  datatype Colours = Colours(red: Option<Rgb>, blue: Option<Rgb>, assassin: Option<Rgb>, neutral: Option<Rgb>)

  function ColourMap(s: Colours): map<CardType, Option<Rgb>>
  {
    map[RedCard := s.red, BlueCard := s.blue, AssassinCard := s.assassin, NeutralCard := s.neutral]
  }

  function ColourSetting(s: Colours, t: CardType): Option<Rgb>
  {
    match t
    case RedCard => s.red
    case BlueCard => s.blue
    case AssassinCard => s.assassin
    case NeutralCard => s.neutral
  }

  /**
   * Game.get_card_color: the colour the map holds for the type, or the
   * default when the map has no entry or an empty one.
   */
  function GetCardColor(t: CardType, m: map<CardType, Option<Rgb>>): (c: Rgb)
    ensures (t !in m || m[t].None?) ==> c == DefaultColour(t)
    ensures t in m && m[t].Some? ==> c == m[t].value
  {
    var entry := if t in m then m[t] else None;
    if entry.None? then DefaultColour(t) else entry.value
  }

  /** The settings message and the board image show the same colour for every card type. */
  lemma ColoursAgree(s: Colours, t: CardType)
    ensures GetCardColor(t, ColourMap(s)) == GetColor(t, ColourSetting(s, t))
  {
  }

  /** VisualSettings.ColorModal.check_color_constraints: an integer text from 0 to 255. */
  function CheckColorConstraints(text: string, colourName: string): (r: Outcome)
    ensures r == Pass <==> ParseInt(text).Some? && InRange(ParseInt(text).value)
    ensures r == Fail(ColorNotANumber(colourName, text)) <==> ParseInt(text).None?
    ensures ParseInt(text).Some? && !InRange(ParseInt(text).value) ==>
              r == Fail(ColorOutOfRange(colourName, ParseInt(text).value))
  {
    match ParseInt(text)
    case None => Fail(ColorNotANumber(colourName, text))
    case Some(v) => if v < 0 || v > CHANNEL_MAX then Fail(ColorOutOfRange(colourName, v)) else Pass
  }

  /** ColorModal.on_submit: the three values are checked red, green, blue, and the first failure is reported. */
  function SubmitColour(red: string, green: string, blue: string): Result<Rgb>
  {
    var checkR := CheckColorConstraints(red, "red");
    var checkG := CheckColorConstraints(green, "green");
    var checkB := CheckColorConstraints(blue, "blue");
    if checkR.Fail? then Err(checkR.error)
    else if checkG.Fail? then Err(checkG.error)
    else if checkB.Fail? then Err(checkB.error)
    else Ok(Rgb(ParseInt(red).value, ParseInt(green).value, ParseInt(blue).value))
  }

  /**
   * A colour is accepted exactly when all three texts are integers from 0 to
   * 255, and then it is made of those integers.
   */
  lemma SubmitColourAccepts(red: string, green: string, blue: string)
    ensures SubmitColour(red, green, blue).Ok? <==>
            && CheckColorConstraints(red, "red") == Pass
            && CheckColorConstraints(green, "green") == Pass
            && CheckColorConstraints(blue, "blue") == Pass
    ensures SubmitColour(red, green, blue).Ok? ==>
            && ValidRgb(SubmitColour(red, green, blue).value)
            && SubmitColour(red, green, blue).value
               == Rgb(ParseInt(red).value, ParseInt(green).value, ParseInt(blue).value)
    ensures CheckColorConstraints(red, "red").Fail? ==>
            SubmitColour(red, green, blue) == Err(CheckColorConstraints(red, "red").error)
  {
  }

  /** Every colour the form can produce is entered back unchanged from its printed components. */
  lemma SubmitPrintedColour(c: Rgb)
    requires ValidRgb(c)
    ensures SubmitColour(Show(c.r), Show(c.g), Show(c.b)) == Ok(c)
  {
    ParseShow(c.r);
    ParseShow(c.g);
    ParseShow(c.b);
  }

  /** With colours taken from the form, every card colour the image uses is a valid RGB value. */
  lemma CardColourValid(s: Colours, t: CardType)
    requires forall u: CardType :: ColourSetting(s, u).Some? ==> ValidRgb(ColourSetting(s, u).value)
    ensures ValidRgb(GetCardColor(t, ColourMap(s)))
  {
    assert ColourMap(s)[t] == ColourSetting(s, t);
  }
}
