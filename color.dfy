/**
 * Color: an (R, G, B) triple, unclamped while light is accumulated. Only the
 * final conversion to channel integers clamps, and only from above.
 */
module Colors {
  import opened Float32

  datatype Color = Color(R: real, G: real, B: real)

  /** Color.Times(float, Color): scales every channel. */
  function Scale(n: real, v: Color): (r: Color)
    ensures r.R == n * v.R && r.G == n * v.G && r.B == n * v.B
  {
    Color(n * v.R, n * v.G, n * v.B)
  }

  /** Color.Times(Color, Color): channelwise product, a surface colour filtering light. */
  function Times(v1: Color, v2: Color): (r: Color)
    ensures r.R == v1.R * v2.R && r.G == v1.G * v2.G && r.B == v1.B * v2.B
  {
    Color(v1.R * v2.R, v1.G * v2.G, v1.B * v2.B)
  }

  function Plus(v1: Color, v2: Color): (r: Color)
    ensures r.R == v1.R + v2.R && r.G == v1.G + v2.G && r.B == v1.B + v2.B
  {
    Color(v1.R + v2.R, v1.G + v2.G, v1.B + v2.B)
  }

  function Minus(v1: Color, v2: Color): (r: Color)
    ensures r.R == v1.R - v2.R && r.G == v1.G - v2.G && r.B == v1.B - v2.B
  {
    Color(v1.R - v2.R, v1.G - v2.G, v1.B - v2.B)
  }

  const Background := Color(0.0, 0.0, 0.0)
  const DefaultColor := Color(0.0, 0.0, 0.0)
  const Black := Color(0.0, 0.0, 0.0)
  const White := Color(1.0, 1.0, 1.0)
  const Grey := Color(0.5, 0.5, 0.5)

  /** Clamps from above only: values over 1 become 1, negative values pass through. */
  function Legalize(d: real): (r: real)
    ensures r <= 1.0
    ensures d > 1.0 ==> r == 1.0
    ensures d <= 1.0 ==> r == d
  {
    if d > 1.0 then 1.0 else d
  }

  /**
   * One argument of Color.FromArgb: `(int)(Legalize(c) * 255)`, truncated
   * toward zero. It is negative exactly when `c * 255 <= -1`: a slightly
   * negative channel truncates to 0.
   */
  function Channel(c: real): (n: int)
    ensures n <= 255
    ensures 0 <= n <==> c * 255.0 > -1.0
    ensures c >= 1.0 ==> n == 255
  {
    Truncate(Legalize(c) * 255.0)
  }

  /** A System.Drawing.Color, or the ArgumentException that FromArgb throws. */
  datatype DrawingColor = Argb(A: int, R: int, G: int, B: int) | ArgumentException

  /** Color.FromArgb(red, green, blue): opaque colour, throwing for any argument outside 0..255. */
  function FromArgb(red: int, green: int, blue: int): (d: DrawingColor)
    ensures d.Argb? <==> 0 <= red <= 255 && 0 <= green <= 255 && 0 <= blue <= 255
    ensures d.Argb? ==> d.A == 255 && d.R == red && d.G == green && d.B == blue
  {
    if 0 <= red <= 255 && 0 <= green <= 255 && 0 <= blue <= 255
    then Argb(255, red, green, blue)
    else ArgumentException
  }

  /**
   * ToDrawingColor: FromArgb of the three channels. It throws exactly when some
   * channel is at or below -1/255, since Legalize clamps only from above.
   */
  function ToDrawingColor(c: Color): (d: DrawingColor)
    ensures d.Argb? <==> c.R * 255.0 > -1.0 && c.G * 255.0 > -1.0 && c.B * 255.0 > -1.0
    ensures d.Argb? ==> 0 <= d.R <= 255 && 0 <= d.G <= 255 && 0 <= d.B <= 255 && d.A == 255
    ensures d.Argb? && c.R >= 1.0 ==> d.R == 255
    ensures d.Argb? && c.G >= 1.0 ==> d.G == 255
    ensures d.Argb? && c.B >= 1.0 ==> d.B == 255
  {
    FromArgb(Channel(c.R), Channel(c.G), Channel(c.B))
  }

  /** Background is the identity of Plus; White is the identity of Times; Minus undoes Plus. */
  lemma ColorIdentities(c: Color, d: Color)
    ensures Plus(c, Background) == c && Plus(Background, c) == c
    ensures Times(c, White) == c && Scale(1.0, c) == c
    ensures Minus(Plus(c, d), d) == c
  {
  }

  /** The three black constants are one colour; Grey is White scaled by one half. */
  lemma NamedConstants()
    ensures Background == DefaultColor == Black
    ensures Grey == Scale(0.5, White)
  {
  }

  lemma LegalizeIdempotent(d: real)
    ensures Legalize(Legalize(d)) == Legalize(d)
  {
  }

  /**
   * Negative channels are not clamped: a channel of -1 reaches FromArgb as
   * -255, which throws, while -0.001 truncates to 0 and is accepted.
   */
  lemma NegativeChannelThrows()
    ensures Channel(-1.0) == -255
    ensures ToDrawingColor(Color(-1.0, 0.0, 0.0)) == ArgumentException
    ensures ToDrawingColor(Color(-0.001, 0.0, 0.0)) == Argb(255, 0, 0, 0)
  {
  }
}
