/** The colour resolver of colors.go: SVG colour names, `rgb(r, g, b)`,
    `#rrggbb` and `hsv(h, s, v)` strings turned into an RGB triple, black
    for anything it cannot read. */
module Colors {
  import opened Text
  import opened Strconv

  /** An RGB triple (`Color`). The components are whatever the parsers
      produce; only the named colours are sure to lie in 0..255. */
  datatype Rgb = Rgb(red: int, green: int, blue: int)

  const Black: Rgb := Rgb(0, 0, 0)

  predicate IsByteTriple(c: Rgb) {
    0 <= c.red <= 255 && 0 <= c.green <= 255 && 0 <= c.blue <= 255
  }

  /** The shape of every colour name that the resolver relies on: at least
      three characters, the first a lower-case letter and the fourth, when
      there is one, a lower-case letter too. So no `#rrggbb`, `rgb(...)` or
      `hsv(...)` string and no capitalised word is a name. */
  predicate IsNameShaped(s: string) {
    |s| >= 3 && 'a' <= s[0] <= 'z' && (|s| == 3 || 'a' <= s[3] <= 'z')
  }

  /* The `colornames` table, in the order of its entries, written as runs of
     ten joined by map union (no name occurs twice, so the union is the table
     itself). Runs of this size are small enough for the verifier to go
     through key by key. */

  /** `colornames`, lines 17-26. */
  const Names0: map<string, Rgb> := map[
    "aliceblue" := Rgb(240, 248, 255),
    "antiquewhite" := Rgb(250, 235, 215),
    "aqua" := Rgb(0, 255, 255),
    "aquamarine" := Rgb(127, 255, 212),
    "azure" := Rgb(240, 255, 255),
    "beige" := Rgb(245, 245, 220),
    "bisque" := Rgb(255, 228, 196),
    "black" := Rgb(0, 0, 0),
    "charlestongreen" := Rgb(35, 43, 43),
    "eerieblack" := Rgb(27, 27, 27)
  ]

  /** `colornames`, lines 27-36. */
  const Names1: map<string, Rgb> := map[
    "jetblack" := Rgb(52, 52, 52),
    "blanchedalmond" := Rgb(255, 235, 205),
    "blue" := Rgb(0, 0, 255),
    "blueviolet" := Rgb(138, 43, 226),
    "brown" := Rgb(165, 42, 42),
    "burlywood" := Rgb(222, 184, 135),
    "cadetblue" := Rgb(95, 158, 160),
    "chartreuse" := Rgb(127, 255, 0),
    "chocolate" := Rgb(210, 105, 30),
    "coral" := Rgb(255, 127, 80)
  ]

  /** `colornames`, lines 37-46. */
  const Names2: map<string, Rgb> := map[
    "cornflowerblue" := Rgb(100, 149, 237),
    "cornsilk" := Rgb(255, 248, 220),
    "crimson" := Rgb(220, 20, 60),
    "cyan" := Rgb(0, 255, 255),
    "darkblue" := Rgb(0, 0, 139),
    "darkcyan" := Rgb(0, 139, 139),
    "darkgoldenrod" := Rgb(184, 134, 11),
    "darkgray" := Rgb(169, 169, 169),
    "darkgreen" := Rgb(0, 100, 0),
    "darkgrey" := Rgb(169, 169, 169)
  ]

  /** `colornames`, lines 47-56. */
  const Names3: map<string, Rgb> := map[
    "darkkhaki" := Rgb(189, 183, 107),
    "darkmagenta" := Rgb(139, 0, 139),
    "darkolivegreen" := Rgb(85, 107, 47),
    "darkorange" := Rgb(255, 140, 0),
    "darkorchid" := Rgb(153, 50, 204),
    "darkred" := Rgb(139, 0, 0),
    "darksalmon" := Rgb(233, 150, 122),
    "darkseagreen" := Rgb(143, 188, 143),
    "darkslateblue" := Rgb(72, 61, 139),
    "darkslategray" := Rgb(47, 79, 79)
  ]

  /** `colornames`, lines 57-66. */
  const Names4: map<string, Rgb> := map[
    "darkslategrey" := Rgb(47, 79, 79),
    "darkturquoise" := Rgb(0, 206, 209),
    "darkviolet" := Rgb(148, 0, 211),
    "deeppink" := Rgb(255, 20, 147),
    "deepskyblue" := Rgb(0, 191, 255),
    "dimgray" := Rgb(105, 105, 105),
    "dimgrey" := Rgb(105, 105, 105),
    "dodgerblue" := Rgb(30, 144, 255),
    "firebrick" := Rgb(178, 34, 34),
    "floralwhite" := Rgb(255, 250, 240)
  ]

  /** `colornames`, lines 67-76. */
  const Names5: map<string, Rgb> := map[
    "forestgreen" := Rgb(34, 139, 34),
    "fuchsia" := Rgb(255, 0, 255),
    "gainsboro" := Rgb(220, 220, 220),
    "ghostwhite" := Rgb(248, 248, 255),
    "gold" := Rgb(255, 215, 0),
    "goldenrod" := Rgb(218, 165, 32),
    "gray" := Rgb(128, 128, 128),
    "green" := Rgb(0, 128, 0),
    "greenyellow" := Rgb(173, 255, 47),
    "grey" := Rgb(128, 128, 128)
  ]

  /** `colornames`, lines 77-86. */
  const Names6: map<string, Rgb> := map[
    "honeydew" := Rgb(240, 255, 240),
    "hotpink" := Rgb(255, 105, 180),
    "indianred" := Rgb(205, 92, 92),
    "indigo" := Rgb(75, 0, 130),
    "ivory" := Rgb(255, 255, 240),
    "khaki" := Rgb(240, 230, 140),
    "lavender" := Rgb(230, 230, 250),
    "lavenderblush" := Rgb(255, 240, 245),
    "lawngreen" := Rgb(124, 252, 0),
    "lemonchiffon" := Rgb(255, 250, 205)
  ]

  /** `colornames`, lines 87-96. */
  const Names7: map<string, Rgb> := map[
    "lightblue" := Rgb(173, 216, 230),
    "lightcoral" := Rgb(240, 128, 128),
    "lightcyan" := Rgb(224, 255, 255),
    "lightgoldenrodyellow" := Rgb(250, 250, 210),
    "lightgray" := Rgb(211, 211, 211),
    "lightgreen" := Rgb(144, 238, 144),
    "lightgrey" := Rgb(211, 211, 211),
    "lightpink" := Rgb(255, 182, 193),
    "lightsalmon" := Rgb(255, 160, 122),
    "lightseagreen" := Rgb(32, 178, 170)
  ]

  /** `colornames`, lines 97-106. */
  const Names8: map<string, Rgb> := map[
    "lightskyblue" := Rgb(135, 206, 250),
    "lightslategray" := Rgb(119, 136, 153),
    "lightslategrey" := Rgb(119, 136, 153),
    "lightsteelblue" := Rgb(176, 196, 222),
    "lightyellow" := Rgb(255, 255, 224),
    "lime" := Rgb(0, 255, 0),
    "limegreen" := Rgb(50, 205, 50),
    "linen" := Rgb(250, 240, 230),
    "magenta" := Rgb(255, 0, 255),
    "maroon" := Rgb(128, 0, 0)
  ]

  /** `colornames`, lines 107-116. */
  const Names9: map<string, Rgb> := map[
    "mediumaquamarine" := Rgb(102, 205, 170),
    "mediumblue" := Rgb(0, 0, 205),
    "mediumorchid" := Rgb(186, 85, 211),
    "mediumpurple" := Rgb(147, 112, 219),
    "mediumseagreen" := Rgb(60, 179, 113),
    "mediumslateblue" := Rgb(123, 104, 238),
    "mediumspringgreen" := Rgb(0, 250, 154),
    "mediumturquoise" := Rgb(72, 209, 204),
    "mediumvioletred" := Rgb(199, 21, 133),
    "midnightblue" := Rgb(25, 25, 112)
  ]

  /** `colornames`, lines 117-126. */
  const Names10: map<string, Rgb> := map[
    "mintcream" := Rgb(245, 255, 250),
    "mistyrose" := Rgb(255, 228, 225),
    "moccasin" := Rgb(255, 228, 181),
    "navajowhite" := Rgb(255, 222, 173),
    "navy" := Rgb(0, 0, 128),
    "oldlace" := Rgb(253, 245, 230),
    "olive" := Rgb(128, 128, 0),
    "olivedrab" := Rgb(107, 142, 35),
    "orange" := Rgb(255, 165, 0),
    "orangered" := Rgb(255, 69, 0)
  ]

  /** `colornames`, lines 127-136. */
  const Names11: map<string, Rgb> := map[
    "orchid" := Rgb(218, 112, 214),
    "palegoldenrod" := Rgb(238, 232, 170),
    "palegreen" := Rgb(152, 251, 152),
    "paleturquoise" := Rgb(175, 238, 238),
    "palevioletred" := Rgb(219, 112, 147),
    "papayawhip" := Rgb(255, 239, 213),
    "peachpuff" := Rgb(255, 218, 185),
    "peru" := Rgb(205, 133, 63),
    "pink" := Rgb(255, 192, 203),
    "plum" := Rgb(221, 160, 221)
  ]

  /** `colornames`, lines 137-146. */
  const Names12: map<string, Rgb> := map[
    "powderblue" := Rgb(176, 224, 230),
    "purple" := Rgb(128, 0, 128),
    "red" := Rgb(255, 0, 0),
    "platered" := Rgb(255, 80, 80),
    "rosybrown" := Rgb(188, 143, 143),
    "royalblue" := Rgb(65, 105, 225),
    "saddlebrown" := Rgb(139, 69, 19),
    "salmon" := Rgb(250, 128, 114),
    "sandybrown" := Rgb(244, 164, 96),
    "seagreen" := Rgb(46, 139, 87)
  ]

  /** `colornames`, lines 147-156. */
  const Names13: map<string, Rgb> := map[
    "seashell" := Rgb(255, 245, 238),
    "sienna" := Rgb(160, 82, 45),
    "silver" := Rgb(192, 192, 192),
    "skyblue" := Rgb(135, 206, 235),
    "slateblue" := Rgb(106, 90, 205),
    "slategray" := Rgb(112, 128, 144),
    "slategrey" := Rgb(112, 128, 144),
    "snow" := Rgb(255, 250, 250),
    "springgreen" := Rgb(0, 255, 127),
    "steelblue" := Rgb(70, 130, 180)
  ]

  /** `colornames`, lines 157-166. */
  const Names14: map<string, Rgb> := map[
    "tan" := Rgb(210, 180, 140),
    "teal" := Rgb(0, 128, 128),
    "thistle" := Rgb(216, 191, 216),
    "tomato" := Rgb(255, 99, 71),
    "turquoise" := Rgb(64, 224, 208),
    "violet" := Rgb(238, 130, 238),
    "wheat" := Rgb(245, 222, 179),
    "white" := Rgb(255, 255, 255),
    "whitesmoke" := Rgb(245, 245, 245),
    "yellow" := Rgb(255, 255, 0)
  ]

  /** `colornames`, lines 167-167. */
  const Names15: map<string, Rgb> := map[
    "yellowgreen" := Rgb(154, 205, 50)
  ]
  /** `colornames`: the SVG colour names and their triples. */
  const ColorNames: map<string, Rgb> :=
    Names0 + Names1 + Names2 + Names3 + Names4 + Names5 + Names6 + Names7 + Names8 + Names9 + Names10 + Names11 + Names12 + Names13 + Names14 + Names15

  /** Every name of m is name-shaped and every triple lies in 0..255. */
  predicate WellFormedTable(m: map<string, Rgb>) {
    forall k :: k in m ==> IsNameShaped(k) && IsByteTriple(m[k])
  }

  /* One lemma per run of the table keeps each proof small. */

  lemma Names0WellFormed()
    ensures WellFormedTable(Names0)
  {
  }

  lemma Names1WellFormed()
    ensures WellFormedTable(Names1)
  {
  }

  lemma Names2WellFormed()
    ensures WellFormedTable(Names2)
  {
  }

  lemma Names3WellFormed()
    ensures WellFormedTable(Names3)
  {
  }

  lemma Names4WellFormed()
    ensures WellFormedTable(Names4)
  {
  }

  lemma Names5WellFormed()
    ensures WellFormedTable(Names5)
  {
  }

  lemma Names6WellFormed()
    ensures WellFormedTable(Names6)
  {
  }

  lemma Names7WellFormed()
    ensures WellFormedTable(Names7)
  {
  }

  lemma Names8WellFormed()
    ensures WellFormedTable(Names8)
  {
  }

  lemma Names9WellFormed()
    ensures WellFormedTable(Names9)
  {
  }

  lemma Names10WellFormed()
    ensures WellFormedTable(Names10)
  {
  }

  lemma Names11WellFormed()
    ensures WellFormedTable(Names11)
  {
  }

  lemma Names12WellFormed()
    ensures WellFormedTable(Names12)
  {
  }

  lemma Names13WellFormed()
    ensures WellFormedTable(Names13)
  {
  }

  lemma Names14WellFormed()
    ensures WellFormedTable(Names14)
  {
  }

  lemma Names15WellFormed()
    ensures WellFormedTable(Names15)
  {
  }

  lemma UnionWellFormed(m1: map<string, Rgb>, m2: map<string, Rgb>)
    requires WellFormedTable(m1) && WellFormedTable(m2)
    ensures WellFormedTable(m1 + m2)
  {
  }

  /** Every colour name is name-shaped, and every named colour has its
      components in 0..255. */
  lemma ColorNamesWellFormed()
    ensures WellFormedTable(ColorNames)
  {
    Names0WellFormed();
    Names1WellFormed();
    Names2WellFormed();
    Names3WellFormed();
    Names4WellFormed();
    Names5WellFormed();
    Names6WellFormed();
    Names7WellFormed();
    Names8WellFormed();
    Names9WellFormed();
    Names10WellFormed();
    Names11WellFormed();
    Names12WellFormed();
    Names13WellFormed();
    Names14WellFormed();
    Names15WellFormed();
    UnionWellFormed(Names0, Names1);
    UnionWellFormed(Names0 + Names1, Names2);
    UnionWellFormed(Names0 + Names1 + Names2, Names3);
    UnionWellFormed(Names0 + Names1 + Names2 + Names3, Names4);
    UnionWellFormed(Names0 + Names1 + Names2 + Names3 + Names4, Names5);
    UnionWellFormed(Names0 + Names1 + Names2 + Names3 + Names4 + Names5, Names6);
    UnionWellFormed(Names0 + Names1 + Names2 + Names3 + Names4 + Names5 + Names6, Names7);
    UnionWellFormed(Names0 + Names1 + Names2 + Names3 + Names4 + Names5 + Names6 + Names7, Names8);
    UnionWellFormed(Names0 + Names1 + Names2 + Names3 + Names4 + Names5 + Names6 + Names7 + Names8, Names9);
    UnionWellFormed(Names0 + Names1 + Names2 + Names3 + Names4 + Names5 + Names6 + Names7 + Names8 + Names9, Names10);
    UnionWellFormed(Names0 + Names1 + Names2 + Names3 + Names4 + Names5 + Names6 + Names7 + Names8 + Names9 + Names10, Names11);
    UnionWellFormed(Names0 + Names1 + Names2 + Names3 + Names4 + Names5 + Names6 + Names7 + Names8 + Names9 + Names10 + Names11, Names12);
    UnionWellFormed(Names0 + Names1 + Names2 + Names3 + Names4 + Names5 + Names6 + Names7 + Names8 + Names9 + Names10 + Names11 + Names12, Names13);
    UnionWellFormed(Names0 + Names1 + Names2 + Names3 + Names4 + Names5 + Names6 + Names7 + Names8 + Names9 + Names10 + Names11 + Names12 + Names13, Names14);
    UnionWellFormed(Names0 + Names1 + Names2 + Names3 + Names4 + Names5 + Names6 + Names7 + Names8 + Names9 + Names10 + Names11 + Names12 + Names13 + Names14, Names15);
  }

  /** `colorNumbers`: the text between the four-character prefix and the last
      character, with every space and tab removed, split at the commas. The
      pieces joined back with commas give that text again. */
  function ColorNumbers(s: string): (parts: seq<string>)
    requires |s| >= 5
    ensures |parts| == Count(RemoveBlanks(s[4..|s| - 1]), ',') + 1
    ensures Join(parts, ',') == RemoveBlanks(s[4..|s| - 1])
  {
    var inner := RemoveBlanks(s[4..|s| - 1]);
    JoinSplit(inner, ',');
    Split(inner, ',')
  }

  /** Go's conversion `int(x)` of a float: the fraction dropped, toward zero. */
  function Trunc(x: real): (n: int)
    ensures x >= 0.0 ==> 0 <= n && n as real <= x < n as real + 1.0
    ensures x < 0.0 ==> n <= 0 && n as real - 1.0 < x <= n as real
  {
    if x >= 0.0 then x.Floor else -((-x).Floor)
  }

  /** `math.Abs`. */
  function Abs(x: real): (a: real)
    ensures a >= 0.0 && (a == x || a == -x)
  {
    if x < 0.0 then -x else x
  }

  /** `math.Mod(x, y)` for a positive y: what is left of x once the whole
      multiples of y that truncated division counts are taken away. For the
      two divisors `hsv2rgb` uses the remainder keeps the sign of x and is
      smaller than the divisor in size. */
  function FMod(x: real, y: real): (r: real)
    requires y > 0.0
    ensures y == 360.0 || y == 2.0 ==> (x >= 0.0 ==> 0.0 <= r < y) && (x < 0.0 ==> -y < r <= 0.0)
  {
    x - y * Trunc(x / y) as real
  }

  lemma TruncShift(q: real)
    requires q >= 0.0
    ensures Trunc(q + 1.0) == Trunc(q) + 1
  {
  }

  /** Adding a full turn to a non-negative angle leaves its remainder modulo
      360 as it was. */
  lemma FModFullTurn(x: real)
    requires x >= 0.0
    ensures FMod(x + 360.0, 360.0) == FMod(x, 360.0)
  {
    var q := x / 360.0;
    assert (x + 360.0) / 360.0 == q + 1.0;
    TruncShift(q);
  }

  /** Each of three channel levels in 0..1 scaled to 0..255 and truncated. */
  function Scaled(r: real, g: real, b: real): (c: Rgb)
    ensures 0.0 <= r <= 1.0 && 0.0 <= g <= 1.0 && 0.0 <= b <= 1.0 ==> IsByteTriple(c)
  {
    Rgb(Trunc(r * 255.0), Trunc(g * 255.0), Trunc(b * 255.0))
  }

  /** `hsv2rgb`: hue in degrees, saturation and value in percent. A
      saturation or value above 100 gives black; otherwise the colour of the
      sector the hue's remainder modulo 360 falls in. */
  function HsvToRgb(h: real, s: real, v: real): (c: Rgb)
    ensures s > 100.0 || v > 100.0 ==> c == Black
  {
    var sat := s / 100.0;
    var val := v / 100.0;
    if sat > 1.0 || val > 1.0 then Black
    else HueColor(FMod(h, 360.0) / 60.0, val * sat, val)
  }

  /** The colour of a section (the hue in sixths of a turn) for a chroma and
      a value. */
  function HueColor(section: real, chroma: real, val: real): (c: Rgb)
    ensures section < 0.0 || section > 6.0 ==> c == Black
  {
    SectorColor(section, chroma, Intermediate(section, chroma), val - chroma)
  }

  /** `x` of `hsv2rgb`: the level of the middle channel, which falls from the
      chroma to 0 and back across every two sections. For a non-negative
      section and chroma it lies between 0 and the chroma. */
  function Intermediate(section: real, chroma: real): (x: real)
    ensures 0.0 <= section && 0.0 <= chroma <= 1.0 ==> 0.0 <= x <= chroma
  {
    var f := 1.0 - Abs(FMod(section, 2.0) - 1.0);
    assert 0.0 <= section && 0.0 <= chroma <= 1.0 ==> 0.0 <= chroma * f <= chroma by {
      if 0.0 <= section && 0.0 <= chroma <= 1.0 {
        UnitProduct(chroma, f);
      }
    }
    chroma * f
  }

  /** The sector switch of `hsv2rgb`: in each sixth of the circle the
      chroma c, the intermediate x and nothing go to the three channels in a
      different order, and m is added to all three. A section outside 0..6
      gives black. */
  function SectorColor(section: real, chroma: real, x: real, m: real): (c: Rgb)
    ensures section < 0.0 || section > 6.0 ==> c == Black
  {
    if 0.0 <= section <= 1.0 then Scaled(chroma + m, x + m, m)
    else if 1.0 < section <= 2.0 then Scaled(x + m, chroma + m, m)
    else if 2.0 < section <= 3.0 then Scaled(m, chroma + m, x + m)
    else if 3.0 < section <= 4.0 then Scaled(m, x + m, chroma + m)
    else if 4.0 < section <= 5.0 then Scaled(x + m, m, chroma + m)
    else if 5.0 < section <= 6.0 then Scaled(chroma + m, m, x + m)
    else Black
  }

  /** A product of two levels in 0..1 stays in 0..1, below its first factor. */
  lemma UnitProduct(a: real, b: real)
    requires 0.0 <= a <= 1.0 && 0.0 <= b <= 1.0
    ensures 0.0 <= a * b <= a
  {
  }

  /** With saturation and value within 0..100, every channel is a byte. */
  lemma HsvToRgbBytes(h: real, s: real, v: real)
    requires 0.0 <= s <= 100.0 && 0.0 <= v <= 100.0
    ensures IsByteTriple(HsvToRgb(h, s, v))
  {
    UnitProduct(v / 100.0, s / 100.0);
    HueColorBytes(FMod(h, 360.0) / 60.0, v / 100.0 * (s / 100.0), v / 100.0);
  }

  lemma HueColorBytes(section: real, chroma: real, val: real)
    requires 0.0 <= chroma <= val <= 1.0
    ensures IsByteTriple(HueColor(section, chroma, val))
  {
    if section >= 0.0 {
      SectorBytes(section, chroma, Intermediate(section, chroma), val - chroma);
    }
  }

  /** With m and x non-negative and x <= c, m + c <= 1, every channel of a
      sector colour is a byte. */
  lemma SectorBytes(section: real, chroma: real, x: real, m: real)
    requires 0.0 <= x <= chroma && 0.0 <= m && chroma + m <= 1.0
    ensures IsByteTriple(SectorColor(section, chroma, x, m))
  {
  }

  /** A non-negative hue and the same hue one full turn further give the same colour. */
  lemma HsvFullTurn(h: real, s: real, v: real)
    requires h >= 0.0
    ensures HsvToRgb(h + 360.0, s, v) == HsvToRgb(h, s, v)
  {
    FModFullTurn(h);
    assert FMod(h + 360.0, 360.0) / 60.0 == FMod(h, 360.0) / 60.0;
  }

  /** A hue strictly between -360 and 0 keeps its sign through `math.Mod`,
      falls in no sector, and gives black. */
  lemma HsvNegativeHue(h: real, s: real, v: real)
    requires -360.0 < h < 0.0
    ensures HsvToRgb(h, s, v) == Black
  {
    assert Trunc(h / 360.0) == 0;
    assert FMod(h, 360.0) == h;
  }

  /** Without saturation every non-negative hue gives the grey of the value. */
  lemma HsvGrey(h: real, v: real)
    requires h >= 0.0 && 0.0 <= v <= 100.0
    ensures HsvToRgb(h, 0.0, v) == Rgb(Trunc(v / 100.0 * 255.0), Trunc(v / 100.0 * 255.0), Trunc(v / 100.0 * 255.0))
  {
  }

  /** Full saturation and value at 0, 120 and 240 degrees give the primaries. */
  lemma HsvPrimaries()
    ensures HsvToRgb(0.0, 100.0, 100.0) == Rgb(255, 0, 0)
    ensures HsvToRgb(120.0, 100.0, 100.0) == Rgb(0, 255, 0)
    ensures HsvToRgb(240.0, 100.0, 100.0) == Rgb(0, 0, 255)
  {
    assert Trunc(120.0 / 360.0) == 0 && Trunc(240.0 / 360.0) == 0;
    assert Trunc(2.0 / 2.0) == 1 && Trunc(4.0 / 2.0) == 2;
    assert Trunc(255.0) == 255;
  }

  /** `Colorlookup` against a table of named colours: a name of the table
      first, then `rgb(r, g, b)`, then `#rrggbb`, then `hsv(h, s, v)`, and
      black for everything else. */
  function LookupIn(names: map<string, Rgb>, s: string): (c: Rgb)
    ensures s in names ==> c == names[s]
    ensures s in names && WellFormedTable(names) ==> IsByteTriple(c)
    ensures s !in names && !HasPrefix(s, "rgb(") && !HasPrefix(s, "#") && !HasPrefix(s, "hsv(") ==>
              c == Black
  {
    if s in names then names[s]
    else if HasPrefix(s, "rgb(") && HasSuffix(s, ")") && |s| > 5 then
      var v := ColorNumbers(s);
      if |v| == 3 then Rgb(Atoi(v[0]), Atoi(v[1]), Atoi(v[2])) else Black
    else if HasPrefix(s, "#") && |s| == 7 then
      Rgb(ParseInt(s[1..3], 16, Int32), ParseInt(s[3..5], 16, Int32), ParseInt(s[5..7], 16, Int32))
    else if HasPrefix(s, "hsv(") && HasSuffix(s, ")") && |s| > 5 then
      var v := ColorNumbers(s);
      if |v| == 3 then HsvToRgb(ParseFloat(v[0]), ParseFloat(v[1]), ParseFloat(v[2])) else Black
    else Black
  }

  /** `Colorlookup` itself: the lookup against `colornames`. */
  function Lookup(s: string): (c: Rgb)
    ensures !IsNameShaped(s) && !HasPrefix(s, "rgb(") && !HasPrefix(s, "#") && !HasPrefix(s, "hsv(") ==>
              c == Black
  {
    ColorNamesWellFormed();
    LookupIn(ColorNames, s)
  }

  /** A name of the table gives its entry, and that is a byte triple. */
  lemma LookupNamed(s: string)
    requires s in ColorNames
    ensures Lookup(s) == ColorNames[s] && IsByteTriple(Lookup(s))
  {
    ColorNamesWellFormed();
  }

  /** `rgb()` is too short for the `rgb(` branch and gives black. */
  lemma LookupShortRgb()
    ensures Lookup("rgb()") == Black
  {
    var s := "rgb()";
    assert s[3] == '(';
    NotAName(s);
    assert !HasPrefix(s, "#") && !HasPrefix(s, "hsv(");
  }

  /** What is not name-shaped is not a colour name. */
  lemma NotAName(s: string)
    requires !IsNameShaped(s)
    ensures s !in ColorNames
  {
    ColorNamesWellFormed();
  }

  /** A seven-character string that starts with `#` is read as three
      base-16 pairs, each parsed as a 32-bit integer. */
  lemma LookupHash(s: string)
    requires HasPrefix(s, "#") && |s| == 7
    ensures Lookup(s) == Rgb(ParseInt(s[1..3], 16, Int32), ParseInt(s[3..5], 16, Int32), ParseInt(s[5..7], 16, Int32))
  {
    assert s[0] == s[..1][0] == '#';
    NotAName(s);
    assert !HasPrefix(s, "rgb(");
  }

  /** A seven-character `#` string gives components of at most 255; one that
      is negative comes from a pair written as a minus sign and one digit. */
  lemma LookupHexRange(s: string)
    requires HasPrefix(s, "#") && |s| == 7
    ensures -15 <= Lookup(s).red <= 255 && -15 <= Lookup(s).green <= 255 && -15 <= Lookup(s).blue <= 255
    ensures Lookup(s).red < 0 ==> s[1] == '-'
  {
    LookupHash(s);
    ParseTwoChars(s[1..3]);
    ParseTwoChars(s[3..5]);
    ParseTwoChars(s[5..7]);
  }

  /** Names are matched exactly: a string that starts with a capital letter
      is no name, and none of the other forms either, so it gives black. */
  lemma LookupIsCaseSensitive(s: string)
    requires s != [] && 'A' <= s[0] <= 'Z'
    ensures Lookup(s) == Black
  {
    Capitalised(s);
  }

  lemma Capitalised(s: string)
    requires s != [] && 'A' <= s[0] <= 'Z'
    ensures !IsNameShaped(s) && !HasPrefix(s, "rgb(") && !HasPrefix(s, "#") && !HasPrefix(s, "hsv(")
  {
    assert forall p: string :: p != [] && HasPrefix(s, p) ==> s[0] == p[0];
  }

  /** `#` followed by three lower-case hexadecimal pairs gives back the three
      byte values. */
  lemma LookupHex(r: nat, g: nat, b: nat)
    requires r < 256 && g < 256 && b < 256
    ensures Lookup("#" + HexPair(r) + HexPair(g) + HexPair(b)) == Rgb(r, g, b)
  {
    var s := "#" + HexPair(r) + HexPair(g) + HexPair(b);
    HashSlices(HexPair(r), HexPair(g), HexPair(b));
    LookupHash(s);
    ParseHexPair(r);
    ParseHexPair(g);
    ParseHexPair(b);
  }

  lemma HashSlices(x: string, y: string, z: string)
    requires |x| == 2 && |y| == 2 && |z| == 2
    ensures var s := "#" + x + y + z;
      |s| == 7 && HasPrefix(s, "#") && s[1..3] == x && s[3..5] == y && s[5..7] == z
  {
    var s := "#" + x + y + z;
    assert s[..1] == "#";
  }

  /** Only the blanks after the commas go. */
  lemma BlanksOfTriple(a: string, b: string, c: string)
    requires ' ' !in a && '\t' !in a && ' ' !in b && '\t' !in b && ' ' !in c && '\t' !in c
    ensures RemoveBlanks(a + ", " + b + ", " + c) == a + "," + b + "," + c
  {
    RemoveBlanksKeeps(a);
    RemoveBlanksKeeps(b);
    RemoveBlanksKeeps(c);
    assert RemoveBlanks(", ") == ",";
    RemoveBlanksAppend(a, ", ");
    RemoveBlanksAppend(a + ", ", b);
    RemoveBlanksAppend(a + ", " + b, ", ");
    RemoveBlanksAppend(a + ", " + b + ", ", c);
  }

  lemma JoinTriple(a: string, b: string, c: string)
    ensures Join([a, b, c], ',') == a + "," + b + "," + c
  {
    assert [a, b, c][1..] == [b, c];
    assert [b, c][1..] == [c];
    assert Join([b, c], ',') == b + [','] + c;
    assert Join([a, b, c], ',') == a + [','] + (b + [','] + c);
  }

  /** `colorNumbers` of a four-character prefix, three numbers separated by a
      comma and a space, and a closing character gives the three numbers. */
  lemma NumbersOfTriple(p: string, a: string, b: string, c: string)
    requires |p| == 4 && AllDigits(a) && AllDigits(b) && AllDigits(c)
    ensures var s := p + a + ", " + b + ", " + c + ")";
      HasPrefix(s, p) && HasSuffix(s, ")") && |s| > 5 && ColorNumbers(s) == [a, b, c]
  {
    var s := p + a + ", " + b + ", " + c + ")";
    assert s[..4] == p;
    assert s[|s| - 1..] == ")";
    assert s[4..|s| - 1] == a + ", " + b + ", " + c;
    assert ' ' !in a && '\t' !in a && ',' !in a;
    assert ' ' !in b && '\t' !in b && ',' !in b;
    assert ' ' !in c && '\t' !in c && ',' !in c;
    BlanksOfTriple(a, b, c);
    JoinTriple(a, b, c);
    SplitJoin([a, b, c], ',');
  }

  /** An `rgb(...)` string of three numbers is the three numbers' `Atoi`. */
  lemma LookupRgbForm(names: map<string, Rgb>, s: string)
    requires WellFormedTable(names)
    requires HasPrefix(s, "rgb(") && HasSuffix(s, ")") && |s| > 5 && |ColorNumbers(s)| == 3
    ensures LookupIn(names, s) == Rgb(Atoi(ColorNumbers(s)[0]), Atoi(ColorNumbers(s)[1]), Atoi(ColorNumbers(s)[2]))
  {
    assert s[3] == '(' && !IsNameShaped(s);
  }

  /** No piece of `colorNumbers` holds a space or a tab. */
  lemma ColorNumbersBlankFree(s: string)
    requires |s| >= 5
    ensures forall k :: 0 <= k < |ColorNumbers(s)| ==> ' ' !in ColorNumbers(s)[k] && '\t' !in ColorNumbers(s)[k]
  {
    var inner := RemoveBlanks(s[4..|s| - 1]);
    SplitKeepsOut(inner, ',', ' ');
    SplitKeepsOut(inner, ',', '\t');
  }

  /** An `hsv(...)` string of three numbers is `hsv2rgb` of their `ParseFloat`. */
  lemma LookupHsvForm(names: map<string, Rgb>, s: string)
    requires WellFormedTable(names)
    requires HasPrefix(s, "hsv(") && HasSuffix(s, ")") && |s| > 5 && |ColorNumbers(s)| == 3
    ensures LookupIn(names, s) ==
            HsvToRgb(ParseFloat(ColorNumbers(s)[0]), ParseFloat(ColorNumbers(s)[1]), ParseFloat(ColorNumbers(s)[2]))
  {
    assert s[3] == '(' && !IsNameShaped(s);
    assert s !in names;
    assert s[0] == 'h';
    assert !HasPrefix(s, "rgb(") && !HasPrefix(s, "#");
  }

  /** `rgb(r, g, b)` with decimal components that fit in 64 bits gives back
      the three numbers, the blanks after the commas notwithstanding. */
  lemma LookupRgb(names: map<string, Rgb>, r: nat, g: nat, b: nat)
    requires WellFormedTable(names)
    requires r <= MaxInt64 && g <= MaxInt64 && b <= MaxInt64
    ensures LookupIn(names, "rgb(" + DecimalString(r) + ", " + DecimalString(g) + ", " + DecimalString(b) + ")") == Rgb(r, g, b)
  {
    var x, y, z := DecimalString(r), DecimalString(g), DecimalString(b);
    var s := "rgb(" + x + ", " + y + ", " + z + ")";
    NumbersOfTriple("rgb(", x, y, z);
    LookupRgbForm(names, s);
    AtoiDecimal(r);
    AtoiDecimal(g);
    AtoiDecimal(b);
  }

  /** `hsv(h, s, v)` with whole-number components is `hsv2rgb` of those numbers. */
  lemma LookupHsv(names: map<string, Rgb>, h: nat, s: nat, v: nat)
    requires WellFormedTable(names)
    ensures LookupIn(names, "hsv(" + DecimalString(h) + ", " + DecimalString(s) + ", " + DecimalString(v) + ")") ==
            HsvToRgb(h as real, s as real, v as real)
  {
    var x, y, z := DecimalString(h), DecimalString(s), DecimalString(v);
    var t := "hsv(" + x + ", " + y + ", " + z + ")";
    NumbersOfTriple("hsv(", x, y, z);
    LookupHsvForm(names, t);
    ParseFloatDecimal(h);
    ParseFloatDecimal(s);
    ParseFloatDecimal(v);
  }

  /** LookupRgb for `Colorlookup` itself. */
  lemma LookupRgbDecimal(r: nat, g: nat, b: nat)
    requires r <= MaxInt64 && g <= MaxInt64 && b <= MaxInt64
    ensures Lookup("rgb(" + DecimalString(r) + ", " + DecimalString(g) + ", " + DecimalString(b) + ")") == Rgb(r, g, b)
  {
    ColorNamesWellFormed();
    LookupRgb(ColorNames, r, g, b);
  }

  /** LookupHsv for `Colorlookup` itself. */
  lemma LookupHsvDecimal(h: nat, s: nat, v: nat)
    ensures Lookup("hsv(" + DecimalString(h) + ", " + DecimalString(s) + ", " + DecimalString(v) + ")") ==
            HsvToRgb(h as real, s as real, v as real)
  {
    ColorNamesWellFormed();
    LookupHsv(ColorNames, h, s, v);
  }

  /** An `rgb(...)` string whose blank-free inside does not hold exactly two
      commas is black. */
  lemma LookupRgbArity(s: string)
    requires HasPrefix(s, "rgb(") && HasSuffix(s, ")") && |s| > 5
    requires Count(RemoveBlanks(s[4..|s| - 1]), ',') != 2
    ensures Lookup(s) == Black
  {
    assert s[3] == '(';
    NotAName(s);
  }
}
