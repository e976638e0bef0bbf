# zml in Dafny

zml turns a small text language into a sequence diagram. A ZML document
is a sequence of lines:

- An optional first line `title: ...` gives the title.
- The other lines are relations such as `A -> B: label` or `[B]--[A]`.
- Empty lines and lines starting with `#` or `//` are skipped.

Each relation adds its two element names to the diagram, without
duplicates and in first-mention order. It then adds an edge between them,
which is directional when the dashes end in `>`.

Rendering works in two steps:

- Each element gets a box in its own slot across the canvas, with a
  lifeline below it.
- Each edge is drawn on its own row, in order, from the lifeline of its
  source to that of its target. It gets an arrow head when it is
  directional and a label when it has one.

Colours are given as SVG names, `rgb(r, g, b)`, `#rrggbb` or
`hsv(h, s, v)`. Anything the resolver cannot read gives black.

The project has seven modules:

- `Zml` (diagram.dfy) models the `Diagram` object of zml.go as a class.
  Its fields are the elements, the edges, the rendered elements, the map
  from names to box corners, the title and the file name.
  - `AddElements`, the two connection adders, `SetTitle`, `ProcessData`
    and the render passes are methods with the loops of the source.
  - Each method is proved to end in the state a function on values
    describes.
  - Every method keeps the invariant `Valid`. It says that names are
    distinct, that edges join elements of the diagram, that the rendered
    elements are a prefix of the elements, and that every rendered name
    has a box on the top row.
- `Script` (script.dfy) holds those functions for parsing: `ParseLine`,
  `Connect`, `ApplyLines`, `TitleOf` and `BodyLines`. It also holds what
  is proved about them.
- `Patterns` (patterns.dfy) contains the two regular expressions of
  `ProcessData`, written out as matchers. Each is proved to report a match
  exactly when the pattern matches. Each is also proved to return the
  groups of the match that Go's leftmost-first (backtracking) semantics
  prefers. That match is defined independently as the greatest of all
  matches.
- `Graph` (graph.dfy) holds the element and edge values and the name
  bookkeeping: deduplicating append and lookup by name.
- `Layout` (layout.dfy) holds the coordinate arithmetic of `renderTitle`,
  `renderElemenets`, `drawNode` and `renderConnections`, in exact reals.
  Text extents are inputs.
- `Colors` (colors.dfy) holds `Colorlookup`, `colorNumbers`, `hsv2rgb` and
  the `colornames` table.
  - `Strconv` (strconv.dfy) holds the parts of Go's `strconv` that the
    colour resolver relies on.
  - `Text` (text.dfy) holds the parts of Go's `strings` package and of
    RE2's character classes that the parser and the resolver rely on.

Where the prose description of zml and its code differ, the model follows
the code:

- **Label.** A label keeps the space that follows the colon:
  `A-->B: hi` gives the label `" hi"`, not `"hi"`.
  `Script.ParseDirectionalExample` states this.
- **Title.** The title is the captured group, stored untrimmed.
- **Edges.** An edge holds copies of its two elements, not their names.
- **Vertical positions.** The title and the top boxes are placed from the
  package constant `height` (1000), not from the height passed to
  `Render`. So the title is always at y = 50 and the top boxes at y = 100.

## Model

| member | source | states |
|---|---|---|
| Zml.Diagram.constructor | zml.go:49-56 | a new diagram has no elements, edges, rendered elements, boxes or title, and keeps the file name; it satisfies the invariant |
| Zml.Diagram.AddElements | zml.go:263-283 | keeps the invariant; the elements become AddNames of the old elements and the names: each name in argument order is appended as a rectangle unless an element of that name is there; no other field changes |
| Zml.HasName | zml.go:266-275 | the inner scan of AddElemenets and renderElemenets reports true exactly when the name is among the element names |
| Zml.Diagram.FindEnds | zml.go:289-296 | the lookup loop finds an element for each name exactly when the name is present, and keeps the last element of that name |
| Zml.Diagram.AddDirectionalConnection | zml.go:286-309 | keeps the invariant; with both names present (otherwise the source panics), exactly one directional edge between the found elements, with the label, is appended; nothing else changes |
| Zml.Diagram.AddConnection | zml.go:312-332 | keeps the invariant; succeeds exactly when both names are present, and then appends exactly one non-directional edge with the label; on the error it leaves the edges unchanged; elements, title and render state never change |
| Zml.Diagram.SetTitle | zml.go:335-340 | keeps the invariant; the title becomes the argument and nothing else changes |
| Zml.Diagram.ProcessData | zml.go:380-414 | keeps the invariant; sets the title exactly when the first line matches the title pattern; the elements and edges become ApplyLines of the old ones over the remaining lines (the first line included when it was no title) |
| Zml.Diagram.AddLines | zml.go:393-413 | keeps the invariant; the line loop leaves the elements and edges as ApplyLines of the old ones over the lines, in order |
| Zml.Diagram.AddRelation | zml.go:397-411 | keeps the invariant; adding both names and then the edge gives Connect of the old contents, the directional adder never being called with a missing name |
| Zml.AddNamesConsistent | zml.go:263-283 | adding names keeps the invariant: distinct names, edges between elements, rendered prefix, boxes for rendered names |
| Zml.ConnectConsistent | zml.go:286-332 | appending an edge between the elements of two present names keeps the invariant |
| Zml.ApplyLinesConsistent | zml.go:393-413 | whatever lines are read, the invariant holds afterwards |
| Zml.RenderPass | zml.go:159-200 | the element loop renders RenderedAfter of the elements, records PlaceAll box corners for the newly rendered ones and draws PlaceNodes for them |
| Zml.PlaceNext | zml.go:167-184 | one iteration adds the element's box corner under its name and its node placement after those of the elements before it |
| Zml.RenderPassConsistent | zml.go:158-201 | a pass from no rendered elements, or one that stops at once, keeps the invariant |
| Zml.Slot | zml.go:167 | the slot width is a whole number between 0 and the canvas width, and for elements present the slots fill the canvas as far as whole pixels allow |
| Zml.Diagram.RenderElements | zml.go:158-201 | keeps the invariant; the rendered list and the box map become the outcome of the pass; elements, edges and title do not change |
| Zml.Diagram.RenderConnections | zml.go:203-260 | the i-th edge gets PlaceEdge on row i, one placement per edge, in order |
| Zml.Diagram.Render | zml.go:59-74 | keeps the invariant; the canvas has the magnitude of the truncated size (a negative size counts by its magnitude) and the looked-up background; the title, elements and edges are placed as renderTitle, renderElemenets and renderConnections compute on that canvas width; the file is the file name with `.png` appended |
| Zml.Magnitude | zml.go:60 | a side of the canvas `gg.NewContext` makes is the given size or its negation, never negative |
| Graph.AddName | zml.go:265-281 | one name: present names add nothing, a new name is appended as a rectangle, and the name is present afterwards |
| Graph.AddNames | zml.go:263-283 | the old elements are a prefix of the new; every argument name is present; every new element is a rectangle whose name is an argument and was not there before |
| Graph.AddNamesDistinct | zml.go:263-283 | the element list never holds two equal names |
| Graph.AddNamesAppend | zml.go:263-283 | adding a + b is adding a, then b |
| Graph.AddNamesPresent | zml.go:266-275 | names all present already add nothing |
| Graph.AddNamesIdempotent | zml.go:263-283 | adding the same names twice is adding them once |
| Graph.AddNamesFirstOccurrence | zml.go:263-283 | adding "A", "B", "A" to nothing gives A then B |
| Graph.FindLast | zml.go:289-296 | an element is found exactly when the name is present, and it is an element of that name |
| Graph.FindLastDistinct | zml.go:289-296 | with distinct names the element found is the one at the name's position |
| Patterns.FindTitle | zml.go:383-384 | a span the matcher returns is a match of the title pattern |
| Patterns.MatchTitle | zml.go:383-387 | a captured title is non-empty and made of word, blank, `.`, `,` and `-` characters |
| Patterns.TitleMatchForced | zml.go:383 | every match agrees with the greedy reading on the `[`, the `]` and the colon, and its blanks after the colon are no longer |
| Patterns.FindTitleComplete | zml.go:383-386 | whenever the title pattern matches, the matcher finds a match |
| Patterns.FindTitlePreferred | zml.go:383-387 | the match found is the greatest of all matches: the longest blanks after the colon, then the longest group |
| Patterns.MatchTitleSpec | zml.go:383-387 | a title is reported exactly when the pattern matches, and it is the group of the preferred match |
| Patterns.FindRelation | zml.go:392-397 | a span the matcher returns is a match of the relation pattern |
| Patterns.MatchRelation | zml.go:397-398 | when there is a match, both names and the arrow are non-empty and the arrow starts with a dash |
| Patterns.RelationMatchForced | zml.go:392 | every match agrees with the greedy reading up to the start of the target name, and its target name ends no later |
| Patterns.FindRelationComplete | zml.go:392-398 | whenever the relation pattern matches, the matcher finds a match |
| Patterns.FindRelationPreferred | zml.go:392-397 | every match has the same parts up to the target name as the one found, which is greatest in the remaining choices (target end, `]`, `:`, label end) |
| Patterns.MatchRelationSpec | zml.go:392-398 | groups are reported exactly when the pattern matches, and they are the groups of the preferred match |
| Script.ParseLineSpec | zml.go:394-411 | a line reads as a relation exactly when it is not skipped and the pattern matches; names are the trimmed groups, the label the raw fourth group, and it is directional exactly when the arrow has a `>` |
| Script.ParseLine | zml.go:393-411 | the names of a relation read from a line have no space at either end |
| Script.SkippedLinesDoNotMatch | zml.go:394-396 | empty and comment lines would not match the relation pattern anyway |
| Script.SkippedLinesKeep | zml.go:393-396 | lines that are all empty or comments leave elements and edges as they were |
| Script.CommentsIgnored | zml.go:393-396 | comment and empty lines read after any other lines change nothing |
| Script.Step | zml.go:393-411 | one line never removes an element or an edge and adds at most one edge |
| Script.ApplyLines | zml.go:393-413 | reading lines keeps the old elements and edges as prefixes and adds at most one edge per line |
| Script.Connect | zml.go:399-411 | a relation adds both names and then exactly one edge, whose ends carry the two names and are elements of the diagram, with the relation's direction and label |
| Script.ApplyLinesElements | zml.go:393-413 | after the lines, the elements are the old ones plus every new name the relations mention, source before target, in order of first mention |
| Script.ApplyLinesEdges | zml.go:393-413 | after the lines, the old edges are kept and followed by one edge per relation, in line order |
| Script.ConnectWellFormed | zml.go:399-411 | connecting keeps names distinct and edge ends among the elements |
| Script.ApplyLinesWellFormed | zml.go:393-413 | reading lines keeps names distinct and every edge end among the elements |
| Script.ApplyLinesAppend | zml.go:393-413 | reading a + b is reading a, then b |
| Script.BodyLines | zml.go:381-390 | the relation loop reads every line, less the first when it is a title line |
| Script.TitleOf | zml.go:381-387 | a title set by the first line is non-empty and made of word, blank, `.`, `,` and `-` characters |
| Script.ParseDirectionalExample | zml.go:392-408 | `A -> B: x` is the directional relation from A to B with label " x" |
| Script.DirectionalGroups | zml.go:392-397 | the groups of `A -> B: x` are "A ", "->", " B" and " x" |
| Script.ParseUndirectedExample | zml.go:392-411 | `[B]--[A]` is the undirected relation from B to A with an empty label |
| Script.UndirectedGroups | zml.go:392-397 | the groups of `[B]--[A]` are "B", "--", "A" and "" |
| Script.DemoDocumentReads | zml.go:380-413 | the document `title: Demo`, `A->B: go`, `B--C` sets the title "Demo" and yields the elements A, B, C in that order, a directional edge A to B labelled " go" and an undirected edge B to C with an empty label |
| Script.DemoLines | zml.go:381 | the document splits into its three lines |
| Script.DemoTitle | zml.go:383-387 | `title: Demo` gives the title "Demo" |
| Script.DemoArrow | zml.go:392-411 | `A->B: go` is the directional relation from A to B with label " go" |
| Script.DemoPlain | zml.go:392-411 | `B--C` is the undirected relation from B to C with an empty label |
| Script.DemoConnect | zml.go:399-411 | connecting A to B and then B to C adds B once and joins the elements found under the names |
| Layout.SlotWidth | zml.go:167 | the slot width is a whole number between 0 and the canvas width |
| Layout.SlotWidthFits | zml.go:167 | the slots fit in the canvas, and one pixel more per slot would not |
| Layout.ElementX | zml.go:168 | a box's middle lies 18 pixels right of its slot's middle |
| Layout.LabelAt | zml.go:134-136 | a box label is centred across the box and half its height below the box's middle |
| Layout.LifelineTop | zml.go:188 | the lifeline starts below the bottom of the top box |
| Layout.LifelineBottom | zml.go:188-189 | the lifeline is one edge row longer than the rows of all the edges |
| Layout.PlaceNode | zml.go:168-196 | top box, lifeline and bottom box are stacked top to bottom; the boxes share their x and the lifeline runs inside their width |
| Layout.PlaceNodesAt | zml.go:159-200 | the j-th placement of a pass is that of the j-th element placed, in slot base + j |
| Layout.PlaceNodes | zml.go:159-200 | a pass draws one node placement per element it renders |
| Layout.PlaceEdge | zml.go:206-256 | an edge is reverse exactly when it ends left of its start; it has an arrow head exactly when directional and a label position exactly when its label is non-empty |
| Layout.MissingBoxAtOrigin | zml.go:208-212 | an edge end with no recorded box is drawn as if its box stood at the origin: from or to x = LineX(0), and on the row below y = 0 when it is the source |
| Layout.LineX | zml.go:187-212 | a lifeline and every edge end lie strictly inside the width of their box |
| Layout.RowY | zml.go:211 | every edge row lies more than one row spacing below the bottom of its source box |
| Layout.TitleAt | zml.go:83-86 | the title is centred on the canvas width, at y = 50 |
| Layout.RenderedAfter | zml.go:159-200 | a pass keeps what was rendered before as a prefix of what it leaves rendered |
| Layout.RenderedPrefix | zml.go:159-200 | a pass appends a prefix of the elements, each new when its turn came, and stops only at the end or at a name already rendered |
| Layout.RenderedAfterPrefix | zml.go:159-166 | from a rendered prefix a pass renders a prefix; once anything is rendered, a further pass renders nothing |
| Layout.RenderedAfterAll | zml.go:159-200 | with distinct names one pass renders every element, once, in order |
| Layout.RenderedAfterIdempotent | zml.go:162-166 | a second pass renders nothing more |
| Layout.PlaceAllKeys | zml.go:181-184 | a pass records a box for exactly the names placed, each on the top row, and leaves other boxes as they were |
| Layout.PlaceAll | zml.go:181-184 | a pass keeps every box recorded before it |
| Layout.PlaceAllAt | zml.go:167-184 | with distinct names the k-th element placed gets x = s·(k+1) − s/2 − 32 and y = 100 |
| Layout.ElementXDistance | zml.go:168 | boxes k and j are (k − j) slots apart |
| Layout.ElementsLeftToRight | zml.go:167-168 | with a positive slot width, later elements lie further right |
| Layout.BoxesApart | zml.go:167-169 | with slots at least a box wide, boxes do not overlap |
| Layout.BoxesOnCanvas | zml.go:167-169 | slots of 136 pixels or more keep every box on the canvas; below 64 the first box starts left of it |
| Layout.RowsInOrder | zml.go:211 | edge i + n is n rows below edge i |
| Layout.RowOnLifeline | zml.go:188-211 | each of the N edge rows lies strictly inside a lifeline sized for N edges |
| Layout.EdgeJoinsLifelines | zml.go:187-212 | an edge starts on its source's lifeline and ends on its target's, on a row inside both |
| Layout.ReverseIffTargetFirst | zml.go:210-213 | between elements of one pass, an edge is reverse exactly when its target was placed before its source |
| Layout.ArrowHeadPointsAtTarget | zml.go:225-237 | the arrow tip is at the line's end, the wings 10 back toward the source and 10 above and below the row |
| Layout.LabelBesideStart | zml.go:239-253 | a label sits 5 plus its height below the row, 16 right of the start, or ending 16 left of it on a reverse edge |
| Colors.ColorNamesWellFormed | colors.go:16-168 | every table name is lower-case-initial and at least three long, and every entry lies in 0..255 |
| Colors.NotAName | colors.go:16-168 | what is not name-shaped (a `#`, `rgb(` or `hsv(` string, a capitalised word) is no table name |
| Colors.LookupIn | colors.go:172-208 | against a table: a name gives its entry, a byte triple for a well-formed table; a string of none of the four forms gives black |
| Colors.Lookup | colors.go:172-208 | a string that is not name-shaped and of no other form gives black |
| Colors.LookupNamed | colors.go:173-176 | a table name gives its table triple, which lies in 0..255 |
| Colors.LookupIsCaseSensitive | colors.go:173-207 | a capitalised string gives black |
| Colors.LookupShortRgb | colors.go:180-207 | `rgb()` is too short for the rgb branch and gives black |
| Colors.LookupRgbForm | colors.go:180-188 | an `rgb(...)` string of three fields gives their Atoi values |
| Colors.LookupRgbArity | colors.go:180-188 | an `rgb(...)` string whose fields are not three gives black |
| Colors.LookupRgb | colors.go:180-188 | `rgb(r, g, b)` of decimal int64 values gives back (r, g, b), unclamped, blanks notwithstanding |
| Colors.LookupRgbDecimal | colors.go:180-188 | the same through Colorlookup and its table |
| Colors.LookupHash | colors.go:190-195 | a seven-character `#` string gives its three pairs parsed base 16 as 32-bit integers |
| Colors.LookupHexRange | colors.go:190-195 | each `#` component lies in -15..255 and is negative only for a pair written with a minus sign |
| Colors.LookupHex | colors.go:190-195 | `#` and three lower-case hex pairs of bytes gives the bytes back |
| Colors.LookupHsvForm | colors.go:197-206 | an `hsv(...)` string of three fields gives hsv2rgb of their ParseFloat values |
| Colors.LookupHsv | colors.go:197-206 | `hsv(h, s, v)` of whole numbers gives hsv2rgb of those numbers |
| Colors.LookupHsvDecimal | colors.go:197-206 | the same through Colorlookup and its table |
| Colors.ColorNumbers | colors.go:212-214 | the pieces number one more than the commas of the blank-free inside, and joined by commas they give that inside back |
| Colors.ColorNumbersBlankFree | colors.go:212-214 | no piece holds a space or a tab |
| Colors.NumbersOfTriple | colors.go:212-214 | `xxx(a, b, c)` of digit strings gives the pieces a, b, c |
| Colors.HsvToRgb | colors.go:218-223 | saturation or value above 100 gives black |
| Colors.HueColor | colors.go:224-257 | a section outside 0..6 gives black |
| Colors.Intermediate | colors.go:227 | for a non-negative section and a chroma in 0..1 the middle channel lies between 0 and the chroma |
| Colors.Scaled | colors.go:262 | levels in 0..1 scale to bytes |
| Colors.HsvToRgbBytes | colors.go:218-263 | saturation and value in 0..100 give a byte triple |
| Colors.HsvFullTurn | colors.go:224 | a non-negative hue and the same hue a full turn further give the same colour |
| Colors.HsvNegativeHue | colors.go:224-257 | a hue strictly between −360 and 0 gives black |
| Colors.HsvGrey | colors.go:225-262 | no saturation gives the grey of the value |
| Colors.HsvPrimaries | colors.go:218-263 | 0, 120 and 240 degrees at full saturation and value give red, green and blue |
| Colors.Trunc | colors.go:262 | `int(x)` drops the fraction toward zero |
| Colors.Abs | colors.go:227 | `math.Abs` is non-negative and x or −x |
| Colors.FMod | colors.go:224-227 | `math.Mod` by 360 or 2 keeps the sign of x and stays below the divisor in size |
| Colors.FModFullTurn | colors.go:224 | adding 360 to a non-negative angle keeps its remainder |
| Strconv.ScanUint | colors.go:191-193 | an accepted digit string gives a value between the start and the maximum |
| Strconv.DigitValue | colors.go:183-193 | a character is a decimal digit exactly when its digit value is below 10; no value exceeds 36 |
| Strconv.ScanDecimal | colors.go:183-185 | the digit loop reads back the decimal digits of any value that fits |
| Strconv.ParseInt | colors.go:191-193 | the result lies within the signed range of the width |
| Strconv.Atoi | colors.go:183-185 | the result lies within the int64 range |
| Strconv.AtoiDecimal | colors.go:183-185 | Atoi reads back the decimal digits of any non-negative int64 |
| Strconv.AtoiNegative | colors.go:183-185 | a leading minus negates, down to the most negative int64 |
| Strconv.AtoiSyntaxError | colors.go:183-185 | a field starting with neither sign nor digit reads as 0 |
| Strconv.ParseHexPair | colors.go:191-193 | ParseInt base 16 reads back any two-digit hex pair |
| Strconv.ScanTwoHexDigits | colors.go:191-193 | two characters scan as one byte value, or as a syntax error |
| Strconv.ParseTwoChars | colors.go:191-193 | a two-character pair gives -15..255, negative only after a minus sign |
| Strconv.ParseFloatDecimal | colors.go:200-202 | ParseFloat reads back the decimal digits of a whole number |
| Strconv.ParseFloat | colors.go:200-202 | a string of decimal digits reads as its whole value |
| Text.Split | zml.go:381 | one more piece than separators, and no piece holds the separator |
| Text.JoinSplit | colors.go:213 | joining the pieces of a split gives the text back |
| Text.SplitJoin | colors.go:213 | splitting a join of separator-free pieces gives the pieces back |
| Text.SplitKeepsOut | colors.go:213 | a character absent from the text is absent from every piece |
| Text.TrimSlice | zml.go:399-401 | trimming keeps a middle slice, drops only spaces around it, and leaves no space at either end |
| Text.Trim | zml.go:399-401 | trimming never lengthens and leaves no space at either end |
| Text.TrimAt | zml.go:399-401 | a slice with only spaces around it and none at its own ends is what trimming keeps |
| Text.TrimKeeps | zml.go:399-401 | a name without a space at either end is kept as it is |
| Text.RemoveBlanks | colors.go:213 | the result has no space or tab and the same count of every other character |
| Text.RemoveBlanksAppend | colors.go:213 | removing blanks distributes over concatenation |

## Left out

- The drawing itself is not modelled. This covers the `gg` context, lines, rounded rectangles, fills, strokes, dashes, strings, font loading and `SavePNG`. The model keeps the numbers these calls receive. `MeasureString` becomes the parameter `measure`, one function for every font.
- `drawBorder` and `drawDecisionNode` are not modelled because nothing calls them. The node colours are constants passed to drawing calls, so they are not modelled either.
- The font setters, `SetFontDir` and `SetDebug`, and all debug logging, are not modelled. They store a field that only drawing or logging reads.
- The command-line programs under cmd/ are not part of this model. They are file reading and flag plumbing around `ProcessData` and `Render`.
- Zml.Diagram.AddDirectionalConnection: the panic on a missing name is a precondition. `ProcessData` always meets it, because it adds both names first.
- Zml.Diagram.AddElements: the loop appends to a local copy of the element list and stores it once it ends. No other code runs in between, so the intermediate states it skips cannot be observed.
- Colors.FMod: the sign and size bounds are stated for the two divisors `hsv2rgb` uses, 360 and 2, not for every positive divisor that `math.Mod` accepts.
- Zml.RenderPass: the pass works on values, and the diagram's fields are written when it ends. Pointer aliasing in `renderedElemenets` is therefore not modelled. It is harmless because elements are never changed after they are added.
- With no elements, `renderElemenets` runs no iteration, so its division by the element count never runs on zero. The model gives that slot width the unused value 0.
- Colors.Lookup: this contract covers only strings that are not name-shaped. The examples `"platered"` → (255, 80, 80) and `"unknown"` → black are not proved as concrete strings. Checking a concrete string against the whole table is beyond the verifier's budget. Colors.LookupNamed covers every table name.
- Colors.HsvToRgb: it is computed in exact reals. float64 rounding in `s / 100`, `h / 60` and the products is not modelled, so a channel at an exact integer boundary may differ by one.
- Strconv.ParseFloat: only plain decimals are modelled, meaning an optional sign, digits and an optional point. Exponents, `inf`, `nan`, hexadecimal floats and underscores read as 0 here. Go accepts some of them.
- Strconv.Atoi: the fast path for short strings is not modelled separately. It returns the same values as `ParseInt(s, 10, 64)`, which stands for both.
- Strings are sequences of characters. The resolver's byte-length tests (`len(s) > 5`, `len(s) == 7`) agree with this only for ASCII text.
- Element kinds other than rectangle exist as values but are never produced, as in the source.
