/** The two regular expressions of the ZML parser, written out as matchers.

    Go's `regexp` package reports the match a backtracking matcher would find
    first (leftmost-first): every greedy `?`, `*`, `+` or `{0,2}` takes as much
    as it can, and gives characters back only when the rest of the pattern
    fails. For each pattern the module states, as a ghost predicate, which
    positions make up SOME match of the pattern at the start of a line, and
    proves that the matcher (a) finds a match exactly when one exists and (b)
    returns the groups of the match a backtracking matcher prefers. */
module Patterns {
  import opened Text

  /** An optional character ch at i (`ch?`): the position after it when it
      is there, i otherwise. */
  function Optional(line: string, i: nat, ch: char): (j: nat)
    requires i <= |line|
    ensures j <= |line|
    ensures j == i + 1 <==> i < |line| && line[i] == ch
    ensures j != i + 1 ==> j == i
  {
    if i < |line| && line[i] == ch then i + 1 else i
  }

  /** `>{0,2}` at d: the end of the run of `>` characters, at most two of them. */
  function Arrowheads(line: string, d: nat): (g: nat)
    requires d <= |line|
    ensures d <= g <= d + 2 && g <= |line| && AllIn(line, d, g, Gt)
    ensures g < d + 2 ==> g == RunEnd(line, d, Gt)
    ensures g == d + 2 ==> d + 2 <= RunEnd(line, d, Gt)
  {
    var g0 := RunEnd(line, d, Gt);
    if g0 > d + 2 then d + 2 else g0
  }

  // ---------------------------------------------------------------------------
  // Title pattern  ^\[?title\]?\s*:\s*([\w\s.,-]+)
  // ---------------------------------------------------------------------------

  /** Where the parts of a title match lie: `[` used iff o == 1, the text after
      `title` and the optional `]` starts at p, the `:` is at q, and the group
      is line[r..e]. */
  datatype TitleSpan = TitleSpan(o: nat, p: nat, q: nat, r: nat, e: nat)

  /** The title pattern matches a prefix of line with the parts at t. */
  ghost predicate IsTitleMatch(line: string, t: TitleSpan)
  {
    && t.o <= 1 && t.o + 5 <= t.p <= t.o + 6 && t.p <= t.q && t.q + 1 <= t.r
    && t.r < t.e <= |line|
    && (t.o == 1 ==> line[0] == '[')
    && line[t.o..t.o + 5] == "title"
    && (t.p == t.o + 6 ==> line[t.o + 5] == ']')
    && AllIn(line, t.p, t.q, Space) && line[t.q] == ':'
    && AllIn(line, t.q + 1, t.r, Space) && AllIn(line, t.r, t.e, TitleChar)
  }

  /** The match a backtracking matcher returns: among all matches, the `\s*`
      after the colon is as long as possible, and then the group is. */
  ghost predicate IsPreferredTitleMatch(line: string, t: TitleSpan)
  {
    && IsTitleMatch(line, t)
    && forall t' :: IsTitleMatch(line, t') ==> t'.r < t.r || (t'.r == t.r && t'.e <= t.e)
  }

  /** The leftmost-first match of the title pattern against line, if any. */
  function FindTitle(line: string): (t: Option<TitleSpan>)
    ensures t.Some? ==> IsTitleMatch(line, t.value)
  {
    var o := Optional(line, 0, '[');
    if !(o + 5 <= |line| && line[o..o + 5] == "title") then None
    else
      var p := Optional(line, o + 5, ']');
      var q := RunEnd(line, p, Space);
      if q == |line| || line[q] != ':' then None
      else
        var w := RunEnd(line, q + 1, Space);
        var e := RunEnd(line, w, TitleChar);
        if w < e then Some(TitleSpan(o, p, q, w, e))
        // the group needs one character: `\s*` gives back its last blank
        else if q + 1 < w then Some(TitleSpan(o, p, q, w - 1, w))
        else None
  }

  /** `titleRegexp.FindStringSubmatch(line)[1]` when the title pattern matches
      (zml.go:383-387), None when it does not. */
  function MatchTitle(line: string): (t: Option<string>)
    ensures t.Some? ==> |t.value| > 0
    ensures t.Some? ==> forall k :: 0 <= k < |t.value| ==> InClass(t.value[k], TitleChar)
  {
    match FindTitle(line)
    case None => None
    case Some(s) => Some(line[s.r..s.e])
  }

  /** Every match of the title pattern agrees with the matcher on the `[`,
      the `]` and the colon, and its `\s*` after the colon is no longer. */
  lemma TitleMatchForced(line: string, t: TitleSpan)
    requires IsTitleMatch(line, t)
    ensures t.o == Optional(line, 0, '[')
    ensures t.p == Optional(line, t.o + 5, ']')
    ensures t.q == RunEnd(line, t.p, Space)
    ensures t.r <= RunEnd(line, t.q + 1, Space)
  {
    RunEndIsLongest(line, t.p, t.q, Space);
    RunEndIsLongest(line, t.q + 1, t.r, Space);
  }

  /** Completeness: whenever the title pattern matches, the matcher finds a match. */
  lemma {:induction false} FindTitleComplete(line: string, t: TitleSpan)
    requires IsTitleMatch(line, t)
    ensures FindTitle(line).Some?
  {
    TitleMatchForced(line, t);
    var w := RunEnd(line, t.q + 1, Space);
    if t.r == w {
      assert InClass(line[t.r], TitleChar);
    }
  }

  /** Preference: the match the matcher finds is the one a backtracking
      matcher returns. */
  lemma {:induction false} FindTitlePreferred(line: string)
    requires FindTitle(line).Some?
    ensures IsPreferredTitleMatch(line, FindTitle(line).value)
  {
    var s := FindTitle(line).value;
    FindTitleParts(line);
    forall t' | IsTitleMatch(line, t')
      ensures t'.r < s.r || (t'.r == s.r && t'.e <= s.e)
    {
      TitleMatchBelow(line, t', s);
    }
  }

  /** Any one match is no greater than the one found. */
  lemma TitleMatchBelow(line: string, t': TitleSpan, s: TitleSpan)
    requires IsTitleMatch(line, t') && IsGreedyTitle(line, s)
    ensures t'.r < s.r || (t'.r == s.r && t'.e <= s.e)
  {
    TitleMatchForced(line, t');
    var w := RunEnd(line, s.q + 1, Space);
    if t'.r == w || t'.r == s.r {
      RunEndIsLongest(line, t'.r, t'.e, TitleChar);
    }
  }

  /** How the match found is put together: the `[`, `title`, the `]`, the
      blanks and the colon as the pattern forces them, then the longest run of
      blanks and the longest group after it, or, when no group character
      follows the blanks, their last blank as the group. */
  predicate IsGreedyTitle(line: string, s: TitleSpan) {
    && s.o == Optional(line, 0, '[') && s.o + 5 <= |line|
    && s.p == Optional(line, s.o + 5, ']')
    && s.q == RunEnd(line, s.p, Space) && s.q < |line|
    && var w := RunEnd(line, s.q + 1, Space);
       || (s.r == w && s.e == RunEnd(line, w, TitleChar))
       || (s.r + 1 == w && s.e == w && RunEnd(line, w, TitleChar) == w)
  }

  lemma FindTitleParts(line: string)
    requires FindTitle(line).Some?
    ensures IsGreedyTitle(line, FindTitle(line).value)
  {
  }

  /** The title is reported exactly when the pattern matches, and it is the
      group of the match a backtracking matcher returns. */
  lemma MatchTitleSpec(line: string)
    ensures MatchTitle(line).Some? <==> exists t :: IsTitleMatch(line, t)
    ensures MatchTitle(line).Some? ==>
              exists t :: IsPreferredTitleMatch(line, t) && MatchTitle(line).value == line[t.r..t.e]
  {
    if t :| IsTitleMatch(line, t) {
      FindTitleComplete(line, t);
    }
    if MatchTitle(line).Some? {
      FindTitlePreferred(line);
    }
  }

  // ---------------------------------------------------------------------------
  // Relation pattern  ^\[?([A-Za-z\s]+)\]?([-]+>{0,2})\[?([A-Za-z\s]+)\]?:?(.*)?
  // ---------------------------------------------------------------------------

  /** Where the parts of a relation match lie: `[` used iff a == 1, group 1 =
      line[a..b], `]` used iff c == b + 1, dashes line[c..d], `>`s line[d..g],
      `[` used iff h == g + 1, group 3 = line[h..k], `]` used iff m == k + 1,
      `:` used iff n == m + 1, group 4 = line[n..z]. */
  datatype RelationSpan = RelationSpan(a: nat, b: nat, c: nat, d: nat, g: nat,
                                       h: nat, k: nat, m: nat, n: nat, z: nat)

  /** The relation pattern matches a prefix of line with the parts at s. */
  ghost predicate IsRelationMatch(line: string, s: RelationSpan)
  {
    && s.a <= 1 && s.a < s.b <= s.c < s.d <= s.g <= s.h < s.k <= s.m <= s.n <= s.z <= |line|
    && (s.a == 1 ==> line[0] == '[')
    && AllIn(line, s.a, s.b, NameChar)
    && s.c <= s.b + 1 && (s.c == s.b + 1 ==> line[s.b] == ']')
    && AllIn(line, s.c, s.d, Dash)
    && s.g <= s.d + 2 && AllIn(line, s.d, s.g, Gt)
    && s.h <= s.g + 1 && (s.h == s.g + 1 ==> line[s.g] == '[')
    && AllIn(line, s.h, s.k, NameChar)
    && s.m <= s.k + 1 && (s.m == s.k + 1 ==> line[s.k] == ']')
    && s.n <= s.m + 1 && (s.n == s.m + 1 ==> line[s.m] == ':')
    && AllIn(line, s.n, s.z, AnyButLf)
  }

  /** s' is no greater than s in the choices left after the arrow: the end of
      group 3, then the `]`, then the `:`, then the end of group 4. */
  predicate TailLe(s': RelationSpan, s: RelationSpan) {
    s'.k < s.k || (s'.k == s.k && (s'.m < s.m || (s'.m == s.m &&
      (s'.n < s.n || (s'.n == s.n && s'.z <= s.z)))))
  }

  /** The match a backtracking matcher returns: every match has the same
      parts up to group 3, and this one is greatest in the remaining choices. */
  ghost predicate IsPreferredRelationMatch(line: string, s: RelationSpan)
  {
    && IsRelationMatch(line, s)
    && forall s' :: IsRelationMatch(line, s') ==>
         s'.a == s.a && s'.b == s.b && s'.c == s.c && s'.d == s.d && s'.g == s.g
         && s'.h == s.h && TailLe(s', s)
  }

  /** How the match found is put together, part by part: each part as long
      as the pattern allows, each optional character taken when it is there. */
  predicate IsGreedyRelation(line: string, s: RelationSpan) {
    && s.a == Optional(line, 0, '[') && s.a <= |line|
    && s.b == RunEnd(line, s.a, NameChar)
    && s.c == Optional(line, s.b, ']')
    && s.d == RunEnd(line, s.c, Dash)
    && s.g == Arrowheads(line, s.d)
    && s.h == Optional(line, s.g, '[')
    && s.k == RunEnd(line, s.h, NameChar)
    && s.m == Optional(line, s.k, ']')
    && s.n == Optional(line, s.m, ':')
    && s.z == RunEnd(line, s.n, AnyButLf)
  }

  /** The leftmost-first match of the relation pattern against line, if any. */
  function FindRelation(line: string): (r: Option<RelationSpan>)
    ensures r.Some? ==> IsRelationMatch(line, r.value)
  {
    var a := Optional(line, 0, '[');
    var b := RunEnd(line, a, NameChar);
    if b == a then None
    else
      var c := Optional(line, b, ']');
      var d := RunEnd(line, c, Dash);
      if d == c then None
      else
        var g := Arrowheads(line, d);
        var h := Optional(line, g, '[');
        var k := RunEnd(line, h, NameChar);
        if k == h then None
        else
          var m := Optional(line, k, ']');
          var n := Optional(line, m, ':');
          var z := RunEnd(line, n, AnyButLf);
          GreedyIsMatch(line, RelationSpan(a, b, c, d, g, h, k, m, n, z));
          Some(RelationSpan(a, b, c, d, g, h, k, m, n, z))
  }

  /** A greedy reading whose name groups and dashes are not empty is a match. */
  lemma GreedyIsMatch(line: string, s: RelationSpan)
    requires IsGreedyRelation(line, s) && s.a < s.b && s.c < s.d && s.h < s.k
    ensures IsRelationMatch(line, s)
  {
  }

  /** The four groups of a relation match: source name, arrow, target name and
      label. */
  datatype RelationGroups = RelationGroups(from: string, arrow: string, to: string, labelText: string)

  /** The groups of the relation pattern as `FindStringSubmatch` reports them
      (zml.go:392-397), or None when the pattern does not match. */
  function MatchRelation(line: string): (r: Option<RelationGroups>)
    ensures r.Some? ==> r.value.from != [] && r.value.to != [] && r.value.arrow != []
    ensures r.Some? ==> r.value.arrow[0] == '-'
  {
    match FindRelation(line)
    case None => None
    case Some(s) =>
      assert line[s.c..s.g][0] == line[s.c];
      Some(RelationGroups(line[s.a..s.b], line[s.c..s.g], line[s.h..s.k], line[s.n..s.z]))
  }

  /** The groups are the slices of the line at the parts of the match found. */
  lemma MatchRelationAt(line: string, s: RelationSpan)
    requires FindRelation(line) == Some(s)
    ensures s.a <= s.b <= s.c <= s.g <= s.h <= s.k <= s.n <= s.z <= |line|
    ensures MatchRelation(line) == Some(RelationGroups(line[s.a..s.b], line[s.c..s.g], line[s.h..s.k], line[s.n..s.z]))
  {
  }

  /** Every match of the relation pattern agrees with the matcher on everything
      up to the start of group 3, and its group 3 ends no later. */
  lemma RelationMatchForced(line: string, s: RelationSpan)
    requires IsRelationMatch(line, s)
    ensures s.a == Optional(line, 0, '[')
    ensures s.b == RunEnd(line, s.a, NameChar)
    ensures s.c == Optional(line, s.b, ']')
    ensures s.d == RunEnd(line, s.c, Dash)
    ensures s.g == Arrowheads(line, s.d)
    ensures s.h == Optional(line, s.g, '[')
    ensures s.k <= RunEnd(line, s.h, NameChar)
  {
    SourceForced(line, s);
    ArrowForced(line, s);
  }

  /** The opening bracket, group 1 and the closing bracket are forced. */
  lemma SourceForced(line: string, s: RelationSpan)
    requires IsRelationMatch(line, s)
    ensures s.a == Optional(line, 0, '[')
    ensures s.b == RunEnd(line, s.a, NameChar)
    ensures s.c == Optional(line, s.b, ']')
  {
    if s.a == 0 && 0 < |line| && line[0] == '[' {
      assert InClass(line[0], NameChar);
    }
    RunEndIsLongest(line, s.a, s.b, NameChar);
    if s.c == s.b {
      assert InClass(line[s.b], Dash);
    }
  }

  /** The dashes, the `>`s and the bracket before group 3 are forced, and
      group 3 ends no later than the longest run of name characters. */
  lemma ArrowForced(line: string, s: RelationSpan)
    requires IsRelationMatch(line, s)
    ensures s.d == RunEnd(line, s.c, Dash)
    ensures s.g == Arrowheads(line, s.d)
    ensures s.h == Optional(line, s.g, '[')
    ensures s.k <= RunEnd(line, s.h, NameChar)
  {
    RunEndIsLongest(line, s.c, s.d, Dash);
    if s.g == s.d && s.h == s.g {
      assert InClass(line[s.d], NameChar);
    }
    RunEndIsLongest(line, s.d, s.g, Gt);
    if s.h == s.g {
      assert InClass(line[s.g], NameChar);
    }
    RunEndIsLongest(line, s.h, s.k, NameChar);
  }

  /** Completeness: whenever the relation pattern matches, the matcher finds a match. */
  lemma {:induction false} FindRelationComplete(line: string, s: RelationSpan)
    requires IsRelationMatch(line, s)
    ensures FindRelation(line).Some?
  {
    RelationMatchForced(line, s);
  }

  /** Preference: the match the matcher finds is the one a backtracking
      matcher returns. */
  lemma {:induction false} FindRelationPreferred(line: string)
    requires FindRelation(line).Some?
    ensures IsPreferredRelationMatch(line, FindRelation(line).value)
  {
    var s := FindRelation(line).value;
    FindRelationParts(line);
    forall s' | IsRelationMatch(line, s')
      ensures s'.a == s.a && s'.b == s.b && s'.c == s.c && s'.d == s.d && s'.g == s.g
              && s'.h == s.h && TailLe(s', s)
    {
      RelationMatchBelow(line, s', s);
    }
  }

  /** Any one match is no greater than the one found. */
  lemma RelationMatchBelow(line: string, s': RelationSpan, s: RelationSpan)
    requires IsRelationMatch(line, s') && IsGreedyRelation(line, s)
    ensures s'.a == s.a && s'.b == s.b && s'.c == s.c && s'.d == s.d && s'.g == s.g
    ensures s'.h == s.h && TailLe(s', s)
  {
    RelationMatchForced(line, s');
    assert s'.c == s.c;
    assert s'.h == s.h;
    TailBelow(line, s', s);
  }

  /** After group 3 starts, the found match takes the longest group 3, then
      the `]` and the `:` whenever they are there, then the longest label. */
  lemma TailBelow(line: string, s': RelationSpan, s: RelationSpan)
    requires IsRelationMatch(line, s') && s'.h == s.h && s.h <= |line|
    requires s'.k <= s.k && s.k <= |line|
    requires s.m == Optional(line, s.k, ']')
    requires s.n == Optional(line, s.m, ':')
    requires s.n <= |line| && s.z == RunEnd(line, s.n, AnyButLf)
    ensures TailLe(s', s)
  {
    if s'.k == s.k && s'.m == s.m && s'.n == s.n {
      RunEndIsLongest(line, s'.n, s'.z, AnyButLf);
    }
  }

  lemma FindRelationParts(line: string)
    requires FindRelation(line).Some?
    ensures IsGreedyRelation(line, FindRelation(line).value)
  {
  }

  /** Groups are reported exactly when the pattern matches, and they are the
      groups of the match a backtracking matcher returns. */
  lemma MatchRelationSpec(line: string)
    ensures MatchRelation(line).Some? <==> exists s :: IsRelationMatch(line, s)
    ensures MatchRelation(line).Some? ==>
              exists s :: IsPreferredRelationMatch(line, s) && MatchRelation(line).value
                == RelationGroups(line[s.a..s.b], line[s.c..s.g], line[s.h..s.k], line[s.n..s.z])
  {
    if s :| IsRelationMatch(line, s) {
      FindRelationComplete(line, s);
    }
    if MatchRelation(line).Some? {
      FindRelationPreferred(line);
    }
  }
}
