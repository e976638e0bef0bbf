/** Stand-ins for the pieces of Go's `strings` package that the diagram parser
    and the colour resolver rely on: splitting, joining, trimming, prefix tests,
    and the character classes of Go's regular-expression syntax. Strings are
    sequences of characters; a character stands for one rune. */
module Text {

  datatype Option<+T> = None | Some(value: T)

  /** RE2's `\s`: tab, line feed, form feed, carriage return and space. */
  predicate IsSpace(c: char) {
    c == '\t' || c == '\n' || c == '\U{C}' || c == '\r' || c == ' '
  }

  predicate IsLetter(c: char) {
    ('A' <= c <= 'Z') || ('a' <= c <= 'z')
  }

  predicate IsDigit(c: char) {
    '0' <= c <= '9'
  }

  /** RE2's `\w`: `[0-9A-Za-z_]`. */
  predicate IsWord(c: char) {
    IsLetter(c) || IsDigit(c) || c == '_'
  }

  /** The character classes the two diagram patterns iterate over. */
  datatype CharClass =
    | Space       // \s
    | NameChar    // [A-Za-z\s]
    | TitleChar   // [\w\s.,-]
    | Dash        // [-]
    | Gt          // >
    | AnyButLf    // .  (without the s flag it does not match a line feed)

  predicate InClass(c: char, cls: CharClass) {
    match cls
    case Space => IsSpace(c)
    case NameChar => IsLetter(c) || IsSpace(c)
    case TitleChar => IsWord(c) || IsSpace(c) || c == '.' || c == ',' || c == '-'
    case Dash => c == '-'
    case Gt => c == '>'
    case AnyButLf => c != '\n'
  }

  /** Every character of s[i..j] belongs to cls. */
  predicate AllIn(s: string, i: nat, j: nat, cls: CharClass)
    requires i <= j <= |s|
  {
    forall k :: i <= k < j ==> InClass(s[k], cls)
  }

  /** The end of the longest run of cls characters that starts at i: where a
      greedy `cls*` that starts at i stops. */
  function RunEnd(s: string, i: nat, cls: CharClass): (e: nat)
    requires i <= |s|
    ensures i <= e <= |s|
    ensures AllIn(s, i, e, cls)
    ensures e == |s| || !InClass(s[e], cls)
    decreases |s| - i
  {
    if i < |s| && InClass(s[i], cls) then RunEnd(s, i + 1, cls) else i
  }

  /** A run of cls characters from i cannot go past RunEnd(s, i, cls). */
  lemma RunEndIsLongest(s: string, i: nat, j: nat, cls: CharClass)
    requires i <= j <= |s| && AllIn(s, i, j, cls)
    ensures j <= RunEnd(s, i, cls)
  {
  }

  /** A run of cls characters from i that ends at a character outside cls,
      or at the end, is where RunEnd stops. */
  lemma RunEndAt(s: string, i: nat, j: nat, cls: CharClass)
    requires i <= j <= |s| && AllIn(s, i, j, cls)
    requires j == |s| || !InClass(s[j], cls)
    ensures RunEnd(s, i, cls) == j
  {
    RunEndIsLongest(s, i, j, cls);
  }

  /** `strings.HasPrefix(s, p)`. */
  predicate HasPrefix(s: string, p: string) {
    |p| <= |s| && s[..|p|] == p
  }

  /** `strings.HasSuffix(s, p)`. */
  predicate HasSuffix(s: string, p: string) {
    |p| <= |s| && s[|s| - |p|..] == p
  }

  /** Number of occurrences of c in s. */
  function Count(s: string, c: char): nat {
    if s == [] then 0 else (if s[0] == c then 1 else 0) + Count(s[1..], c)
  }

  lemma CountAppend(a: string, b: string, c: char)
    ensures Count(a + b, c) == Count(a, c) + Count(b, c)
  {
    if a == [] {
      assert a + b == b;
    } else {
      assert (a + b)[1..] == a[1..] + b;
      CountAppend(a[1..], b, c);
    }
  }

  /** Position of the first c in s, or |s| when there is none. */
  function IndexOf(s: string, c: char): (i: nat)
    ensures i <= |s|
    ensures c !in s[..i]
    ensures i < |s| ==> s[i] == c
  {
    if s == [] then 0
    else if s[0] == c then 0
    else
      var j := IndexOf(s[1..], c);
      assert s[..j + 1] == [s[0]] + s[1..][..j];
      assert j < |s[1..]| ==> s[j + 1] == s[1..][j];
      j + 1
  }

  /** `strings.Split(s, sep)` for a one-character separator: the pieces of s
      between the separators, always at least one (the empty string gives
      one empty piece). */
  function Split(s: string, sep: char): (parts: seq<string>)
    ensures |parts| == Count(s, sep) + 1
    ensures forall k :: 0 <= k < |parts| ==> sep !in parts[k]
    decreases |s|
  {
    var i := IndexOf(s, sep);
    if i == |s| then
      assert s == s[..i];
      CountAbsent(s, sep);
      [s]
    else
      assert s == s[..i] + [sep] + s[i + 1..];
      CountAppend(s[..i] + [sep], s[i + 1..], sep);
      CountAppend(s[..i], [sep], sep);
      CountAbsent(s[..i], sep);
      [s[..i]] + Split(s[i + 1..], sep)
  }

  lemma CountAbsent(s: string, c: char)
    requires c !in s
    ensures Count(s, c) == 0
  {
    if s != [] {
      assert s[0] != c;
      assert forall k :: 0 <= k < |s[1..]| ==> s[1..][k] == s[k + 1];
      CountAbsent(s[1..], c);
    }
  }

  /** `strings.Join(parts, string([sep]))`. */
  function Join(parts: seq<string>, sep: char): string {
    if parts == [] then []
    else if |parts| == 1 then parts[0]
    else parts[0] + [sep] + Join(parts[1..], sep)
  }

  /** Joining the pieces of a split gives back the original text. */
  lemma {:induction false} JoinSplit(s: string, sep: char)
    ensures Join(Split(s, sep), sep) == s
    decreases |s|
  {
    var i := IndexOf(s, sep);
    if i == |s| {
      assert s[..i] == s;
    } else {
      JoinSplit(s[i + 1..], sep);
      SplitAt(s, sep, i);
      JoinCons(s[..i], Split(s[i + 1..], sep), sep);
    }
  }

  /** At the first separator, a split is the piece before it followed by the
      split of the rest. */
  lemma SplitAt(s: string, sep: char, i: nat)
    requires i == IndexOf(s, sep) && i < |s|
    ensures Split(s, sep) == [s[..i]] + Split(s[i + 1..], sep)
    ensures s == s[..i] + [sep] + s[i + 1..]
  {
  }

  lemma JoinCons(p: string, rest: seq<string>, sep: char)
    requires rest != []
    ensures Join([p] + rest, sep) == p + [sep] + Join(rest, sep)
  {
    assert ([p] + rest)[1..] == rest;
  }

  /** Splitting a join of separator-free pieces gives back the pieces. */
  lemma {:induction false} SplitJoin(parts: seq<string>, sep: char)
    requires |parts| >= 1
    requires forall k :: 0 <= k < |parts| ==> sep !in parts[k]
    ensures Split(Join(parts, sep), sep) == parts
    decreases |parts|
  {
    if |parts| == 1 {
      IndexOfAbsent(parts[0], sep);
    } else {
      SplitCons(parts[0], Join(parts[1..], sep), sep);
      SplitJoin(parts[1..], sep);
      assert parts == [parts[0]] + parts[1..];
    }
  }

  /** A piece without the separator, the separator and a rest split as that
      piece followed by the split of the rest. */
  lemma SplitCons(p: string, rest: string, sep: char)
    requires sep !in p
    ensures Split(p + [sep] + rest, sep) == [p] + Split(rest, sep)
  {
    var s := p + [sep] + rest;
    IndexOfAfter(p, rest, sep);
    assert s[..|p|] == p;
    assert s[|p| + 1..] == rest;
    SplitAt(s, sep, |p|);
  }

  /** A character that s does not hold is in none of its pieces. */
  lemma {:induction false} SplitKeepsOut(s: string, sep: char, c: char)
    requires c !in s
    ensures forall k :: 0 <= k < |Split(s, sep)| ==> c !in Split(s, sep)[k]
    decreases |s|
  {
    var i := IndexOf(s, sep);
    if i < |s| {
      SplitAt(s, sep, i);
      assert c !in s[..i] && c !in s[i + 1..];
      SplitKeepsOut(s[i + 1..], sep, c);
    } else {
      assert s[..i] == s;
    }
  }

  lemma IndexOfAbsent(s: string, c: char)
    requires c !in s
    ensures IndexOf(s, c) == |s|
  {
  }

  lemma IndexOfAfter(p: string, rest: string, c: char)
    requires c !in p
    ensures IndexOf(p + [c] + rest, c) == |p|
  {
    var s := p + [c] + rest;
    assert s[|p|] == c;
    assert s[..|p|] == p;
  }

  /** Leading spaces removed (the left half of `strings.Trim(s, " ")`). */
  function TrimLeft(s: string): (t: string)
    ensures |t| <= |s|
  {
    if s != [] && s[0] == ' ' then TrimLeft(s[1..]) else s
  }

  /** TrimLeft keeps a suffix that does not start with a space, and what it
      drops is spaces. */
  lemma {:induction false} TrimLeftShape(s: string)
    ensures TrimLeft(s) == s[|s| - |TrimLeft(s)|..]
    ensures TrimLeft(s) == [] || TrimLeft(s)[0] != ' '
    ensures forall k :: 0 <= k < |s| - |TrimLeft(s)| ==> s[k] == ' '
  {
    if s != [] && s[0] == ' ' {
      TrimLeftShape(s[1..]);
      forall k | 1 <= k < |s| - |TrimLeft(s)| ensures s[k] == ' ' {
        assert s[k] == s[1..][k - 1];
      }
    }
  }

  /** Trailing spaces removed (the right half of `strings.Trim(s, " ")`). */
  function TrimRight(s: string): (t: string)
    ensures |t| <= |s|
  {
    if s != [] && s[|s| - 1] == ' ' then TrimRight(s[..|s| - 1]) else s
  }

  /** TrimRight keeps a prefix that does not end in a space, and what it
      drops is spaces. */
  lemma {:induction false} TrimRightShape(s: string)
    ensures TrimRight(s) == s[..|TrimRight(s)|]
    ensures TrimRight(s) == [] || TrimRight(s)[|TrimRight(s)| - 1] != ' '
    ensures forall k :: |TrimRight(s)| <= k < |s| ==> s[k] == ' '
  {
    if s != [] && s[|s| - 1] == ' ' {
      TrimRightShape(s[..|s| - 1]);
      forall k | |TrimRight(s)| <= k < |s| - 1 ensures s[k] == ' ' {
        assert s[k] == s[..|s| - 1][k];
      }
    }
  }

  /** `strings.Trim(s, " ")`: every leading and trailing space removed; tabs and
      other white space are kept. */
  function Trim(s: string): (t: string)
    ensures |t| <= |s|
    ensures Trimmed(t)
  {
    TrimLeftShape(s);
    TrimRightShape(TrimLeft(s));
    TrimRight(TrimLeft(s))
  }

  /** Neither a leading nor a trailing space. */
  predicate Trimmed(s: string) {
    s == [] || (s[0] != ' ' && s[|s| - 1] != ' ')
  }

  /** Trim keeps a contiguous middle slice of s, drops only spaces around it,
      and leaves neither a leading nor a trailing space. */
  lemma TrimSlice(s: string) returns (i: nat, j: nat)
    ensures i <= j <= |s| && Trim(s) == s[i..j]
    ensures forall k :: 0 <= k < i ==> s[k] == ' '
    ensures forall k :: j <= k < |s| ==> s[k] == ' '
    ensures Trim(s) == [] || (Trim(s)[0] != ' ' && Trim(s)[|Trim(s)| - 1] != ' ')
  {
    var l := TrimLeft(s);
    var t := TrimRight(l);
    i := |s| - |l|;
    j := i + |t|;
    TrimLeftShape(s);
    TrimRightShape(l);
    SliceOfSuffix(s, i, j);
    forall k | j <= k < |s| ensures s[k] == ' ' {
      assert s[k] == l[k - i];
    }
    if t != [] {
      assert t[0] == l[0];
    }
  }

  lemma SliceOfSuffix(s: string, i: nat, j: nat)
    requires i <= j <= |s|
    ensures s[i..][..j - i] == s[i..j]
  {
  }

  /** Conversely, a slice with only spaces around it and none at its own
      ends is what Trim keeps. */
  lemma TrimAt(s: string, i: nat, j: nat)
    requires i < j <= |s|
    requires forall k :: 0 <= k < i ==> s[k] == ' '
    requires forall k :: j <= k < |s| ==> s[k] == ' '
    requires s[i] != ' ' && s[j - 1] != ' '
    ensures Trim(s) == s[i..j]
  {
    TrimLeftAt(s, i);
    ShiftSpaces(s, i, j);
    TrimRightAt(s[i..], j - i);
    SliceOfSuffix(s, i, j);
  }

  /** The spaces after position j, seen from i. */
  lemma ShiftSpaces(s: string, i: nat, j: nat)
    requires i < j <= |s|
    requires forall k :: j <= k < |s| ==> s[k] == ' '
    requires s[j - 1] != ' '
    ensures forall k :: j - i <= k < |s[i..]| ==> s[i..][k] == ' '
    ensures s[i..][j - i - 1] != ' '
  {
  }

  /** Text without a space at either end is left as it is. */
  lemma TrimKeeps(s: string)
    requires s != [] && s[0] != ' ' && s[|s| - 1] != ' '
    ensures Trim(s) == s
  {
    TrimAt(s, 0, |s|);
    assert s[0..|s|] == s;
  }

  lemma {:induction false} TrimLeftAt(s: string, i: nat)
    requires i < |s| && s[i] != ' '
    requires forall k :: 0 <= k < i ==> s[k] == ' '
    ensures TrimLeft(s) == s[i..]
    decreases i
  {
    if i > 0 {
      assert s[1..][i - 1..] == s[i..];
      TrimLeftAt(s[1..], i - 1);
    }
  }

  lemma {:induction false} TrimRightAt(s: string, j: nat)
    requires 0 < j <= |s| && s[j - 1] != ' '
    requires forall k :: j <= k < |s| ==> s[k] == ' '
    ensures TrimRight(s) == s[..j]
    decreases |s| - j
  {
    if j < |s| {
      assert s[..|s| - 1][..j] == s[..j];
      TrimRightAt(s[..|s| - 1], j);
    }
  }

  /** s with every space and tab removed: Go's
      `strings.NewReplacer(" ", "", "\t", "").Replace(s)`. */
  function RemoveBlanks(s: string): (t: string)
    ensures ' ' !in t && '\t' !in t
    ensures |t| <= |s|
    ensures forall c :: c != ' ' && c != '\t' ==> Count(t, c) == Count(s, c)
  {
    if s == [] then []
    else if s[0] == ' ' || s[0] == '\t' then RemoveBlanks(s[1..])
    else [s[0]] + RemoveBlanks(s[1..])
  }

  lemma {:induction false} RemoveBlanksAppend(a: string, b: string)
    ensures RemoveBlanks(a + b) == RemoveBlanks(a) + RemoveBlanks(b)
  {
    if a == [] {
      assert a + b == b;
    } else {
      assert (a + b)[1..] == a[1..] + b;
      RemoveBlanksAppend(a[1..], b);
    }
  }

  /** Text with no space or tab in it is left as it is. */
  lemma {:induction false} RemoveBlanksKeeps(s: string)
    requires ' ' !in s && '\t' !in s
    ensures RemoveBlanks(s) == s
  {
    if s != [] {
      assert s == [s[0]] + s[1..];
      RemoveBlanksKeeps(s[1..]);
    }
  }
}
