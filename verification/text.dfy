/** The string primitives the builders rely on: Python's `str.strip()`,
    `str.splitlines()`, `sep in s` with `s.split(sep, 1)`, and the list
    comprehension `[u.strip() for u in text.splitlines() if u.strip()]`
    that turns a text area into a list of entries. */
module Text {
  import opened Results
  import opened Lists

  /** The characters Python's `str.isspace` accepts; `str.strip()` removes
      exactly these from both ends of a string. */
  predicate IsSpace(c: char) {
    || '\t' <= c <= '\r'
    || '\U{1c}' <= c <= ' '
    || c == '\U{85}' || c == '\U{a0}' || c == '\U{1680}'
    || '\U{2000}' <= c <= '\U{200a}'
    || c == '\U{2028}' || c == '\U{2029}' || c == '\U{202f}' || c == '\U{205f}'
    || c == '\U{3000}'
  }

  /** The line boundaries Python's `str.splitlines` splits on (a `"\r\n"` pair
      counts as one boundary). Every one of them is also white space. */
  predicate IsLineBreak(c: char) {
    || '\n' <= c <= '\r'
    || '\U{1c}' <= c <= '\U{1e}'
    || c == '\U{85}' || c == '\U{2028}' || c == '\U{2029}'
  }

  predicate NotSpace(c: char) {
    !IsSpace(c)
  }

  ghost predicate AllSpace(s: string) {
    forall i | 0 <= i < |s| :: IsSpace(s[i])
  }

  predicate NoBreak(s: string) {
    forall i | 0 <= i < |s| :: !IsLineBreak(s[i])
  }

  /** Neither end of `s` is white space. */
  predicate IsStripped(s: string) {
    s == [] || (!IsSpace(s[0]) && !IsSpace(s[|s| - 1]))
  }

  /** Cutting `s` at `i` and `j` leaves white space outside `s[i..j]` and a
      stripped string inside it. */
  ghost predicate StripsAt(s: string, i: int, j: int) {
    0 <= i <= j <= |s| && AllSpace(s[..i]) && AllSpace(s[j..]) && IsStripped(s[i..j])
  }

  /** Reference meaning of `s.strip()`: `r` is what is left of `s` once a
      white-space prefix and a white-space suffix are cut off, and neither end
      of `r` is white space. */
  ghost predicate IsStripOf(r: string, s: string) {
    exists i, j :: StripsAt(s, i, j) && s[i..j] == r
  }

  /** Where `s.lstrip()` starts: the first character that is not white space. */
  function StripStart(s: string): (i: nat)
    ensures i <= |s|
    ensures forall k | 0 <= k < i :: IsSpace(s[k])
    ensures i < |s| ==> !IsSpace(s[i])
  {
    FirstWhere(s, NotSpace)
  }

  /** Where `s.rstrip()` ends: just after the last character that is not white space. */
  function StripEnd(s: string): (j: nat)
    ensures j <= |s|
    ensures forall k | j <= k < |s| :: IsSpace(s[k])
    ensures 0 < j ==> !IsSpace(s[j - 1])
  {
    if s != [] && IsSpace(s[|s| - 1]) then StripEnd(s[..|s| - 1]) else |s|
  }

  /** `s.strip()`. */
  function Strip(s: string): (r: string)
    ensures |r| <= |s| && IsStripped(r)
  {
    var i := StripStart(s);
    var j := StripEnd(s);
    if i <= j then s[i..j] else []
  }

  /** `Strip` meets the reference meaning of `s.strip()`. */
  lemma StripMeaning(s: string)
    ensures IsStripOf(Strip(s), s)
  {
    var i := StripStart(s);
    var j := StripEnd(s);
    if i <= j {
      assert StripsAt(s, i, j);
    } else {
      assert s[..0] == [] && s[0..] == s && s[0..0] == [];
      assert StripsAt(s, 0, 0);
    }
  }

  /** A cut leaves nothing exactly when the whole string is white space. */
  lemma EmptyCutAllSpace(s: string, i: int, j: int)
    requires StripsAt(s, i, j)
    ensures i == j <==> AllSpace(s)
  {
    if i == j {
      forall k | 0 <= k < |s| ensures IsSpace(s[k]) {
        if k < i {
          assert s[..i][k] == s[k];
        } else {
          assert s[j..][k - j] == s[k];
        }
      }
    } else {
      assert s[i] == s[i..j][0];
    }
  }

  lemma CutBoundsUnique(s: string, i1: int, j1: int, i2: int, j2: int)
    requires StripsAt(s, i1, j1) && StripsAt(s, i2, j2) && i1 < j1 && i2 < j2
    ensures i1 == i2 && j1 == j2
  {
    assert s[i1] == s[i1..j1][0] && s[i2] == s[i2..j2][0];
    assert s[j1 - 1] == s[i1..j1][j1 - 1 - i1] && s[j2 - 1] == s[i2..j2][j2 - 1 - i2];
  }

  /** `s.strip()` is uniquely determined by its reference meaning. */
  lemma StripUnique(r1: string, r2: string, s: string)
    requires IsStripOf(r1, s) && IsStripOf(r2, s)
    ensures r1 == r2
  {
    var i1, j1 :| StripsAt(s, i1, j1) && s[i1..j1] == r1;
    var i2, j2 :| StripsAt(s, i2, j2) && s[i2..j2] == r2;
    EmptyCutAllSpace(s, i1, j1);
    EmptyCutAllSpace(s, i2, j2);
    if i1 < j1 {
      CutBoundsUnique(s, i1, j1, i2, j2);
    }
  }

  /** Padding a stripped string with white space and stripping it again gives
      the string back. */
  lemma {:induction false} StripPadded(p: string, r: string, q: string)
    requires AllSpace(p) && AllSpace(q) && IsStripped(r)
    ensures Strip(p + r + q) == r
  {
    var s := p + r + q;
    assert s[|p|..|p| + |r|] == r && s[..|p|] == p && s[|p| + |r|..] == q;
    assert StripsAt(s, |p|, |p| + |r|);
    StripMeaning(s);
    StripUnique(Strip(s), r, s);
  }

  /** Stripping is idempotent: a stripped string is its own strip. */
  lemma {:induction false} StripStripped(s: string)
    requires IsStripped(s)
    ensures Strip(s) == s
  {
    StripPadded([], s, []);
    assert [] + s + [] == s;
  }

  /** `s.strip()` is empty exactly when `s` is all white space. */
  lemma {:induction false} StripEmpty(s: string)
    ensures Strip(s) == [] <==> AllSpace(s)
  {
    StripMeaning(s);
    var i, j :| StripsAt(s, i, j) && s[i..j] == Strip(s);
    if Strip(s) == [] {
      EmptyCutAllSpace(s, i, j);
    }
    if AllSpace(s) {
      assert s[..0] == [] && s[0..] == s && s[0..0] == [];
      assert StripsAt(s, 0, 0);
      StripUnique(Strip(s), [], s);
    }
  }

  /** Position of the first character of `s` that satisfies `p`, or `|s|`
      when there is none. */
  function FirstWhere(s: string, p: char -> bool): (i: nat)
    ensures i <= |s|
    ensures forall k | 0 <= k < i :: !p(s[k])
    ensures i < |s| ==> p(s[i])
  {
    if s == [] then 0
    else if p(s[0]) then 0
    else 1 + FirstWhere(s[1..], p)
  }

  /** The first position satisfying `p` is the one before which nothing does. */
  lemma FirstWhereIs(s: string, p: char -> bool, n: nat)
    requires n <= |s|
    requires forall k | 0 <= k < n :: !p(s[k])
    requires n < |s| ==> p(s[n])
    ensures FirstWhere(s, p) == n
  {
  }

  /** Python's `s.splitlines()`: the pieces of `s` between line boundaries,
      where a final boundary does not open an extra empty line. */
  function SplitLines(s: string): (lines: seq<string>)
    ensures |lines| <= |s|
    ensures forall k | 0 <= k < |lines| :: NoBreak(lines[k])
    decreases |s|
  {
    if s == [] then []
    else
      var i := FirstWhere(s, IsLineBreak);
      if i == |s| then [s]
      else [s[..i]] + SplitLines(s[NextLine(s, i)..])
  }

  /** Where the line after the boundary at `i` starts: `"\r\n"` is one boundary. */
  function NextLine(s: string, i: nat): nat
    requires i < |s|
  {
    if s[i] == '\r' && i + 1 < |s| && s[i + 1] == '\n' then i + 2 else i + 1
  }

  /** Each line followed by `"\n"`: a text whose `splitlines()` is `lines`. */
  function JoinLines(lines: seq<string>): string {
    if lines == [] then "" else lines[0] + "\n" + JoinLines(lines[1..])
  }

  /** `splitlines` undoes `JoinLines` on lines that hold no line boundary. */
  lemma {:induction false} SplitJoinLines(lines: seq<string>)
    requires forall k | 0 <= k < |lines| :: NoBreak(lines[k])
    ensures SplitLines(JoinLines(lines)) == lines
  {
    if lines != [] {
      var l, rest := lines[0], lines[1..];
      assert JoinLines(lines) == l + "\n" + JoinLines(rest);
      FirstWhereIs(l, IsLineBreak, |l|);
      SplitJoinLast(l, JoinLines(rest), |l|);
      assert l[..|l|] == l;
      assert forall k | 0 <= k < |rest| :: rest[k] == lines[k + 1];
      SplitJoinLines(rest);
      ConsEq(lines, SplitLines(JoinLines(lines)), l, rest);
    }
  }

  /** What `s.splitlines()` means, stated without computing it: `s` is line
      `lines[0]`, a boundary `widths[0]` characters wide, line `lines[1]`,
      and so on. No line holds a boundary character; a boundary is one
      boundary character, or the pair `"\r\n"` (a `"\r"` followed by `"\n"`
      is never a boundary on its own); only a last, non-empty line may run
      to the end of the text without one. */
  ghost predicate Splits(s: string, lines: seq<string>, widths: seq<nat>)
    decreases |lines|
  {
    && |lines| == |widths|
    && (if lines == [] then s == []
        else
          && LineAt(s, lines[0], widths[0], |lines| == 1)
          && Splits(s[|lines[0]| + widths[0]..], lines[1..], widths[1..]))
  }

  /** `s` opens with line `l` followed by a boundary `w` characters wide;
      `last` says whether it is the last line. */
  ghost predicate LineAt(s: string, l: string, w: nat, last: bool) {
    && |l| + w <= |s| && s[..|l|] == l && NoBreak(l)
    && w <= 2
    && (w == 0 ==> l != [] && last)
    && (w == 1 ==> IsLineBreak(s[|l|]) && !(s[|l|] == '\r' && |l| + 1 < |s| && s[|l| + 1] == '\n'))
    && (w == 2 ==> s[|l|] == '\r' && s[|l| + 1] == '\n')
  }

  /** The width of the boundary closing each line of `s.splitlines()`; zero
      for a last line that runs to the end of the text. */
  function LineWidths(s: string): seq<nat>
    decreases |s|
  {
    if s == [] then []
    else
      var i := FirstWhere(s, IsLineBreak);
      if i == |s| then [0]
      else [NextLine(s, i) - i] + LineWidths(s[NextLine(s, i)..])
  }

  /** `SplitLines` and `LineWidths` on a text with no boundary character. */
  lemma SplitLinesLast(s: string)
    requires s != [] && FirstWhere(s, IsLineBreak) == |s|
    ensures SplitLines(s) == [s] && LineWidths(s) == [0]
  {
  }

  /** `SplitLines` and `LineWidths` past the first boundary of a text. */
  lemma SplitLinesStep(s: string, i: nat)
    requires i == FirstWhere(s, IsLineBreak) && i < |s|
    ensures SplitLines(s) == [s[..i]] + SplitLines(s[NextLine(s, i)..])
    ensures LineWidths(s) == [NextLine(s, i) - i] + LineWidths(s[NextLine(s, i)..])
  {
  }

  /** The first line `SplitLines` takes, with its boundary, is a line. */
  lemma FirstLineAt(s: string, i: nat, last: bool)
    requires i == FirstWhere(s, IsLineBreak) && i < |s|
    ensures LineAt(s, s[..i], NextLine(s, i) - i, last)
  {
  }

  /** A first line followed by a cutting of the rest is a cutting. */
  lemma SplitsCons(s: string, l: string, w: nat, rest: seq<string>, restWidths: seq<nat>,
                   lines: seq<string>, widths: seq<nat>)
    requires LineAt(s, l, w, rest == []) && Splits(s[|l| + w..], rest, restWidths)
    requires lines == [l] + rest && widths == [w] + restWidths
    ensures Splits(s, lines, widths)
  {
    assert lines[1..] == rest && widths[1..] == restWidths;
  }

  /** `SplitLines` cuts the text as `Splits` describes. */
  lemma {:induction false} SplitLinesSplits(s: string)
    ensures Splits(s, SplitLines(s), LineWidths(s))
    decreases |s|
  {
    if s != [] {
      var i := FirstWhere(s, IsLineBreak);
      if i == |s| {
        SplitLinesLast(s);
        assert s[..|s|] == s && s[|s|..] == [];
        SplitsCons(s, s, 0, [], [], SplitLines(s), LineWidths(s));
      } else {
        var n := NextLine(s, i);
        SplitLinesStep(s, i);
        SplitLinesSplits(s[n..]);
        FirstLineAt(s, i, SplitLines(s[n..]) == []);
        SplitsCons(s, s[..i], n - i, SplitLines(s[n..]), LineWidths(s[n..]), SplitLines(s), LineWidths(s));
      }
    }
  }

  /** A text with no characters has no lines. */
  lemma SplitsEmpty(lines: seq<string>, widths: seq<nat>)
    requires Splits([], lines, widths)
    ensures lines == []
  {
  }

  /** A line closed by a boundary ends at the first boundary character, and
      the boundary is the one `SplitLines` takes there. */
  lemma LineAtHead(s: string, l: string, w: nat, last: bool)
    requires LineAt(s, l, w, last) && (w != 0 || |l| == |s|)
    ensures |l| == FirstWhere(s, IsLineBreak)
    ensures |l| < |s| ==> |l| + w == NextLine(s, |l|)
  {
    assert forall k | 0 <= k < |l| :: s[k] == l[k];
    FirstWhereIs(s, IsLineBreak, |l|);
  }

  /** In any cutting `Splits` allows, the first line ends at the first
      boundary character, and its boundary is the one `SplitLines` takes. */
  lemma SplitsHead(s: string, lines: seq<string>, widths: seq<nat>)
    requires Splits(s, lines, widths) && lines != []
    ensures |lines[0]| == FirstWhere(s, IsLineBreak)
    ensures |lines[0]| < |s| ==> |lines[0]| + widths[0] == NextLine(s, |lines[0]|)
    ensures |lines[0]| == |s| ==> widths[0] == 0 && |lines| == 1
  {
    if widths[0] == 0 {
      SplitsEmpty(lines[1..], widths[1..]);
    }
    LineAtHead(s, lines[0], widths[0], |lines| == 1);
  }

  /** `Splits` allows only one cutting of a text: the one `SplitLines` makes. */
  lemma {:induction false} SplitsUnique(s: string, lines: seq<string>, widths: seq<nat>)
    requires Splits(s, lines, widths)
    ensures lines == SplitLines(s) && widths == LineWidths(s)
    decreases |lines|
  {
    if lines != [] {
      SplitsHead(s, lines, widths);
      if |lines[0]| == |s| {
        SplitsUniqueLast(s, lines, widths);
      } else {
        var n := NextLine(s, |lines[0]|);
        SplitsUnique(s[n..], lines[1..], widths[1..]);
        SplitsUniqueStep(s, lines, widths);
      }
    }
  }

  /** `SplitsUnique` when the first line runs to the end of the text. */
  lemma SplitsUniqueLast(s: string, lines: seq<string>, widths: seq<nat>)
    requires Splits(s, lines, widths) && lines != [] && |lines[0]| == |s|
    requires |lines| == 1 && widths[0] == 0
    ensures lines == SplitLines(s) && widths == LineWidths(s)
  {
    var l := lines[0];
    assert l == s[..|l|] == s;
    FirstWhereIs(s, IsLineBreak, |s|);
    SplitLinesLast(s);
    ConsEq(lines, SplitLines(s), l, []);
    ConsEq(widths, LineWidths(s), 0, []);
  }

  /** `SplitsUnique` past the first line, given it for the rest. */
  lemma SplitsUniqueStep(s: string, lines: seq<string>, widths: seq<nat>)
    requires Splits(s, lines, widths) && lines != [] && |lines[0]| < |s|
    requires |lines[0]| == FirstWhere(s, IsLineBreak)
    requires var n := NextLine(s, |lines[0]|);
      |lines[0]| + widths[0] == n && lines[1..] == SplitLines(s[n..]) && widths[1..] == LineWidths(s[n..])
    ensures lines == SplitLines(s) && widths == LineWidths(s)
  {
    var l, w := lines[0], widths[0];
    assert l == s[..|l|];
    SplitLinesStep(s, |l|);
    ConsEq(lines, SplitLines(s), l, lines[1..]);
    ConsEq(widths, LineWidths(s), w, widths[1..]);
  }

  /** The lines of a text are those `Splits` describes, and no others. */
  lemma SplitLinesSpec(s: string, lines: seq<string>, widths: seq<nat>)
    ensures Splits(s, SplitLines(s), LineWidths(s))
    ensures Splits(s, lines, widths) <==> lines == SplitLines(s) && widths == LineWidths(s)
  {
    SplitLinesSplits(s);
    if Splits(s, lines, widths) {
      SplitsUnique(s, lines, widths);
    }
  }

  /** No boundary character of `s` other than `'\n'`. */
  ghost predicate OnlyNewlines(s: string) {
    forall k | 0 <= k < |s| && IsLineBreak(s[k]) :: s[k] == '\n'
  }

  /** `JoinLines` writes the first line, a newline, then the others. */
  lemma JoinLinesCons(l: string, rest: seq<string>)
    ensures JoinLines([l] + rest) == l + "\n" + JoinLines(rest)
  {
    assert ([l] + rest)[1..] == rest;
  }

  /** On a text whose only boundary character is `'\n'`, joining the lines
      back gives the text, with a final newline added when it lacks one. */
  lemma {:induction false} JoinSplitLines(s: string)
    requires OnlyNewlines(s)
    ensures JoinLines(SplitLines(s)) == if s == [] || s[|s| - 1] == '\n' then s else s + "\n"
    decreases |s|
  {
    if s != [] {
      var i := FirstWhere(s, IsLineBreak);
      if i == |s| {
        assert SplitLines(s) == [s];
        JoinLinesCons(s, []);
        assert !IsLineBreak(s[|s| - 1]);
      } else {
        var a, rest := s[..i], s[i + 1..];
        assert s[i] == '\n';
        assert s == a + "\n" + rest;
        JoinSplitTail(s, i);
        JoinSplitLines(rest);
        FirstWhereIs(a, IsLineBreak, i);
        SplitJoinLast(a, rest, i);
        JoinLinesCons(a, SplitLines(rest));
        if rest != [] {
          assert s[|s| - 1] == rest[|rest| - 1];
        }
      }
    }
  }

  /** What follows a newline of a text keeps having newlines only. */
  lemma JoinSplitTail(s: string, i: nat)
    requires OnlyNewlines(s) && i < |s|
    ensures OnlyNewlines(s[i + 1..])
  {
    var rest := s[i + 1..];
    forall k | 0 <= k < |rest| && IsLineBreak(rest[k]) ensures rest[k] == '\n' {
      assert rest[k] == s[i + 1 + k];
    }
  }

  /** The empty line that the added newline closes in `a + "\n" + b`: there
      is one when `a` is empty or already ends in a boundary, except a lone
      `"\r"`, which the newline completes into `"\r\n"`. */
  function ExtraLine(a: string): seq<string> {
    if a == [] || (IsLineBreak(a[|a| - 1]) && a[|a| - 1] != '\r') then [[]] else []
  }

  /** The first line break of `a + "\n" + b` is the first one of `a`, or
      the added newline when `a` has none. */
  lemma FirstBreakOfJoin(a: string, b: string)
    ensures FirstWhere(a + "\n" + b, IsLineBreak) == FirstWhere(a, IsLineBreak)
  {
    var s := a + "\n" + b;
    assert forall k | 0 <= k < |a| :: s[k] == a[k];
    FirstWhereIs(s, IsLineBreak, FirstWhere(a, IsLineBreak));
  }

  /** When `a` holds no line boundary, or its only one is a final `"\r"`
      that the added newline completes, the joined text's first line is the
      one of `a` and its other lines are those of `b`. */
  lemma SplitJoinLast(a: string, b: string, i: nat)
    requires i == FirstWhere(a, IsLineBreak)
    requires i == |a| || (i + 1 == |a| && a[i] == '\r')
    ensures SplitLines(a + "\n" + b) == [a[..i]] + SplitLines(b)
    ensures SplitLines(a) == if i == |a| && a == [] then [] else [a[..i]]
  {
    var s := a + "\n" + b;
    FirstBreakOfJoin(a, b);
    assert s[..i] == a[..i];
    assert s[NextLine(s, i)..] == b;
    if i < |a| {
      assert a[NextLine(a, i)..] == [];
      assert SplitLines(a) == [a[..i]] + SplitLines([]);
    } else {
      assert a[..i] == a;
    }
  }

  /** Past a line boundary inside `a`, the joined text goes on as the rest of
      `a` joined to `b`. */
  lemma SplitJoinBreak(a: string, b: string, i: nat)
    requires i == FirstWhere(a, IsLineBreak) && i < |a| && !(i + 1 == |a| && a[i] == '\r')
    ensures SplitLines(a + "\n" + b) == [a[..i]] + SplitLines(a[NextLine(a, i)..] + "\n" + b)
    ensures SplitLines(a) == [a[..i]] + SplitLines(a[NextLine(a, i)..])
  {
    var s := a + "\n" + b;
    FirstBreakOfJoin(a, b);
    assert s[..i] == a[..i];
    assert NextLine(s, i) == NextLine(a, i);
    assert s[NextLine(a, i)..] == a[NextLine(a, i)..] + "\n" + b;
  }

  /** `SplitJoin` when `a` holds no boundary but a final `"\r"`. */
  lemma SplitJoinLastExtra(a: string, b: string, i: nat)
    requires i == FirstWhere(a, IsLineBreak)
    requires i == |a| || (i + 1 == |a| && a[i] == '\r')
    ensures SplitLines(a + "\n" + b) == SplitLines(a) + ExtraLine(a) + SplitLines(b)
  {
    SplitJoinLast(a, b, i);
    if a == [] {
      assert [] + ExtraLine(a) == [a[..i]];
    } else {
      ExtraLineLast(a, i);
      assert SplitLines(a) + [] == [a[..i]];
    }
    Regroup2(SplitLines(a + "\n" + b), [a[..i]], SplitLines(b), SplitLines(a), ExtraLine(a));
  }

  /** A non-empty text whose only boundary is a final `"\r"`, or that has
      none, gains no empty line from an added newline. */
  lemma ExtraLineLast(a: string, i: nat)
    requires a != [] && i == FirstWhere(a, IsLineBreak)
    requires i == |a| || (i + 1 == |a| && a[i] == '\r')
    ensures ExtraLine(a) == []
  {
    if i == |a| {
      assert !IsLineBreak(a[|a| - 1]);
    }
  }

  /** Past the first line of `a`, the empty line after `a` is the same. */
  lemma ExtraLineAfter(a: string, i: nat)
    requires i < |a| && IsLineBreak(a[i]) && !(i + 1 == |a| && a[i] == '\r')
    ensures ExtraLine(a[NextLine(a, i)..]) == ExtraLine(a)
  {
    var n := NextLine(a, i);
    if n < |a| {
      ExtraLineSuffix(a, n);
    } else {
      ExtraLineEnd(a, i);
    }
  }

  /** A text ending in a boundary other than a lone `"\r"` gains an empty
      line, as its empty end does. */
  lemma ExtraLineEnd(a: string, i: nat)
    requires i < |a| && IsLineBreak(a[i]) && !(i + 1 == |a| && a[i] == '\r')
    requires NextLine(a, i) == |a|
    ensures ExtraLine(a[|a|..]) == ExtraLine(a) == [[]]
  {
    if i + 2 == |a| {
      assert a[|a| - 1] == '\n';
    } else {
      assert a[|a| - 1] == a[i] && a[i] != '\r';
    }
  }

  /** A non-empty end of a text gains the same empty line as the text. */
  lemma ExtraLineSuffix(a: string, n: nat)
    requires n < |a|
    ensures ExtraLine(a[n..]) == ExtraLine(a)
  {
    assert a[n..][|a[n..]| - 1] == a[|a| - 1];
  }

  /** Joining two texts with a newline joins their lines, with one empty line
      in between when `a` is empty or already ends in a boundary. */
  lemma {:induction false} SplitJoin(a: string, b: string)
    ensures SplitLines(a + "\n" + b) == SplitLines(a) + ExtraLine(a) + SplitLines(b)
    decreases |a|
  {
    var i := FirstWhere(a, IsLineBreak);
    if i == |a| || (i + 1 == |a| && a[i] == '\r') {
      SplitJoinLastExtra(a, b, i);
    } else {
      var n := NextLine(a, i);
      SplitJoinBreak(a, b, i);
      SplitJoin(a[n..], b);
      ExtraLineAfter(a, i);
      Regroup(SplitLines(a + "\n" + b), SplitLines(a[n..] + "\n" + b), SplitLines(a),
              [a[..i]], SplitLines(a[n..]), ExtraLine(a), SplitLines(b));
    }
  }

  /** A line-by-line reading that skips empty lines distributes over joining
      two texts with a newline: nothing is lost, merged or reordered across
      the seam. */
  lemma SplitFilterAppend<B>(a: string, b: string, f: string -> Option<B>)
    requires f("").None?
    ensures FilterMap(SplitLines(a + "\n" + b), f) == FilterMap(SplitLines(a), f) + FilterMap(SplitLines(b), f)
  {
    var x, e, y := SplitLines(a), ExtraLine(a), SplitLines(b);
    SplitJoin(a, b);
    FilterMapAppend(x + e, y, f);
    FilterMapAppend(x, e, f);
    FilterMapEmpty(e, f);
  }

  /** One line's entry: the stripped line, unless that is empty. */
  function NonBlank(line: string): Option<string> {
    var t := Strip(line);
    if t != [] then Some(t) else None
  }

  /** `[u.strip() for u in text.splitlines() if u.strip()]`: the entries of a
      one-per-line text area. */
  function ParseLines(text: string): seq<string> {
    FilterMap(SplitLines(text), NonBlank)
  }

  /** The entries of a text are exactly its lines that are not blank, each
      stripped, in line order, repetitions kept: the entry at position `k`
      comes from line `Picked(..)[k]`, and every line left out is blank. */
  lemma ParseLinesSpec(text: string)
    ensures Selects(SplitLines(text), NonBlank, ParseLines(text), Picked(SplitLines(text), NonBlank))
    ensures forall k | 0 <= k < |SplitLines(text)| ::
      NonBlank(SplitLines(text)[k]).None? <==> AllSpace(SplitLines(text)[k])
  {
    FilterMapSelects(SplitLines(text), NonBlank);
    forall k | 0 <= k < |SplitLines(text)| ensures NonBlank(SplitLines(text)[k]).None? <==> AllSpace(SplitLines(text)[k]) {
      StripEmpty(SplitLines(text)[k]);
    }
  }

  /** Parsing a list of clean entries written one per line gives back the same
      list, in the same order and with every repetition. */
  lemma ParseJoinLines(entries: seq<string>)
    requires forall k | 0 <= k < |entries| :: entries[k] != [] && IsStripped(entries[k]) && NoBreak(entries[k])
    ensures ParseLines(JoinLines(entries)) == entries
  {
    SplitJoinLines(entries);
    forall k | 0 <= k < |entries| ensures NonBlank(entries[k]) == Some(entries[k]) {
      StripStripped(entries[k]);
    }
    FilterMapAll(entries, NonBlank, entries);
  }

  /** Joining two texts with a newline concatenates their entries. */
  lemma ParseLinesAppend(a: string, b: string)
    ensures ParseLines(a + "\n" + b) == ParseLines(a) + ParseLines(b)
  {
    assert Strip("") == [];
    SplitFilterAppend(a, b, NonBlank);
  }

  /** The boundary at `i` together with a `"\n"` it absorbs is white space. */
  lemma BoundarySpace(s: string, i: nat)
    requires i < |s| && IsLineBreak(s[i])
    ensures AllSpace(s[i..NextLine(s, i)])
  {
  }

  /** A string cut in three is all white space exactly when each piece is. */
  lemma AllSpaceSplit(s: string, i: nat, n: nat)
    requires i <= n <= |s|
    ensures AllSpace(s) <==> AllSpace(s[..i]) && AllSpace(s[i..n]) && AllSpace(s[n..])
  {
    if AllSpace(s[..i]) && AllSpace(s[i..n]) && AllSpace(s[n..]) {
      forall k | 0 <= k < |s| ensures IsSpace(s[k]) {
        if k < i {
          assert s[k] == s[..i][k];
        } else if k < n {
          assert s[k] == s[i..n][k - i];
        } else {
          assert s[k] == s[n..][k - n];
        }
      }
    }
  }

  /** A text area yields no entries exactly when it is all white space. */
  lemma {:induction false} ParseLinesEmpty(text: string)
    ensures ParseLines(text) == [] <==> AllSpace(text)
    decreases |text|
  {
    if text != [] {
      var i := FirstWhere(text, IsLineBreak);
      var lines := SplitLines(text);
      StripEmpty(text[..i]);
      if i == |text| {
        assert lines == [text] && text[..i] == text && lines[1..] == [];
      } else {
        var n := NextLine(text, i);
        assert lines[0] == text[..i] && lines[1..] == SplitLines(text[n..]);
        ParseLinesEmpty(text[n..]);
        BoundarySpace(text, i);
        AllSpaceSplit(text, i, n);
      }
    }
  }

  /** Python's `sep in s` followed by `s.split(sep, 1)`: the text before the
      first `sep` and everything after it, or `None` when `sep` does not occur. */
  function SplitOnce(s: string, sep: char): (r: Option<(string, string)>)
    ensures r.None? <==> sep !in s
    ensures r.Some? ==> s == r.value.0 + [sep] + r.value.1 && sep !in r.value.0
  {
    var i := FirstWhere(s, c => c == sep);
    if i == |s| then
      None
    else
      assert s == s[..i] + [sep] + s[i + 1..];
      Some((s[..i], s[i + 1..]))
  }

  /** `split(sep, 1)` cuts at the first separator: it recovers both halves of
      any string whose first part holds no separator. */
  lemma {:induction false} SplitOnceJoin(a: string, sep: char, b: string)
    requires sep !in a
    ensures SplitOnce(a + [sep] + b, sep) == Some((a, b))
  {
    var s := a + [sep] + b;
    assert forall k | 0 <= k < |a| :: s[k] == a[k];
    FirstWhereIs(s, c => c == sep, |a|);
    assert s[..|a|] == a && s[|a| + 1..] == b;
  }
}
