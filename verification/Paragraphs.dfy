/**
  The text pipeline of `publicParagraphs` (`packages/shared/src/schemas/event.schema.ts`) with
  `stripInvisible` (`packages/shared/src/utils/text.ts`). Unicode normalisation is library code: it
  enters as a function of which four laws of NFKC (Unicode Standard Annex #15) are used.
 */
module Paragraphs {

  // ---- Characters ----------------------------------------------------------------------------

  /** `INVISIBLE_RANGES`. */
  predicate Invisible(c: char) {
    var p := c as int;
    || p <= 0x08 || 0x0b <= p <= 0x0c || 0x0e <= p <= 0x1f || p == 0x7f
    || 0x200b <= p <= 0x200f || 0x2028 <= p <= 0x202e || 0x2060 <= p <= 0x206f || p == 0xfeff
  }

  /** What `trim` removes (ECMA-262 section 22.1.3.32: white space and line terminators). */
  predicate White(c: char) {
    var p := c as int;
    || 0x09 <= p <= 0x0d || p == 0x20 || p == 0xa0 || p == 0x1680 || 0x2000 <= p <= 0x200a
    || p == 0x2028 || p == 0x2029 || p == 0x202f || p == 0x205f || p == 0x3000 || p == 0xfeff
  }

  /** The control characters, save the tab and the line ends, and what hides or disguises text beyond them. */
  lemma InvisibleMeans(c: char)
    ensures Invisible(c) <==>
            || ((c < ' ' || c == '\U{7f}') && c != '\t' && c != '\n' && c != '\r')
            || '\U{200b}' <= c <= '\U{200f}'                          // zero width, direction marks
            || c == '\U{2028}' || c == '\U{2029}'                      // line and paragraph separator
            || '\U{202a}' <= c <= '\U{202e}'                          // direction overrides
            || '\U{2060}' <= c <= '\U{206f}' || c == '\U{feff}'         // joiners, byte order mark
  {
  }

  /** The space, tab and line ends, the other spaces of Unicode and the byte order mark. */
  lemma WhiteMeans(c: char)
    ensures White(c) <==>
            || c == ' ' || c == '\t' || c == '\n' || c == '\r' || c == '\U{b}' || c == '\U{c}'
            || c == '\U{a0}' || c == '\U{1680}' || '\U{2000}' <= c <= '\U{200a}'
            || c == '\U{2028}' || c == '\U{2029}' || c == '\U{202f}' || c == '\U{205f}'
            || c == '\U{3000}' || c == '\U{feff}'
  {
  }

  predicate Break(c: char) { c == '\n' }

  /** `[ \t]`. */
  predicate Blank(c: char) { c == ' ' || c == '\t' }

  // ---- The pipeline --------------------------------------------------------------------------

  /** How many characters at the front satisfy `p`. */
  function Leading(p: char -> bool, s: string): (n: nat)
    ensures n <= |s|
    ensures forall i | 0 <= i < n :: p(s[i])
    ensures n < |s| ==> !p(s[n])
  {
    if s == "" || !p(s[0]) then 0 else 1 + Leading(p, s[1..])
  }

  function StripInvisible(s: string): string {
    if s == "" then ""
    else (if Invisible(s[0]) then "" else [s[0]]) + StripInvisible(s[1..])
  }

  /** `.replace(/\r\n?/g, '\n')`. */
  function UnifyBreaks(s: string): string {
    if s == "" then ""
    else if s[0] == '\r' then "\n" + UnifyBreaks(if |s| > 1 && s[1] == '\n' then s[2..] else s[1..])
    else [s[0]] + UnifyBreaks(s[1..])
  }

  /** The length of the first line. */
  function LineLength(s: string): (n: nat)
    ensures n <= |s|
    ensures forall i | 0 <= i < n :: !Break(s[i])
    ensures n < |s| ==> Break(s[n])
  {
    if s == "" || Break(s[0]) then 0 else 1 + LineLength(s[1..])
  }

  /** `.split('\n')`. */
  function Split(s: string): (lines: seq<string>)
    ensures lines != []
  {
    var n := LineLength(s);
    if n == |s| then [s] else [s[..n]] + Split(s[n + 1..])
  }

  /** `.join('\n')`. */
  function Join(lines: seq<string>): string
    requires lines != []
  {
    if |lines| == 1 then lines[0] else lines[0] + "\n" + Join(lines[1..])
  }

  /** `.replace(/[ \t]+/g, ' ')`. */
  function CollapseBlanks(s: string): string {
    if s == "" then ""
    else
      var n := Leading(Blank, s);
      if n > 0 then " " + CollapseBlanks(s[n..]) else [s[0]] + CollapseBlanks(s[1..])
  }

  function TrimEnd(s: string): string {
    if s == "" || !White(s[|s| - 1]) then s else TrimEnd(s[..|s| - 1])
  }

  /** `.trim()`. */
  function Trim(s: string): string { TrimEnd(s[Leading(White, s)..]) }

  function Tidied(lines: seq<string>): (r: seq<string>)
    ensures |r| == |lines|
  {
    if lines == [] then [] else [Trim(CollapseBlanks(lines[0]))] + Tidied(lines[1..])
  }

  /** `.replace(/\n{3,}/g, '\n\n')`. */
  function CollapseBreaks(s: string): string {
    if s == "" then ""
    else
      var n := Leading(Break, s);
      if n >= 3 then "\n\n" + CollapseBreaks(s[n..])
      else if n > 0 then s[..n] + CollapseBreaks(s[n..])
      else [s[0]] + CollapseBreaks(s[1..])
  }

  function TidyLines(s: string): string { Join(Tidied(Split(s))) }

  function Paragraphs(nfkc: string -> string, value: string): string {
    Trim(CollapseBreaks(TidyLines(UnifyBreaks(nfkc(StripInvisible(value))))))
  }

  // ---- Normal form ---------------------------------------------------------------------------

  /** Two characters that may stand next to each other. */
  predicate MayFollow(a: char, b: char) {
    && !(a == ' ' && b == ' ')
    && (Break(a) ==> Break(b) || !White(b))
    && (Break(b) ==> Break(a) || !White(a))
  }

  /** No doubled space, and no white space at either side of a line break. */
  predicate WellSpaced(s: string) { forall i | 0 <= i < |s| - 1 :: MayFollow(s[i], s[i + 1]) }

  predicate NoTripleBreak(s: string) {
    forall i | 0 <= i < |s| - 2 :: !(Break(s[i]) && Break(s[i + 1]) && Break(s[i + 2]))
  }

  predicate NoCharacter(p: char -> bool, s: string) { forall i | 0 <= i < |s| :: !p(s[i]) }

  /** A character no normal form holds. */
  predicate Unwanted(c: char) { Invisible(c) || c == '\r' || c == '\t' }

  predicate Trimmed(s: string) { s != "" ==> !White(s[0]) && !White(s[|s| - 1]) }

  /** What public text looks like. */
  predicate NormalForm(s: string) {
    NoCharacter(Unwanted, s) && WellSpaced(s) && NoTripleBreak(s) && Trimmed(s)
  }

  /** The visible characters of a text, in order. */
  function Visible(s: string): string {
    if s == "" then ""
    else (if White(s[0]) || Invisible(s[0]) then "" else [s[0]]) + Visible(s[1..])
  }

  lemma {:induction false} VisibleOfConcat(a: string, b: string)
    ensures Visible(a + b) == Visible(a) + Visible(b)
  {
    hide White, Invisible;
    if a == "" {
      assert a + b == b;
    } else {
      assert (a + b)[1..] == a[1..] + b;
      VisibleOfConcat(a[1..], b);
    }
  }

  lemma {:induction false} NothingVisible(s: string)
    requires forall i | 0 <= i < |s| :: White(s[i]) || Invisible(s[i])
    ensures Visible(s) == ""
  {
    if s != "" { NothingVisible(s[1..]); }
  }

  /** `t` is what a stage of the pipeline may make of `s`: no longer, and with the same visible text. */
  predicate Keeps(s: string, t: string) { |t| <= |s| && Visible(t) == Visible(s) }

  // ---- The stages ----------------------------------------------------------------------------

  lemma {:induction false} Stripped(s: string)
    ensures NoCharacter(Invisible, StripInvisible(s)) && Keeps(s, StripInvisible(s))
    ensures NoCharacter(Invisible, s) ==> StripInvisible(s) == s
  {
    if s != "" {
      Stripped(s[1..]);
      var rest := StripInvisible(s[1..]);
      assert StripInvisible(s) == if Invisible(s[0]) then rest else [s[0]] + rest;
      assert ([s[0]] + rest)[1..] == rest;
    }
  }

  predicate Return(c: char) { c == '\r' }

  lemma {:induction false} Unified(s: string)
    requires NoCharacter(Invisible, s)
    ensures NoCharacter(Invisible, UnifyBreaks(s)) && NoCharacter(Return, UnifyBreaks(s))
    ensures Keeps(s, UnifyBreaks(s))
    ensures NoCharacter(Return, s) ==> UnifyBreaks(s) == s
  {
    if s != "" {
      var rest := if s[0] == '\r' && |s| > 1 && s[1] == '\n' then s[2..] else s[1..];
      Unified(rest);
      if s[0] == '\r' && |s| > 1 && s[1] == '\n' { assert s[1..][1..] == rest; }
    }
  }

  predicate NoDoubleSpace(s: string) { forall i | 0 <= i < |s| - 1 :: !(s[i] == ' ' && s[i + 1] == ' ') }

  predicate Tab(c: char) { c == '\t' }

  lemma {:induction false} CollapseKeeps(s: string)
    ensures Keeps(s, CollapseBlanks(s))
    decreases |s|
  {
    BlanksAreInvisible(" ");
    hide Blank, White, Invisible;
    if s != "" {
      var n := Leading(Blank, s);
      var k := if n > 0 then n else 1;
      CollapseKeeps(s[k..]);
      assert s == s[..k] + s[k..];
      VisibleOfConcat(s[..k], s[k..]);
      VisibleOfConcat(if n > 0 then " " else [s[0]], CollapseBlanks(s[k..]));
      if n > 0 { BlanksAreInvisible(s[..n]); }
    }
  }

  lemma BlanksAreInvisible(s: string)
    requires forall i | 0 <= i < |s| :: Blank(s[i])
    ensures Visible(s) == ""
  {
    NothingVisible(s);
  }

  lemma {:induction false} CollapseSpaces(s: string)
    ensures NoDoubleSpace(CollapseBlanks(s)) && NoCharacter(Tab, CollapseBlanks(s))
    ensures forall c | c in CollapseBlanks(s) :: c in s || c == ' '
    ensures s != "" && !Blank(s[0]) ==> CollapseBlanks(s) != "" && CollapseBlanks(s)[0] == s[0]
    decreases |s|
  {
    hide Leading;
    if s != "" {
      var n := Leading(Blank, s);
      CollapseSpaces(s[if n > 0 then n else 1..]);
    }
  }

  lemma {:induction false} CollapseFixes(s: string)
    requires NoDoubleSpace(s) && NoCharacter(Tab, s)
    ensures CollapseBlanks(s) == s
    decreases |s|
  {
    if s != "" {
      var n := Leading(Blank, s);
      assert !Tab(s[0]) && (|s| > 1 ==> !Tab(s[1]) && !(s[0] == ' ' && s[1] == ' '));
      CollapseFixes(s[1..]);
    }
  }

  lemma {:induction false} TrimEndTrims(s: string)
    ensures var t := TrimEnd(s); t <= s && Visible(t) == Visible(s) && (t != "" ==> !White(t[|t| - 1]))
    ensures forall i | |TrimEnd(s)| <= i < |s| :: White(s[i])
  {
    hide White, Visible;
    if s != "" && White(s[|s| - 1]) {
      var front, last := s[..|s| - 1], s[|s| - 1..];
      TrimEndTrims(front);
      assert s == front + last;
      VisibleOfConcat(front, last);
      NothingVisible(last);
      assert Visible(front) + "" == Visible(front);
    }
  }

  /** A piece of `s`, cut at `k`. */
  predicate PieceAt(t: string, s: string, k: nat) { k + |t| <= |s| && s[k..k + |t|] == t }

  /** Trimming cuts a piece out of the text and loses nothing visible. */
  lemma TrimTrims(s: string)
    ensures Trimmed(Trim(s)) && Keeps(s, Trim(s)) && PieceAt(Trim(s), s, Leading(White, s))
  {
    hide White, TrimEnd, Visible, Leading;
    var n := Leading(White, s);
    var t := TrimEnd(s[n..]);
    TrimEndTrims(s[n..]);
    assert s == s[..n] + s[n..];
    VisibleOfConcat(s[..n], s[n..]);
    NothingVisible(s[..n]);
    assert Visible(s[..n]) + Visible(s[n..]) == Visible(s[n..]);
    if t != "" { assert t[0] == s[n..][0]; }
  }

  lemma TrimFixes(s: string)
    requires Trimmed(s)
    ensures Trim(s) == s
  {
    hide White;
    assert Leading(White, s) == 0 && s[0..] == s;
  }

  // ---- Spacing of concatenations -------------------------------------------------------------

  /** The seam of two texts satisfies a relation between neighbours. */
  predicate Seam(related: (char, char) -> bool, a: string, b: string) {
    a != "" && b != "" ==> related(a[|a| - 1], b[0])
  }

  lemma WellSpacedOfConcat(a: string, b: string)
    ensures WellSpaced(a + b) <==> WellSpaced(a) && WellSpaced(b) && Seam(MayFollow, a, b)
  {
    hide MayFollow;
    var t := a + b;
    if WellSpaced(t) {
      forall i | 0 <= i < |a| - 1 ensures MayFollow(a[i], a[i + 1]) { assert MayFollow(t[i], t[i + 1]); }
      forall i | 0 <= i < |b| - 1 ensures MayFollow(b[i], b[i + 1]) {
        assert MayFollow(t[|a| + i], t[|a| + i + 1]);
      }
      if a != "" && b != "" { assert MayFollow(t[|a| - 1], t[|a| - 1 + 1]); }
    }
    if WellSpaced(a) && WellSpaced(b) && Seam(MayFollow, a, b) {
      forall i | 0 <= i < |t| - 1 ensures MayFollow(t[i], t[i + 1]) {
        if i >= |a| { assert MayFollow(b[i - |a|], b[i - |a| + 1]); }
      }
    }
  }

  /** Not both line breaks. */
  predicate Parted(a: char, b: char) { !Break(a) || !Break(b) }

  lemma NoTripleBreakOfConcat(a: string, b: string)
    requires Seam(Parted, a, b)
    requires NoTripleBreak(a) && NoTripleBreak(b)
    ensures NoTripleBreak(a + b)
  {
    forall i | 0 <= i < |a + b| - 2
      ensures !(Break((a + b)[i]) && Break((a + b)[i + 1]) && Break((a + b)[i + 2]))
    {
      if i >= |a| { assert (a + b)[i] == b[i - |a|]; }
    }
  }

  // ---- Collapsing line breaks ----------------------------------------------------------------

  /** What `CollapseBreaks` makes of the first break run or other character of a text, and the length of that part. */
  function FrontLength(s: string): (k: nat)
    requires s != ""
    ensures 0 < k <= |s|
  {
    var n := Leading(Break, s);
    if n > 0 then n else 1
  }

  function Front(s: string): string
    requires s != ""
  {
    if Leading(Break, s) >= 3 then "\n\n" else s[..FrontLength(s)]
  }

  lemma CollapseBreaksUnfolds(s: string)
    requires s != ""
    ensures CollapseBreaks(s) == Front(s) + CollapseBreaks(s[FrontLength(s)..])
  {
    if Leading(Break, s) == 0 { assert s[..1] == [s[0]]; }
  }

  /** The first part is what it was, save for its length, and is parted from what follows. */
  lemma FrontIsShorter(s: string)
    requires s != "" && NoCharacter(Unwanted, s) && WellSpaced(s)
    ensures
      var f, k := Front(s), FrontLength(s);
      && f != "" && f[0] == s[0] && f[|f| - 1] == s[k - 1]
      && NoCharacter(Unwanted, f) && WellSpaced(f) && NoTripleBreak(f)
      && (k < |s| ==> MayFollow(s[k - 1], s[k]) && Parted(s[k - 1], s[k]))
      && NoCharacter(Unwanted, s[k..]) && WellSpaced(s[k..])
  {
    var f, k := Front(s), FrontLength(s);
    if k < |s| { assert MayFollow(s[k - 1], s[k - 1 + 1]); }
    assert s == s[..k] + s[k..];
    WellSpacedOfConcat(s[..k], s[k..]);
  }

  /** Breaks collapse without disturbing the spacing. */
  lemma {:induction false} BreaksCollapse(s: string)
    requires NoCharacter(Unwanted, s) && WellSpaced(s)
    ensures
      var t := CollapseBreaks(s);
      NoCharacter(Unwanted, t) && WellSpaced(t) && NoTripleBreak(t) && (s != "" ==> t != "" && t[0] == s[0])
    decreases |s|
  {
    if s != "" {
      hide Unwanted, MayFollow, Break;
      var f, k := Front(s), FrontLength(s);
      var rest := CollapseBreaks(s[k..]);
      FrontIsShorter(s);
      BreaksCollapse(s[k..]);
      CollapseBreaksUnfolds(s);
      hide CollapseBreaks, Front, FrontLength;
      WellSpacedOfConcat(f, rest);
      NoTripleBreakOfConcat(f, rest);
    }
  }

  lemma {:induction false} BreaksKeep(s: string)
    ensures Keeps(s, CollapseBreaks(s))
    decreases |s|
  {
    if s != "" {
      hide Break, White, Invisible;
      var f, k := Front(s), FrontLength(s);
      BreaksKeep(s[k..]);
      CollapseBreaksUnfolds(s);
      assert s == s[..k] + s[k..];
      VisibleOfConcat(s[..k], s[k..]);
      VisibleOfConcat(f, CollapseBreaks(s[k..]));
      FrontKeeps(s);
    }
  }

  lemma FrontKeeps(s: string)
    requires s != ""
    ensures Keeps(s[..FrontLength(s)], Front(s))
  {
    if Leading(Break, s) >= 3 {
      NothingVisible(s[..FrontLength(s)]);
      NothingVisible("\n\n");
    }
  }

  lemma ShortFront(s: string)
    requires s != "" && NoTripleBreak(s)
    ensures Front(s) == s[..FrontLength(s)] && NoTripleBreak(s[FrontLength(s)..])
  {
    assert Leading(Break, s) < 3 by { assert |s| >= 3 ==> !(Break(s[0]) && Break(s[1]) && Break(s[2])); }
    var k := FrontLength(s);
    var rest := s[k..];
    hide Break, Leading, FrontLength;
    forall i | 0 <= i < |rest| - 2 ensures !(Break(rest[i]) && Break(rest[i + 1]) && Break(rest[i + 2])) {
      assert !(Break(s[k + i]) && Break(s[k + i + 1]) && Break(s[k + i + 2]));
    }
  }

  lemma CutInTwo(s: string, k: nat)
    requires k <= |s|
    ensures s[..k] + s[k..] == s
  {
  }

  /** A text without three breaks in a row is left alone. */
  lemma {:induction false} BreaksFix(s: string)
    requires NoTripleBreak(s)
    ensures CollapseBreaks(s) == s
    decreases |s|
  {
    if s == "" {
      NothingCollapses();
    } else {
      ShortFront(s);
      BreaksFix(s[FrontLength(s)..]);
      hide *;
      CollapseBreaksUnfolds(s);
      CutInTwo(s, FrontLength(s));
    }
  }

  // ---- Lines ---------------------------------------------------------------------------------

  lemma CutAt(s: string, n: nat)
    requires n < |s|
    ensures s == s[..n] + [s[n]] + s[n + 1..]
  {
  }

  /** A text is its first line, and the others after a break. */
  lemma CutAtBreak(s: string)
    ensures var n := LineLength(s); s == if n == |s| then s[..n] else s[..n] + "\n" + s[n + 1..]
  {
    var n := LineLength(s);
    if n < |s| {
      CutAt(s, n);
      assert [s[n]] == "\n";
    }
  }

  /** What tidying a line makes of it. */
  function TidyLine(line: string): string { Trim(CollapseBlanks(line)) }

  lemma JoinOfCons(line: string, rest: seq<string>)
    requires rest != []
    ensures Join(Tidied([line] + rest)) == TidyLine(line) + "\n" + Join(Tidied(rest))
  {
    hide CollapseBlanks, Trim;
    var t := Tidied([line] + rest);
    assert ([line] + rest)[1..] == rest;
    assert t[0] == TidyLine(line) && t[1..] == Tidied(rest);
  }

  /** The lines are tidied one by one. */
  lemma TidyLinesUnfolds(s: string)
    ensures
      var n := LineLength(s);
      TidyLines(s) == if n == |s| then TidyLine(s) else TidyLine(s[..n]) + "\n" + TidyLines(s[n + 1..])
  {
    hide CollapseBlanks, Trim, LineLength;
    var n := LineLength(s);
    if n < |s| {
      JoinOfCons(s[..n], Split(s[n + 1..]));
    }
  }

  /** A tidied line. */
  lemma LineIsTidied(line: string)
    requires NoCharacter(Invisible, line) && NoCharacter(Return, line) && NoCharacter(Break, line)
    ensures
      var t := TidyLine(line);
      Keeps(line, t) && NoCharacter(Unwanted, t) && NoCharacter(Break, t) && WellSpaced(t) && Trimmed(t)
  {
    hide CollapseBlanks, Trim, White, Visible;
    var u := CollapseBlanks(line);
    var t := Trim(u);
    CollapseKeeps(line);
    CollapseSpaces(line);
    TrimTrims(u);
    var k := Leading(White, u);
    forall i | 0 <= i < |t| ensures t[i] == u[k + i] && !Unwanted(t[i]) && !Break(t[i]) {
      assert t[i] in u && !Tab(u[k + i]);
      assert t[i] in line ==> !Invisible(t[i]) && !Return(t[i]) && !Break(t[i]) by {
        if t[i] in line { var j :| 0 <= j < |line| && line[j] == t[i]; }
      }
    }
    forall i | 0 <= i < |t| - 1 ensures MayFollow(t[i], t[i + 1]) {
      assert !(u[k + i] == ' ' && u[k + i + 1] == ' ');
    }
  }

  lemma TidyLineFixes(line: string)
    requires NoCharacter(Unwanted, line) && NoDoubleSpace(line) && Trimmed(line)
    ensures TidyLine(line) == line
  {
    assert NoCharacter(Tab, line) by {
      forall i | 0 <= i < |line| ensures !Tab(line[i]) { assert !Unwanted(line[i]); }
    }
    CollapseFixes(line);
    TrimFixes(line);
  }

  /** The first and the last character of a text may stand at the edge of a line. */
  predicate Edged(s: string) {
    s != "" ==> (Break(s[0]) || !White(s[0])) && (Break(s[|s| - 1]) || !White(s[|s| - 1]))
  }

  /** Tidying every line spaces the text well and loses nothing visible. */
  lemma {:induction false} LinesAreTidied(s: string)
    requires NoCharacter(Invisible, s) && NoCharacter(Return, s)
    ensures
      var t := TidyLines(s);
      Keeps(s, t) && NoCharacter(Unwanted, t) && WellSpaced(t) && Edged(t)
    decreases |s|
  {
    hide Invisible, White, Visible, LineLength, TidyLine, Unwanted, MayFollow, WellSpaced;
    var n := LineLength(s);
    LineIsTidied(s[..n]);
    TidyLinesUnfolds(s);
    hide TidyLines;
    CutAtBreak(s);
    if n < |s| {
      var line, rest := s[..n], s[n + 1..];
      LinesAreTidied(rest);
      LineJoins(TidyLine(line), TidyLines(rest));
      KeepsJoins(line, rest, TidyLine(line), TidyLines(rest));
    }
  }

  lemma LineJoins(t: string, rest: string)
    requires NoCharacter(Unwanted, t) && WellSpaced(t) && Trimmed(t)
    requires NoCharacter(Unwanted, rest) && WellSpaced(rest) && Edged(rest)
    ensures
      var r := t + "\n" + rest;
      NoCharacter(Unwanted, r) && WellSpaced(r) && Edged(r)
  {
    var r := t + "\n" + rest;
    WellSpacedOfConcat(t, "\n");
    WellSpacedOfConcat(t + "\n", rest);
    forall i | 0 <= i < |r| ensures !Unwanted(r[i]) {
      assert i > |t| ==> r[i] == rest[i - |t| - 1];
    }
  }

  lemma KeepsJoins(a: string, b: string, c: string, d: string)
    requires Keeps(a, c) && Keeps(b, d)
    ensures Keeps(a + "\n" + b, c + "\n" + d)
  {
    VisibleOfConcat(a + "\n", b);
    VisibleOfConcat(a, "\n");
    VisibleOfConcat(c + "\n", d);
    VisibleOfConcat(c, "\n");
  }

  /** A well-spaced text with bare edges is a well-spaced line with bare edges, and such a text after it. */
  lemma FirstLine(s: string)
    requires NoCharacter(Unwanted, s) && WellSpaced(s) && Edged(s)
    ensures
      var n := LineLength(s);
      && NoCharacter(Unwanted, s[..n]) && NoDoubleSpace(s[..n]) && Trimmed(s[..n])
      && (n < |s| ==> NoCharacter(Unwanted, s[n + 1..]) && WellSpaced(s[n + 1..]) && Edged(s[n + 1..]))
  {
    hide Unwanted, White, LineLength;
    var n := LineLength(s);
    forall i | 0 <= i < n - 1 ensures !(s[i] == ' ' && s[i + 1] == ' ') { assert MayFollow(s[i], s[i + 1]); }
    if 0 < n < |s| { assert MayFollow(s[n - 1], s[n - 1 + 1]); }
    if n < |s| {
      var rest := s[n + 1..];
      if rest != "" { assert MayFollow(s[n], s[n + 1]) && rest[0] == s[n + 1]; }
      forall i | 0 <= i < |rest| - 1 ensures MayFollow(rest[i], rest[i + 1]) {
        assert MayFollow(s[n + 1 + i], s[n + 1 + i + 1]);
      }
    }
  }

  /** A well-spaced text with bare edges is left alone. */
  lemma {:induction false} LinesFix(s: string)
    requires NoCharacter(Unwanted, s) && WellSpaced(s) && Edged(s)
    ensures TidyLines(s) == s
    decreases |s|
  {
    hide *;
    var n := LineLength(s);
    CutAtBreak(s);
    FirstLine(s);
    TidyLineFixes(s[..n]);
    TidyLinesUnfolds(s);
    if n < |s| { LinesFix(s[n + 1..]); }
  }

  // ---- Normalisation -------------------------------------------------------------------------

  /** A text that normalisation leaves alone. */
  predicate Stable(nfkc: string -> string, s: string) { nfkc(s) == s }

  /** Normalised text stays so, and no invisible character comes of it. */
  ghost predicate Normalises(nfkc: string -> string) {
    forall s :: Stable(nfkc, nfkc(s)) && (NoCharacter(Invisible, s) ==> NoCharacter(Invisible, nfkc(s)))
  }

  /** Parts of normalised text are normalised. */
  ghost predicate PartsAreStable(nfkc: string -> string) {
    forall a, b :: Stable(nfkc, a + b) ==> Stable(nfkc, a) && Stable(nfkc, b)
  }

  /** A space and a line break combine with nothing around them. */
  ghost predicate SpacesSeparate(nfkc: string -> string) {
    forall a, b | Stable(nfkc, a) && Stable(nfkc, b) :: Stable(nfkc, a + " " + b) && Stable(nfkc, a + "\n" + b)
  }

  ghost predicate NfkcLaws(nfkc: string -> string) {
    Normalises(nfkc) && PartsAreStable(nfkc) && SpacesSeparate(nfkc)
  }

  lemma StableParts(nfkc: string -> string, a: string, b: string)
    requires NfkcLaws(nfkc) && Stable(nfkc, a + b)
    ensures Stable(nfkc, a) && Stable(nfkc, b) && Stable(nfkc, "")
  {
    assert "" + (a + b) == a + b;
  }

  lemma StableAround(nfkc: string -> string, a: string, b: string)
    requires NfkcLaws(nfkc) && Stable(nfkc, a) && Stable(nfkc, b)
    ensures Stable(nfkc, a + " " + b) && Stable(nfkc, a + "\n" + b)
  {
  }

  /** A piece `s` between `p` and `rest` gives way to a space or a break. */
  lemma StableInstead(nfkc: string -> string, p: string, s: string, rest: string, rest': string)
    requires NfkcLaws(nfkc) && Stable(nfkc, p + s + rest)
    requires Stable(nfkc, rest) ==> Stable(nfkc, rest')
    ensures Stable(nfkc, rest) && Stable(nfkc, p + (" " + rest')) && Stable(nfkc, p + ("\n" + rest'))
  {
    hide NfkcLaws, Stable;
    StableParts(nfkc, p + s, rest);
    StableParts(nfkc, p, s);
    StableAround(nfkc, p, rest');
    assert p + (" " + rest') == p + " " + rest' && p + ("\n" + rest') == p + "\n" + rest';
  }

  function BreakLength(s: string): (k: nat)
    requires s != ""
    ensures 0 < k <= |s|
  {
    if s[0] == '\r' && |s| > 1 && s[1] == '\n' then 2 else 1
  }

  lemma UnifyBreaksUnfolds(s: string)
    ensures s == "" ==> UnifyBreaks(s) == ""
    ensures s != "" ==>
              var rest := UnifyBreaks(s[BreakLength(s)..]);
              UnifyBreaks(s) == if s[0] == '\r' then "\n" + rest else s[..1] + rest
  {
    if s != "" { assert s[..1] == [s[0]]; }
  }

  lemma {:induction false} UnifyKeepsStable(nfkc: string -> string, p: string, s: string)
    requires NfkcLaws(nfkc) && Stable(nfkc, p + s)
    ensures Stable(nfkc, p + UnifyBreaks(s))
    decreases |s|
  {
    hide NfkcLaws, Stable, UnifyBreaks;
    UnifyBreaksUnfolds(s);
    if s != "" {
      var k := BreakLength(s);
      var rest := s[k..];
      assert p + s == p + s[..k] + rest;
      StableParts(nfkc, p + s[..k], rest);
      if s[0] == '\r' {
        assert "" + rest == rest && "" + UnifyBreaks(rest) == UnifyBreaks(rest);
        UnifyKeepsStable(nfkc, "", rest);
        StableInstead(nfkc, p, s[..k], rest, UnifyBreaks(rest));
      } else {
        UnifyKeepsStable(nfkc, p + s[..1], rest);
        assert p + (s[..1] + UnifyBreaks(rest)) == p + s[..1] + UnifyBreaks(rest);
      }
    }
  }

  lemma CollapseBlanksUnfolds(s: string)
    ensures s == "" ==> CollapseBlanks(s) == ""
    ensures s != "" ==>
              var n := Leading(Blank, s);
              CollapseBlanks(s) ==
              if n > 0 then " " + CollapseBlanks(s[n..]) else s[..1] + CollapseBlanks(s[1..])
  {
    if s != "" { assert s[..1] == [s[0]]; }
  }

  lemma {:induction false} CollapseBlanksKeepsStable(nfkc: string -> string, p: string, s: string)
    requires NfkcLaws(nfkc) && Stable(nfkc, p + s)
    ensures Stable(nfkc, p + CollapseBlanks(s))
    decreases |s|
  {
    hide NfkcLaws, Stable, CollapseBlanks;
    CollapseBlanksUnfolds(s);
    if s != "" {
      var n := Leading(Blank, s);
      var k := if n > 0 then n else 1;
      var rest := s[k..];
      assert p + s == p + s[..k] + rest;
      StableParts(nfkc, p + s[..k], rest);
      if n > 0 {
        assert "" + rest == rest && "" + CollapseBlanks(rest) == CollapseBlanks(rest);
        CollapseBlanksKeepsStable(nfkc, "", rest);
        StableInstead(nfkc, p, s[..k], rest, CollapseBlanks(rest));
      } else {
        CollapseBlanksKeepsStable(nfkc, p + s[..1], rest);
        assert p + (s[..1] + CollapseBlanks(rest)) == p + s[..1] + CollapseBlanks(rest);
      }
    }
  }

  lemma NothingCollapses()
    ensures CollapseBreaks("") == ""
  {
  }

  lemma {:induction false} CollapseBreaksKeepsStable(nfkc: string -> string, p: string, s: string)
    requires NfkcLaws(nfkc) && Stable(nfkc, p + s)
    ensures Stable(nfkc, p + CollapseBreaks(s))
    decreases |s|
  {
    hide NfkcLaws, Stable, CollapseBreaks;
    if s == "" {
      NothingCollapses();
    } else {
      var k := FrontLength(s);
      var rest := s[k..];
      var done := CollapseBreaks(rest);
      CollapseBreaksUnfolds(s);
      assert p + s == p + s[..k] + rest;
      StableParts(nfkc, p + s[..k], rest);
      if Leading(Break, s) >= 3 {
        assert "" + rest == rest && "" + done == done;
        CollapseBreaksKeepsStable(nfkc, "", rest);
        StableParts(nfkc, "", rest);
        StableAround(nfkc, "", done);
        assert "" + "\n" + done == "\n" + done;
        StableInstead(nfkc, p, s[..k], rest, "\n" + done);
        assert "\n\n" + done == "\n" + ("\n" + done);
      } else {
        CollapseBreaksKeepsStable(nfkc, p + s[..k], rest);
        assert p + (s[..k] + done) == p + s[..k] + done;
      }
    }
  }

  lemma TrimKeepsStable(nfkc: string -> string, s: string)
    requires NfkcLaws(nfkc) && Stable(nfkc, s)
    ensures Stable(nfkc, Trim(s))
  {
    hide NfkcLaws, Stable, Trim;
    var before, after := TrimParts(s);
    StableParts(nfkc, before + Trim(s), after);
    StableParts(nfkc, before, Trim(s));
  }

  lemma {:induction false} TidyLinesKeepsStable(nfkc: string -> string, s: string)
    requires NfkcLaws(nfkc) && Stable(nfkc, s)
    ensures Stable(nfkc, TidyLines(s))
    decreases |s|
  {
    hide NfkcLaws, Stable, LineLength, CollapseBlanks, Trim;
    var n := LineLength(s);
    var line := s[..n];
    CutAtBreak(s);
    TidyLinesUnfolds(s);
    assert s == line + s[n..] && "" + line == line && "" + CollapseBlanks(line) == CollapseBlanks(line);
    StableParts(nfkc, line, s[n..]);
    CollapseBlanksKeepsStable(nfkc, "", line);
    TrimKeepsStable(nfkc, CollapseBlanks(line));
    if n < |s| {
      StableParts(nfkc, line + "\n", s[n + 1..]);
      TidyLinesKeepsStable(nfkc, s[n + 1..]);
      StableAround(nfkc, TidyLine(line), TidyLines(s[n + 1..]));
    }
  }

  // ---- The whole pipeline --------------------------------------------------------------------

  /** The output is normalised text. */
  lemma OutputIsStable(nfkc: string -> string, value: string)
    requires NfkcLaws(nfkc)
    ensures Stable(nfkc, Paragraphs(nfkc, value))
  {
    var normalised := nfkc(StripInvisible(value));
    var unified := UnifyBreaks(normalised);
    assert Stable(nfkc, normalised);
    hide NfkcLaws, Stable, UnifyBreaks, TidyLines, CollapseBreaks, Trim, StripInvisible;
    assert "" + normalised == normalised && "" + unified == unified;
    UnifyKeepsStable(nfkc, "", normalised);
    TidyLinesKeepsStable(nfkc, unified);
    var tidied := TidyLines(unified);
    assert "" + tidied == tidied && "" + CollapseBreaks(tidied) == CollapseBreaks(tidied);
    CollapseBreaksKeepsStable(nfkc, "", tidied);
    TrimKeepsStable(nfkc, CollapseBreaks(tidied));
  }

  /**
    The text comes out in normal form, no longer than its normalised input and with its visible
    characters; of a text that normalisation leaves alone, nothing visible is changed at all.
   */
  lemma OutputIsNormal(nfkc: string -> string, value: string)
    requires NfkcLaws(nfkc)
    ensures NormalForm(Paragraphs(nfkc, value))
    ensures Keeps(nfkc(StripInvisible(value)), Paragraphs(nfkc, value))
    ensures Stable(nfkc, StripInvisible(value)) ==> Keeps(value, Paragraphs(nfkc, value))
  {
    var stripped := StripInvisible(value);
    var normalised := nfkc(stripped);
    var unified := UnifyBreaks(normalised);
    var tidied := TidyLines(unified);
    var collapsed := CollapseBreaks(tidied);
    Stripped(value);
    assert Normalises(nfkc);
    Unified(normalised);
    LinesAreTidied(unified);
    BreaksCollapse(tidied);
    BreaksKeep(tidied);
    TrimTrims(collapsed);
    PieceIsNormal(Trim(collapsed), collapsed, Leading(White, collapsed));
  }

  lemma PieceIsNormal(t: string, s: string, k: nat)
    requires PieceAt(t, s, k)
    requires NoCharacter(Unwanted, s) && WellSpaced(s) && NoTripleBreak(s)
    ensures NoCharacter(Unwanted, t) && WellSpaced(t) && NoTripleBreak(t)
  {
    hide Unwanted, MayFollow;
    assert forall i | 0 <= i < |t| :: t[i] == s[k + i];
    forall i | 0 <= i < |t| - 1 ensures MayFollow(t[i], t[i + 1]) { assert MayFollow(s[k + i], s[k + i + 1]); }
  }

  lemma NormalFormIsFixed(nfkc: string -> string, text: string)
    requires NormalForm(text) && Stable(nfkc, text)
    ensures Paragraphs(nfkc, text) == text
  {
    forall i | 0 <= i < |text| ensures !Invisible(text[i]) && !Return(text[i]) { assert !Unwanted(text[i]); }
    hide White, MayFollow, WellSpaced, NoTripleBreak, Invisible, Unwanted;
    hide StripInvisible, UnifyBreaks, CollapseBreaks, TidyLines, Trim;
    Stripped(text);
    Unified(text);
    LinesFix(text);
    BreaksFix(text);
    TrimFixes(text);
  }

  /** The pipeline leaves alone exactly the normalised texts in normal form. */
  lemma NormalFormsAreFixed(nfkc: string -> string, text: string)
    requires NfkcLaws(nfkc)
    ensures Paragraphs(nfkc, text) == text <==> NormalForm(text) && Stable(nfkc, text)
  {
    hide NfkcLaws, Paragraphs, NormalForm, Stable;
    OutputIsNormal(nfkc, text);
    OutputIsStable(nfkc, text);
    if NormalForm(text) && Stable(nfkc, text) { NormalFormIsFixed(nfkc, text); }
  }

  /** Saving a text again changes nothing. */
  lemma ParagraphsIsIdempotent(nfkc: string -> string, value: string)
    requires NfkcLaws(nfkc)
    ensures Paragraphs(nfkc, Paragraphs(nfkc, value)) == Paragraphs(nfkc, value)
  {
    hide NfkcLaws, Paragraphs, NormalForm;
    OutputIsNormal(nfkc, value);
    OutputIsStable(nfkc, value);
    NormalFormsAreFixed(nfkc, Paragraphs(nfkc, value));
  }

  // ---- Spacing survives ----------------------------------------------------------------------

  type Breaks = n: nat | n <= 2

  /** A text as a reader sees it: characters, and between them gaps of no, one, or two and more breaks. */
  datatype Token = Letter(c: char) | Gap(breaks: Breaks)

  predicate EndsInGap(ts: seq<Token>) { ts != [] && ts[|ts| - 1].Gap? }

  /** One more character; white space widens the gap that is there. */
  function Add(ts: seq<Token>, c: char): seq<Token> {
    if !White(c) then ts + [Letter(c)]
    else
      var n := if Break(c) then 1 else 0;
      if !EndsInGap(ts) then ts + [Gap(n)]
      else
        var m := ts[|ts| - 1].breaks;
        ts[..|ts| - 1] + [Gap(if m + n <= 2 then m + n else 2)]
  }

  function Tokens(ts: seq<Token>, s: string): seq<Token>
    decreases |s|
  {
    if s == "" then ts else Tokens(Add(ts, s[0]), s[1..])
  }

  /** The tokens of a text that stands between blank lines. */
  function Framed(s: string): seq<Token> { Tokens([Gap(2)], s + "\n\n") }

  /**
    The tokens of a text that may still hold carriage returns: one right before a line feed counts for
    nothing, any other is a line break.
   */
  function Read(ts: seq<Token>, s: string): seq<Token>
    decreases |s|
  {
    if s == "" then ts
    else if s[0] != '\r' then Read(Add(ts, s[0]), s[1..])
    else Read(if |s| > 1 && s[1] == '\n' then ts else Add(ts, '\n'), s[1..])
  }

  function FramedText(s: string): seq<Token> { Tokens(Read([Gap(2)], s), "\n\n") }

  /** `\r\n`, `\r` and `\n` are one break each. */
  lemma {:induction false} UnifyBreaksReads(ts: seq<Token>, s: string)
    ensures Tokens(ts, UnifyBreaks(s)) == Read(ts, s)
    decreases |s|
  {
    hide Add;
    if s != "" {
      if s[0] == '\r' {
        var rest := if |s| > 1 && s[1] == '\n' then s[2..] else s[1..];
        UnifyBreaksReads(Add(ts, '\n'), rest);
        assert UnifyBreaks(s)[1..] == UnifyBreaks(rest);
        if |s| > 1 && s[1] == '\n' {
          assert s[1..][1..] == rest;
          assert Read(ts, s[1..]) == Read(Add(ts, '\n'), rest);
        }
      } else {
        UnifyBreaksReads(Add(ts, s[0]), s[1..]);
        assert UnifyBreaks(s)[1..] == UnifyBreaks(s[1..]);
      }
    }
  }

  lemma {:induction false} TokensOfConcat(ts: seq<Token>, a: string, b: string)
    ensures Tokens(ts, a + b) == Tokens(Tokens(ts, a), b)
    decreases |a|
  {
    if a == "" {
      assert a + b == b;
    } else {
      assert (a + b)[1..] == a[1..] + b;
      TokensOfConcat(Add(ts, a[0]), a[1..], b);
    }
  }

  predicate Space(c: char) { White(c) && !Break(c) }

  /** White space without breaks makes a gap, and changes none that is there. */
  lemma {:induction false} SpacesAreOneGap(ts: seq<Token>, s: string)
    requires forall i | 0 <= i < |s| :: Space(s[i])
    ensures Tokens(ts, s) == if s == "" || EndsInGap(ts) then ts else ts + [Gap(0)]
    decreases |s|
  {
    if s != "" { SpacesAreOneGap(Add(ts, s[0]), s[1..]); }
  }

  lemma {:induction false} CollapseBlanksKeepsTokens(ts: seq<Token>, s: string)
    ensures Tokens(ts, CollapseBlanks(s)) == Tokens(ts, s)
    decreases |s|
  {
    if s != "" {
      var n := Leading(Blank, s);
      var k := if n > 0 then n else 1;
      var front := if n > 0 then " " else s[..1];
      assert s == s[..k] + s[k..] && CollapseBlanks(s) == front + CollapseBlanks(s[k..]);
      hide CollapseBlanks, Add;
      if n > 0 {
        SpacesAreOneGap(ts, s[..n]);
        SpacesAreOneGap(ts, " ");
      }
      TokensOfConcat(ts, s[..k], s[k..]);
      TokensOfConcat(ts, front, CollapseBlanks(s[k..]));
      CollapseBlanksKeepsTokens(Tokens(ts, s[..k]), s[k..]);
    }
  }

  lemma TokensOfTwoBreaks(ts: seq<Token>)
    ensures Tokens(ts, "\n\n") == Add(Add(ts, '\n'), '\n')
    ensures Add(Add(Add(ts, '\n'), '\n'), '\n') == Add(Add(ts, '\n'), '\n')
  {
    assert "\n\n"[1..] == "\n" && "\n"[1..] == "";
    assert Tokens(ts, "\n\n") == Tokens(Add(ts, '\n'), "\n");
  }

  /** From the second break on, further ones change nothing. */
  lemma {:induction false} BreaksAreTwo(ts: seq<Token>, s: string)
    requires |s| >= 2 && forall i | 0 <= i < |s| :: Break(s[i])
    ensures Tokens(ts, s) == Tokens(ts, "\n\n")
    decreases |s|
  {
    hide Add;
    if |s| == 2 {
      assert s == "\n\n";
    } else {
      BreaksAreTwo(Add(ts, '\n'), s[1..]);
      TokensOfTwoBreaks(Add(ts, '\n'));
      TokensOfTwoBreaks(ts);
    }
  }

  lemma {:induction false} CollapseBreaksKeepsTokens(ts: seq<Token>, s: string)
    ensures Tokens(ts, CollapseBreaks(s)) == Tokens(ts, s)
    decreases |s|
  {
    if s != "" {
      hide Add, CollapseBreaks;
      var k := FrontLength(s);
      CollapseBreaksUnfolds(s);
      assert s == s[..k] + s[k..];
      if Leading(Break, s) >= 3 { BreaksAreTwo(ts, s[..k]); }
      TokensOfConcat(ts, s[..k], s[k..]);
      TokensOfConcat(ts, Front(s), CollapseBreaks(s[k..]));
      CollapseBreaksKeepsTokens(Tokens(ts, s[..k]), s[k..]);
    }
  }

  /** Spaces before a break disappear in its gap. */
  lemma SpacesBeforeBreak(ts: seq<Token>, s: string)
    requires forall i | 0 <= i < |s| :: Space(s[i])
    ensures Tokens(ts, s + "\n") == Tokens(ts, "\n")
  {
    SpacesAreOneGap(ts, s);
    TokensOfConcat(ts, s, "\n");
    assert Tokens(ts, "\n") == Add(ts, '\n') && Tokens(ts + [Gap(0)], "\n") == Add(ts + [Gap(0)], '\n');
  }

  /** A text is the white space before its trimmed form, that form, and the white space after it. */
  lemma TrimParts(s: string) returns (before: string, after: string)
    ensures s == before + Trim(s) + after
    ensures forall i | 0 <= i < |before| :: White(before[i])
    ensures forall i | 0 <= i < |after| :: White(after[i])
  {
    hide White, TrimEnd, Leading, Visible;
    var n := Leading(White, s);
    var rest, t := s[n..], TrimEnd(s[n..]);
    TrimEndTrims(rest);
    before, after := s[..n], rest[|t|..];
    assert rest == t + after;
    assert s == before + rest;
  }

  /** Behind a gap and before a break, a line keeps its tokens. */
  lemma TidyLineKeepsTokens(ts: seq<Token>, line: string)
    requires EndsInGap(ts) && NoCharacter(Break, line)
    ensures Tokens(ts, TidyLine(line) + "\n") == Tokens(ts, line + "\n")
  {
    hide Add, CollapseBlanks, Trim, White;
    var u := CollapseBlanks(line);
    CollapseSpaces(line);
    var before, after := TrimParts(u);
    var t := Trim(u);
    assert forall i | 0 <= i < |before| :: before[i] == u[i];
    assert forall i | 0 <= i < |after| :: after[i] == u[|before| + |t| + i];
    forall i | 0 <= i < |u| ensures !Break(u[i]) {
      assert u[i] in line || u[i] == ' ';
    }
    assert u + "\n" == before + (t + (after + "\n"));
    TokensOfConcat(ts, before, t + (after + "\n"));
    SpacesAreOneGap(ts, before);
    TokensOfConcat(ts, t, after + "\n");
    SpacesBeforeBreak(Tokens(ts, t), after);
    TokensOfConcat(ts, t, "\n");
    TokensOfConcat(ts, u, "\n");
    TokensOfConcat(ts, line, "\n");
    CollapseBlanksKeepsTokens(ts, line);
  }

  lemma BreakEndsInGap(ts: seq<Token>, s: string)
    ensures EndsInGap(Tokens(ts, s + "\n"))
  {
    TokensOfConcat(ts, s, "\n");
    assert Tokens(Tokens(ts, s), "\n") == Add(Tokens(ts, s), '\n');
  }

  lemma {:induction false} TidyLinesKeepTokens(ts: seq<Token>, s: string)
    requires EndsInGap(ts)
    ensures Tokens(ts, TidyLines(s) + "\n") == Tokens(ts, s + "\n")
    decreases |s|
  {
    hide Add, TidyLine, LineLength;
    var n := LineLength(s);
    CutAtBreak(s);
    TidyLinesUnfolds(s);
    TidyLineKeepsTokens(ts, s[..n]);
    hide TidyLines;
    if n < |s| {
      var line, rest := s[..n], s[n + 1..];
      assert TidyLines(s) + "\n" == (TidyLine(line) + "\n") + (TidyLines(rest) + "\n");
      assert s + "\n" == (line + "\n") + (rest + "\n");
      TokensOfConcat(ts, TidyLine(line) + "\n", TidyLines(rest) + "\n");
      TokensOfConcat(ts, line + "\n", rest + "\n");
      BreakEndsInGap(ts, line);
      TidyLinesKeepTokens(Tokens(ts, line + "\n"), rest);
    }
  }

  /** `ts` with a wide gap at its end. */
  function Closed(ts: seq<Token>): seq<Token> {
    (if EndsInGap(ts) then ts[..|ts| - 1] else ts) + [Gap(2)]
  }

  /** Whatever white space comes first, a blank line makes the gap wide. */
  lemma {:induction false} WhiteIsClosed(ts: seq<Token>, s: string)
    requires forall i | 0 <= i < |s| :: White(s[i])
    ensures Tokens(ts, s + "\n\n") == Closed(ts)
    decreases |s|
  {
    if s == "" {
      assert s + "\n\n" == "\n\n" && "\n\n"[1..] == "\n";
      assert Tokens(ts, "\n\n") == Tokens(Add(ts, '\n'), "\n") == Add(Add(ts, '\n'), '\n');
    } else {
      assert (s + "\n\n")[1..] == s[1..] + "\n\n";
      WhiteIsClosed(Add(ts, s[0]), s[1..]);
    }
  }

  /** Behind a wide gap white space changes nothing. */
  lemma {:induction false} WhiteBehindGap(s: string)
    requires forall i | 0 <= i < |s| :: White(s[i])
    ensures Tokens([Gap(2)], s) == [Gap(2)]
    decreases |s|
  {
    if s != "" { WhiteBehindGap(s[1..]); }
  }

  lemma TrimKeepsFramed(s: string)
    ensures Framed(Trim(s)) == Framed(s)
  {
    hide Add, Trim, White;
    var before, after := TrimParts(s);
    var t, close := Trim(s), "\n\n";
    assert s + close == before + (t + (after + close));
    WhiteBehindGap(before);
    TokensOfConcat([Gap(2)], before, t + (after + close));
    TokensOfConcat([Gap(2)], t, after + close);
    TokensOfConcat([Gap(2)], t, close);
    WhiteIsClosed(Tokens([Gap(2)], t), after);
    WhiteIsClosed(Tokens([Gap(2)], t), "");
    assert "" + close == close;
  }

  /**
    The words of the normalised text and the gaps between them survive: whatever stood apart stands apart,
    by no break, by one, or by a blank line where there were two or more.
   */
  lemma SpacingIsKept(nfkc: string -> string, value: string)
    ensures Framed(Paragraphs(nfkc, value)) == FramedText(nfkc(StripInvisible(value)))
  {
    hide Add, CollapseBreaks, TidyLines, Trim, UnifyBreaks, StripInvisible;
    var ts, u := [Gap(2)], UnifyBreaks(nfkc(StripInvisible(value)));
    var tidied := TidyLines(u);
    var collapsed := CollapseBreaks(tidied);
    TidyLinesKeepTokens(ts, u);
    assert u + "\n\n" == (u + "\n") + "\n" && tidied + "\n\n" == (tidied + "\n") + "\n";
    TokensOfConcat(ts, u, "\n\n");
    UnifyBreaksReads(ts, nfkc(StripInvisible(value)));
    TokensOfConcat(ts, u + "\n", "\n");
    TokensOfConcat(ts, tidied + "\n", "\n");
    CollapseBreaksKeepsTokens(ts, tidied);
    TokensOfConcat(ts, tidied, "\n\n");
    TokensOfConcat(ts, collapsed, "\n\n");
    TrimKeepsFramed(collapsed);
  }
}
