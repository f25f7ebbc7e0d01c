// What editing the configuration file keeps. A text with the section in it is composed of what stands
// before, the section and what stands after; splitting finds the three again, and the laws about
// writing twice, writing and removing, and the lines that stay follow from that.
module CodexTomlLaws {
  import opened Strings
  import opened CodexToml

  /** The lines of a section: its header, then lines that start no section. */
  ghost predicate IsSection(own: seq<string>) {
    && own != [] && OneLiners(own) && IsHeader(own[0])
    && forall l :: l in own[1..] ==> !Opens(l)
  }

  /** A text that holds the section between what stands before and after it. */
  function Composed(b: string, section: string, a: string): string {
    (if b != "" then b + "\n\n" else "") + section + (if a != "" then "\n" + a else "")
  }

  ghost predicate CleanBefore(b: string) {
    NoHeader(Split(b, NL)) && (b != "" ==> b[|b| - 1] != NL)
  }

  ghost predicate CleanAfter(a: string) {
    a != "" ==> a[0] != NL && Opens(Split(a, NL)[0])
  }

  function LinesBefore(b: string): seq<string> {
    if b == "" then [] else Split(b, NL) + [""]
  }

  function LinesAfter(a: string): seq<string> {
    if a == "" then [] else Split(a, NL)
  }

  // ----- the lines of a composed text -----

  lemma ComposedLines(b: string, own: seq<string>, a: string)
    requires IsSection(own)
    ensures Split(Composed(b, Unlines(own), a), NL) == LinesBefore(b) + (own + ([""] + LinesAfter(a)))
  {
    var rest := Unlines(own) + (if a != "" then "\n" + a else "");
    LinesFromSection(own, a);
    ComposedInTwo(b, Unlines(own), a, rest);
    if b != "" {
      LinesUpToSection(b, rest);
    }
  }

  lemma ComposedInTwo(b: string, section: string, a: string, rest: string)
    requires rest == section + (if a != "" then "\n" + a else "")
    ensures Composed(b, section, a) == if b != "" then b + "\n\n" + rest else rest
  {
  }

  lemma LinesFromSection(own: seq<string>, a: string)
    requires IsSection(own)
    ensures Split(Unlines(own) + (if a != "" then "\n" + a else ""), NL) == own + ([""] + LinesAfter(a))
  {
    SplitUnlines(own);
    if a != "" {
      SplitConcat(Unlines(own), a, NL);
      assert Unlines(own) + ("\n" + a) == Unlines(own) + [NL] + a;
    } else {
      assert Unlines(own) + "" == Unlines(own);
    }
  }

  lemma LinesUpToSection(b: string, rest: string)
    ensures Split(b + "\n\n" + rest, NL) == Split(b, NL) + [""] + Split(rest, NL)
  {
    assert b + "\n\n" + rest == b + [NL] + ("" + [NL] + rest);
    SplitConcat(b, "" + [NL] + rest, NL);
    SplitConcat("", rest, NL);
  }

  lemma NothingIsNoHeader()
    ensures !IsHeader("") && !Opens("")
  {
  }

  /** Splitting a composed text finds its three parts again. */
  lemma ComposedSplits(b: string, own: seq<string>, a: string)
    requires IsSection(own) && CleanBefore(b) && CleanAfter(a)
    ensures var u := Composed(b, Unlines(own), a);
            HasSection(u) && DropLast(BeforeSection(u)) == b && AfterSection(u) == a
  {
    ComposedLines(b, own, a);
    HeaderIsAfter(LinesBefore(b), own + ([""] + LinesAfter(a)), b);
    EndAfterOwn(own, a);
    LinesFrom(Split(Composed(b, Unlines(own), a), NL), LinesBefore(b), own, LinesAfter(a));
    BeforeJoins(b);
    JoinSplit(a, NL);
  }

  lemma HeaderIsAfter(p: seq<string>, rest: seq<string>, b: string)
    requires CleanBefore(b) && p == LinesBefore(b) && rest != [] && IsHeader(rest[0])
    ensures FirstHeader(p + rest) == |p|
  {
    NothingIsNoHeader();
    FirstHeaderAfter(p, rest);
  }

  lemma LinesFrom(lines: seq<string>, p: seq<string>, own: seq<string>, q: seq<string>)
    requires lines == p + (own + ([""] + q)) && own != []
    requires FirstOpening(own[1..] + ([""] + q)) == |own|
    ensures lines[..|p|] == p
    ensures lines[SectionEnd(lines, |p|)..] == q
  {
    assert lines[|p| + 1..] == own[1..] + ([""] + q);
  }

  lemma BeforeJoins(b: string)
    requires CleanBefore(b)
    ensures DropLast(Join(LinesBefore(b), NL)) == b
  {
    if b != "" {
      JoinConcat(Split(b, NL), [""], NL);
      JoinSplit(b, NL);
      assert (b + [NL])[..|b|] == b;
    }
  }

  lemma EndAfterOwn(own: seq<string>, a: string)
    requires IsSection(own) && CleanAfter(a)
    ensures FirstOpening(own[1..] + ([""] + LinesAfter(a))) == |own|
  {
    NothingIsNoHeader();
    FirstOpeningAfter(own[1..], [""] + LinesAfter(a));
    FirstOpeningAfter([""], LinesAfter(a));
  }

  // ----- the parts of any text -----

  lemma PartsAreClean(text: string)
    requires HasSection(text)
    ensures CleanBefore(DropLast(BeforeSection(text)))
    ensures CleanAfter(AfterSection(text)) && DropFirst(AfterSection(text)) == AfterSection(text)
  {
    BeforeIsClean(text);
    AfterIsClean(text);
  }

  lemma BeforeIsClean(text: string)
    requires HasSection(text)
    ensures CleanBefore(DropLast(BeforeSection(text)))
  {
    var lines := Split(text, NL);
    SplitParts(text, NL);
    NoHeaderBeforeFirst(lines);
    LinesOfJoin(lines[..FirstHeader(lines)]);
    NothingIsNoHeader();
    DropLastKeepsLines(BeforeSection(text));
  }

  lemma AfterIsClean(text: string)
    requires HasSection(text)
    ensures CleanAfter(AfterSection(text)) && DropFirst(AfterSection(text)) == AfterSection(text)
  {
    var lines := Split(text, NL);
    var start := FirstHeader(lines);
    var end := SectionEnd(lines, start);
    SplitParts(text, NL);
    OpensAtFirst(lines[start + 1..]);
    LinesOfJoin(lines[end..]);
    if end < |lines| {
      assert lines[end..][0] == lines[start + 1..][end - start - 1];
      FirstLine(AfterSection(text));
    }
  }

  lemma LinesOfJoin(lines: seq<string>)
    requires forall l :: l in lines ==> Without(l, NL)
    ensures Split(Join(lines, NL), NL) == if lines == [] then [""] else lines
  {
    if lines != [] {
      SplitJoin(lines, NL);
    }
  }

  lemma FirstLine(s: string)
    requires Opens(Split(s, NL)[0])
    ensures s != "" && s[0] != NL
  {
    NothingIsNoHeader();
  }

  lemma NoSectionIsClean(text: string)
    requires !HasSection(text)
    ensures CleanBefore(DropLast(text))
  {
    var lines := Split(text, NL);
    NoHeaderBeforeFirst(lines);
    assert lines[..|lines|] == lines;
    DropLastKeepsLines(text);
  }

  lemma {:induction false} BlankDropsToNothing(text: string)
    requires TrimSpace(text) != ""
    ensures DropLast(text) != ""
  {
    if text != "" && text[|text| - 1] == NL {
      assert text == text[..|text| - 1] + [NL];
      var shorter := text[..|text| - 1];
      TrimSpaceSkips(shorter, [NL]);
      BlankDropsToNothing(shorter);
    }
  }

  lemma TrimSpaceSkips(s: string, post: string)
    requires AllSpace(post)
    ensures TrimSpace(s + post) == TrimSpace(s)
  {
    var pre := TrimLeftParts(s);
    if TrimLeft(s) == "" {
      assert s + post == pre + post && AllSpace(pre + post);
      TrimLeftSkips(pre + post, "");
      assert (pre + post) + "" == s + post;
    } else {
      assert s + post == pre + (TrimLeft(s) + post);
      TrimLeftSkips(pre, TrimLeft(s) + post);
      assert (TrimLeft(s) + post)[0] == TrimLeft(s)[0];
      TrimRightSkips(TrimLeft(s), post);
    }
  }

  /** Writing gives a composed text. */
  lemma UpdatedIsComposed(text: string, own: seq<string>) returns (b: string, a: string)
    requires IsSection(own)
    ensures CleanBefore(b) && CleanAfter(a) && Updated(text, Unlines(own)) == Composed(b, Unlines(own), a)
    ensures HasSection(text) ==> b == DropLast(BeforeSection(text)) && a == AfterSection(text)
    ensures !HasSection(text) ==> a == "" && b == if TrimSpace(text) == "" then "" else DropLast(text)
  {
    if HasSection(text) {
      PartsAreClean(text);
      b, a := DropLast(BeforeSection(text)), AfterSection(text);
    } else if TrimSpace(text) == "" {
      NothingIsNoHeader();
      b, a := "", "";
    } else {
      NoSectionIsClean(text);
      BlankDropsToNothing(text);
      b, a := DropLast(text), "";
    }
  }

  // ----- the laws -----

  /** Writing the section again changes nothing. */
  lemma WritingTwiceIsWritingOnce(text: string, own: seq<string>)
    requires IsSection(own)
    ensures HasSection(Updated(text, Unlines(own)))
    ensures Updated(Updated(text, Unlines(own)), Unlines(own)) == Updated(text, Unlines(own))
  {
    var b, a := UpdatedIsComposed(text, own);
    ComposedSplits(b, own, a);
    PartsAreClean(Updated(text, Unlines(own)));
  }

  lemma NonEmptyOfParts(b: string, own: seq<string>, a: string)
    ensures NonEmpty(LinesBefore(b) + (own + ([""] + LinesAfter(a))))
         == NonEmpty(Split(b, NL)) + (NonEmpty(own) + NonEmpty(Split(a, NL)))
  {
    NonEmptyConcat(LinesBefore(b), own + ([""] + LinesAfter(a)));
    NonEmptyConcat(own, [""] + LinesAfter(a));
    NonEmptyConcat([""], LinesAfter(a));
    NonEmptyConcat(Split(b, NL), [""]);
  }

  /** Outside the section every line that is not empty is kept, in order, around the new section. */
  lemma WritingKeepsTheOtherLines(text: string, own: seq<string>)
    requires IsSection(own) && HasSection(text)
    ensures NonEmpty(Split(Updated(text, Unlines(own)), NL))
         == NonEmpty(Split(BeforeSection(text), NL)) + (NonEmpty(own) + NonEmpty(Split(AfterSection(text), NL)))
  {
    var b, a := UpdatedIsComposed(text, own);
    ComposedLines(b, own, a);
    NonEmptyOfParts(b, own, a);
    DropLastKeepsLines(BeforeSection(text));
  }

  /** Removing the section keeps these lines too. */
  lemma RemovingKeepsTheOtherLines(text: string)
    requires HasSection(text)
    ensures NonEmpty(Split(WithoutSection(text), NL))
         == NonEmpty(Split(BeforeSection(text), NL)) + NonEmpty(Split(AfterSection(text), NL))
  {
    var kept, rest := DropLast(BeforeSection(text)), DropFirst(AfterSection(text));
    DropLastKeepsLines(BeforeSection(text));
    DropFirstKeepsLines(AfterSection(text));
    var left := if rest == "" then kept else (if kept != "" then kept + "\n\n" else "") + rest;
    TwoPartsKeepLines(kept, rest);
    DropLastKeepsLines(left);
    NewlineAddsNoLine(DropLast(left));
  }

  /** With text on both sides, one blank line is left between them. */
  lemma RemovingLeavesOneBlankLine(text: string)
    requires HasSection(text)
    requires DropLast(BeforeSection(text)) != "" && DropLast(DropFirst(AfterSection(text))) != ""
    ensures WithoutSection(text)
         == DropLast(BeforeSection(text)) + "\n\n" + DropLast(DropFirst(AfterSection(text))) + "\n"
  {
    DropsUpTo(DropLast(BeforeSection(text)) + "\n\n", DropFirst(AfterSection(text)));
  }

  lemma {:induction false} DropsUpTo(a: string, b: string)
    requires DropLast(b) != ""
    ensures DropLast(a + b) == a + DropLast(b)
  {
    if b[|b| - 1] == NL {
      assert (a + b)[..|a + b| - 1] == a + b[..|b| - 1];
      DropsUpTo(a, b[..|b| - 1]);
    }
  }

  lemma {:induction false} DropFirstKeepsLines(s: string)
    ensures NonEmpty(Split(DropFirst(s), NL)) == NonEmpty(Split(s, NL))
  {
    if s != "" && s[0] == NL {
      DropFirstKeepsLines(s[1..]);
      assert Split(s, NL)[1..] == Split(s[1..], NL);
    }
  }

  lemma NewlineAddsNoLine(s: string)
    ensures NonEmpty(Split(s + "\n", NL)) == NonEmpty(Split(s, NL))
  {
    assert s + "\n" == s + [NL] + "";
    SplitConcat(s, "", NL);
    NonEmptyConcat(Split(s, NL), [""]);
  }

  lemma TwoPartsKeepLines(a: string, b: string)
    ensures NonEmpty(Split(if b == "" then a else (if a != "" then a + "\n\n" else "") + b, NL))
         == NonEmpty(Split(a, NL)) + NonEmpty(Split(b, NL))
  {
    if a != "" {
      var above := a + "\n";
      NewlineAddsNoLine(a);
      assert a + "\n\n" + b == above + [NL] + b;
      SplitConcat(above, b, NL);
      NonEmptyConcat(Split(above, NL), Split(b, NL));
    } else {
      assert "" + b == b;
    }
  }

  lemma AppendingKeepsAllLines(text: string, own: seq<string>)
    requires IsSection(own) && !HasSection(text) && TrimSpace(text) != ""
    ensures NonEmpty(Split(Updated(text, Unlines(own)), NL)) == NonEmpty(Split(text, NL)) + NonEmpty(own)
  {
    var b, a := UpdatedIsComposed(text, own);
    ComposedLines(b, own, a);
    NonEmptyOfParts(b, own, a);
    DropLastKeepsLines(text);
  }

  /** Taking out what was written gives back a text that had no such section, up to the newlines at its
      end. */
  lemma RemovingUndoesWriting(text: string, own: seq<string>)
    requires IsSection(own) && !HasSection(text)
    ensures HasSection(Updated(text, Unlines(own)))
    ensures WithoutSection(Updated(text, Unlines(own))) == (if TrimSpace(text) == "" then "" else DropLast(text)) + "\n"
  {
    var b, a := UpdatedIsComposed(text, own);
    ComposedSplits(b, own, a);
    NothingAfter(Composed(b, Unlines(own), a), b);
  }

  lemma NothingAfter(text: string, b: string)
    requires HasSection(text) && DropLast(BeforeSection(text)) == b && AfterSection(text) == "" && CleanBefore(b)
    ensures WithoutSection(text) == b + "\n"
  {
    assert DropFirst("") == "" && DropLast(b) == b;
  }

  /** And from a text that had one, writing first makes no difference. */
  lemma RemovingForgetsWriting(text: string, own: seq<string>)
    requires IsSection(own) && HasSection(text)
    ensures HasSection(Updated(text, Unlines(own)))
    ensures WithoutSection(Updated(text, Unlines(own))) == WithoutSection(text)
  {
    var b, a := UpdatedIsComposed(text, own);
    ComposedSplits(b, own, a);
    PartsAreClean(text);
    PartsAreClean(Updated(text, Unlines(own)));
  }

  // ----- the file -----

  /** What the file holds after a write. */
  function Written(text: string, section: string): string {
    if TrimSpace(Updated(text, section)) == TrimSpace(text) then text else Updated(text, section)
  }

  /** A second write reports no change, whatever the file held at first. */
  lemma SecondWriteChangesNothing(text: string, own: seq<string>)
    requires IsSection(own)
    ensures var once := Written(text, Unlines(own));
            TrimSpace(Updated(once, Unlines(own))) == TrimSpace(once) && Written(once, Unlines(own)) == once
  {
    WritingTwiceIsWritingOnce(text, own);
  }

  ghost predicate EndsInInk(own: seq<string>) {
    own != [] && own[|own| - 1] != "" && !IsSpace(own[|own| - 1][|own[|own| - 1]| - 1])
  }

  lemma {:induction false} UnlinesEnds(own: seq<string>)
    requires EndsInInk(own)
    ensures Unlines(own) != "" && Unlines(own)[|Unlines(own)| - 1] == NL
    ensures |Unlines(own)| > 1 && !IsSpace(Unlines(own)[|Unlines(own)| - 2])
  {
    if |own| > 1 {
      UnlinesEnds(own[1..]);
    } else {
      assert Unlines(own) == own[0] + "\n" + Unlines(own[1..]);
    }
  }

  lemma BlankIsAllSpace(s: string)
    ensures TrimSpace(s) == "" ==> AllSpace(s)
  {
    var pre, post := TrimParts(s);
    assert TrimSpace(s) == "" ==> s == pre + post;
  }

  /** A text with more ink after it does not trim to the same. */
  lemma MoreInk(text: string, more: string)
    requires more != "" && !IsSpace(more[|more| - 1])
    ensures |TrimSpace(text + more + "\n")| > |TrimSpace(text)|
  {
    var pre, post := TrimParts(text);
    var core := TrimSpace(text);
    if core == "" {
      assert (text + more + "\n")[|text| + |more| - 1] == more[|more| - 1];
      BlankIsAllSpace(text + more + "\n");
    } else {
      var whole := core + (post + more);
      assert text + more + "\n" == pre + whole + "\n";
      assert whole[0] == core[0] && whole[|whole| - 1] == more[|more| - 1];
      TrimFindsCore(pre, whole, "\n");
    }
  }

  /** Writing into a text without the section is always noticed. */
  lemma FirstWriteIsNoticed(text: string, own: seq<string>)
    requires IsSection(own) && EndsInInk(own) && !HasSection(text)
    ensures Written(text, Unlines(own)) == Updated(text, Unlines(own))
        && TrimSpace(Updated(text, Unlines(own))) != TrimSpace(text)
  {
    var section := Unlines(own);
    UnlinesEnds(own);
    var ink := section[..|section| - 1];
    assert section == ink + "\n";
    if TrimSpace(text) == "" {
      MoreInk("", ink);
      assert "" + ink + "\n" == section;
    } else {
      DropLastTrims(text);
      MoreInk(DropLast(text), "\n\n" + ink);
      assert DropLast(text) + ("\n\n" + ink) + "\n" == DropLast(text) + "\n\n" + section;
    }
  }

  lemma {:induction false} DropLastTrims(text: string)
    ensures TrimSpace(DropLast(text)) == TrimSpace(text)
  {
    if text != "" && text[|text| - 1] == NL {
      var shorter := text[..|text| - 1];
      assert text == shorter + [NL];
      TrimSpaceSkips(shorter, [NL]);
      DropLastTrims(shorter);
    }
  }

  /** A write followed by a removal gives back a text that had no such section, up to the newlines at its
      end. */
  lemma RemovalAfterWrite(text: string, own: seq<string>)
    requires IsSection(own) && EndsInInk(own) && !HasSection(text)
    ensures HasSection(Written(text, Unlines(own)))
    ensures WithoutSection(Written(text, Unlines(own))) == (if TrimSpace(text) == "" then "" else DropLast(text)) + "\n"
  {
    FirstWriteIsNoticed(text, own);
    RemovingUndoesWriting(text, own);
  }

  // ----- the program's own section -----

  function OwnLines(command: string): seq<string> {
    [HEADER, COMMAND + command, ARGS, TIMEOUT]
  }

  lemma FourLines(a: string, b: string, c: string, d: string, e: string)
    ensures a + "\n" + b + c + "\n" + d + "\n" + e + "\n" == Unlines([a, b + c, d, e])
  {
    var lines := [a, b + c, d, e];
    assert lines[1..][1..] == [d, e] && lines[1..][1..][1..] == [e];
    assert Unlines([e]) == e + "\n";
    assert Unlines([d, e]) == d + "\n" + Unlines([e]);
    assert Unlines([b + c, d, e]) == (b + c) + "\n" + Unlines([d, e]);
  }

  /** The section as a file shows it, line by line. */
  lemma SectionReads(command: string)
    ensures Section(command)
         == Unlines(["[mcp_servers.dkm]", "command = " + command, "args = [\"mcp\"]", "startup_timeout_sec = 20"])
  {
    FourLines(HEADER, COMMAND, command, ARGS, TIMEOUT);
  }

  /** The quoted path of the program, on one line, makes a section of its own. */
  lemma OwnLinesAreASection(command: string)
    requires Without(command, NL)
    ensures IsSection(OwnLines(command)) && EndsInInk(OwnLines(command))
    ensures Section(command) == Unlines(OwnLines(command))
  {
    FixedTexts();
    FourLines(HEADER, COMMAND, command, ARGS, TIMEOUT);
    FourLinesAreASection(HEADER, COMMAND + command, ARGS, TIMEOUT);
  }

  /**
   * Writing the program's section into any text: it is there afterwards, a second write leaves the file alone, and
   * removing it gives what removing it from the text gives, or a text that had none, but for newlines at its end.
   */
  lemma OwnSectionIsWrittenOnce(text: string, command: string)
    requires Without(command, NL)
    ensures
      var section := Section(command);
      var once := Written(text, section);
      && HasSection(Updated(text, section)) && Updated(Updated(text, section), section) == Updated(text, section)
      && TrimSpace(Updated(once, section)) == TrimSpace(once) && Written(once, section) == once
    ensures HasSection(text) ==> WithoutSection(Updated(text, Section(command))) == WithoutSection(text)
    ensures !HasSection(text) ==>
      && HasSection(Written(text, Section(command)))
      && WithoutSection(Written(text, Section(command)))
          == (if TrimSpace(text) == "" then "" else DropLast(text)) + "\n"
  {
    OwnLinesAreASection(command);
    WritingTwiceIsWritingOnce(text, OwnLines(command));
    SecondWriteChangesNothing(text, OwnLines(command));
    if HasSection(text) {
      RemovingForgetsWriting(text, OwnLines(command));
    } else {
      RemovalAfterWrite(text, OwnLines(command));
    }
  }

  lemma FixedTexts()
    ensures Without(HEADER, NL) && Without(COMMAND, NL) && Without(ARGS, NL) && Without(TIMEOUT, NL)
    ensures Trimmed(HEADER)
  {
  }

  lemma FourLinesAreASection(a: string, b: string, c: string, d: string)
    requires Without(a, NL) && Without(b, NL) && Without(c, NL) && Without(d, NL)
    requires a == HEADER && Trimmed(a)
    requires b != "" && !IsSpace(b[0]) && b[0] != '['
    requires c != "" && !IsSpace(c[0]) && c[0] != '['
    requires d != "" && !IsSpace(d[0]) && d[0] != '[' && !IsSpace(d[|d| - 1])
    ensures IsSection([a, b, c, d]) && EndsInInk([a, b, c, d])
  {
    InkFirst(b);
    InkFirst(c);
    InkFirst(d);
    TrimFindsCore("", a, "");
    assert "" + a + "" == a;
    assert [a, b, c, d][1..] == [b, c, d];
  }

  lemma InkFirst(line: string)
    requires line != "" && !IsSpace(line[0]) && line[0] != '['
    ensures !Opens(line)
  {
    var post := TrimRightParts(line);
    assert TrimLeft(line) == line;
  }
}
