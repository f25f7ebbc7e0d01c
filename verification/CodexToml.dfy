// One section of a configuration file, edited as text.
module CodexToml {
  // The section is found line by line; everything else in the file belongs to its user.

  import opened Strings

  const NL := '\n'
  const HEADER := "[mcp_servers.dkm]"
  const COMMAND := "command = "
  const ARGS := "args = [\"mcp\"]"
  const TIMEOUT := "startup_timeout_sec = 20"

  // ----- lines -----

  predicate IsHeader(line: string) {
    TrimSpace(line) == HEADER
  }

  /** Whether a line starts a section, this one or another. */
  predicate Opens(line: string) {
    TrimSpace(line) != "" && TrimSpace(line)[0] == '['
  }

  /** A line starts a section when it starts with a bracket, after any white space. */
  lemma OpensExactlyWhen(line: string)
    ensures Opens(line) <==> exists k :: 0 <= k < |line| && AllSpace(line[..k]) && line[k] == '['
  {
    var pre, post := TrimParts(line);
    var text := TrimSpace(line);
    if Opens(line) {
      assert line[..|pre|] == pre && line[|pre|] == text[0];
    }
    if k :| 0 <= k < |line| && AllSpace(line[..k]) && line[k] == '[' {
      assert line == line[..k] + line[k..];
      TrimLeftSkips(line[..k], line[k..]);
      assert TrimLeft(line[k..]) == line[k..];
      KeepsFirst(line[k..]);
    }
  }

  lemma {:induction false} KeepsFirst(s: string)
    requires s != "" && !IsSpace(s[0])
    ensures TrimRight(s) != "" && TrimRight(s)[0] == s[0]
  {
    if IsSpace(s[|s| - 1]) {
      KeepsFirst(s[..|s| - 1]);
    }
  }

  /** The first line that is the header, or the number of lines. */
  function FirstHeader(lines: seq<string>): (k: nat)
    ensures k <= |lines|
  {
    if lines == [] || IsHeader(lines[0]) then 0 else 1 + FirstHeader(lines[1..])
  }

  /** The first line that starts a section, or the number of lines. */
  function FirstOpening(lines: seq<string>): (k: nat)
    ensures k <= |lines|
  {
    if lines == [] || Opens(lines[0]) then 0 else 1 + FirstOpening(lines[1..])
  }

  predicate HasSection(text: string) {
    FirstHeader(Split(text, NL)) < |Split(text, NL)|
  }

  function SectionEnd(lines: seq<string>, start: nat): (end: nat)
    requires start < |lines|
    ensures start < end <= |lines|
  {
    start + 1 + FirstOpening(lines[start + 1..])
  }

  function BeforeSection(text: string): string
    requires HasSection(text)
  {
    var lines := Split(text, NL);
    Join(lines[..FirstHeader(lines)], NL)
  }

  function AfterSection(text: string): string
    requires HasSection(text)
  {
    var lines := Split(text, NL);
    Join(lines[SectionEnd(lines, FirstHeader(lines))..], NL)
  }

  method SplitSection(text: string) returns (before: string, after: string, found: bool)
    ensures found == HasSection(text)
    ensures found ==> before == BeforeSection(text) && after == AfterSection(text)
    ensures !found ==> before == text && after == ""
  {
    var lines := Split(text, NL);
    var start := FindHeader(lines);
    if start < 0 {
      return text, "", false;
    }
    var end := FindEnd(lines, start);
    before := Join(lines[..start], NL);
    after := Join(lines[end..], NL);
    found := true;
  }

  method FindHeader(lines: seq<string>) returns (start: int)
    ensures start == if FirstHeader(lines) < |lines| then FirstHeader(lines) else -1
  {
    for i := 0 to |lines|
      invariant FirstHeader(lines) == i + FirstHeader(lines[i..])
    {
      assert lines[i..][1..] == lines[i + 1..];
      if IsHeader(lines[i]) {
        return i;
      }
    }
    return -1;
  }

  method FindEnd(lines: seq<string>, start: nat) returns (end: nat)
    requires start < |lines|
    ensures end == SectionEnd(lines, start)
  {
    for i := start + 1 to |lines|
      invariant FirstOpening(lines[start + 1..]) == i - start - 1 + FirstOpening(lines[i..])
    {
      assert lines[i..][1..] == lines[i + 1..];
      if Opens(lines[i]) {
        return i;
      }
    }
    return |lines|;
  }

  // ----- newlines at the ends -----

  function DropLast(s: string): string {
    if s != "" && s[|s| - 1] == NL then DropLast(s[..|s| - 1]) else s
  }

  function DropFirst(s: string): string {
    if s != "" && s[0] == NL then DropFirst(s[1..]) else s
  }

  // ----- writing -----

  /** What the program writes; `command` is the quoted path of the program. */
  function Section(command: string): string {
    HEADER + "\n" + COMMAND + command + "\n" + ARGS + "\n" + TIMEOUT + "\n"
  }

  /** A line is the header with any white space around it. */
  lemma HeaderExactlyWhen(line: string)
    ensures IsHeader(line) <==>
      exists pre, post :: AllSpace(pre) && AllSpace(post) && line == pre + "[mcp_servers.dkm]" + post
  {
    if IsHeader(line) {
      var pre, post := TrimParts(line);
      assert line == pre + HEADER + post;
    }
    if pre, post :| AllSpace(pre) && AllSpace(post) && line == pre + "[mcp_servers.dkm]" + post {
      TrimFindsCore(pre, HEADER, post);
    }
  }

  function Updated(text: string, section: string): string {
    if HasSection(text) then
      var kept := DropLast(BeforeSection(text));
      var rest := DropFirst(AfterSection(text));
      (if kept != "" then kept + "\n\n" else "") + section + (if rest != "" then "\n" + rest else "")
    else if TrimSpace(text) == "" then section
    else DropLast(text) + "\n\n" + section
  }

  function WithoutSection(text: string): string
    requires HasSection(text)
  {
    var kept := DropLast(BeforeSection(text));
    var rest := DropFirst(AfterSection(text));
    DropLast(if rest == "" then kept else (if kept != "" then kept + "\n\n" else "") + rest) + "\n"
  }

  method Compose(original: string, section: string) returns (updated: string)
    ensures updated == Updated(original, section)
  {
    var before, after, found := SplitSection(original);
    if found {
      updated := DropLast(before);
      if updated != "" {
        updated := updated + "\n\n";
      }
      updated := updated + section;
      var trimmed := DropFirst(after);
      if trimmed != "" {
        updated := updated + ("\n" + trimmed);
      }
    } else if TrimSpace(original) == "" {
      updated := section;
    } else {
      updated := DropLast(original) + "\n\n" + section;
    }
  }

  lemma NothingInNothing()
    ensures !HasSection("") && TrimSpace("") == ""
  {
  }

  class ConfigFile {
    var content: Option<string>
    var backup: Option<string>

    method Write(section: string) returns (changed: bool)
      modifies this
      ensures old(content).Some? ==>
        var text := old(content).value;
        && changed == (TrimSpace(Updated(text, section)) != TrimSpace(text))
        && (changed ==> content == Some(Updated(text, section)))
        && (changed ==> backup == if text != "" then old(content) else old(backup))
      ensures old(content).None? ==>
        && changed == (TrimSpace(section) != "")
        && (changed ==> content == Some(section) && backup == old(backup))
      ensures !changed ==> content == old(content) && backup == old(backup)
    {
      var original := if content.Some? then content.value else "";
      NothingInNothing();
      var updated := Compose(original, section);
      if TrimSpace(updated) == TrimSpace(original) {
        return false;
      }
      if |original| > 0 {
        backup := Some(original);
      }
      content := Some(updated);
      return true;
    }

    method Remove() returns (changed: bool)
      modifies this
      ensures changed == (old(content).Some? && HasSection(old(content).value))
      ensures changed ==> content == Some(WithoutSection(old(content).value)) && backup == old(content)
      ensures !changed ==> content == old(content) && backup == old(backup)
    {
      if content.None? {
        return false;
      }
      var before, after, found := SplitSection(content.value);
      if !found {
        return false;
      }
      var updated := DropLast(before);
      var trimmed := DropFirst(after);
      if trimmed != "" {
        if updated != "" {
          updated := updated + "\n\n";
        }
        updated := updated + trimmed;
      }
      updated := DropLast(updated) + "\n";
      backup := content;
      content := Some(updated);
      return true;
    }
  }

  // ----- the section's lines -----

  /** Nothing in the lines is the header. */
  predicate NoHeader(lines: seq<string>) {
    forall l :: l in lines ==> !IsHeader(l)
  }

  lemma {:induction false} FirstHeaderAfter(a: seq<string>, b: seq<string>)
    requires NoHeader(a)
    ensures FirstHeader(a + b) == |a| + FirstHeader(b)
  {
    if a == [] {
      assert a + b == b;
    } else {
      assert (a + b)[1..] == a[1..] + b;
      FirstHeaderAfter(a[1..], b);
    }
  }

  lemma {:induction false} FirstOpeningAfter(a: seq<string>, b: seq<string>)
    requires forall l :: l in a ==> !Opens(l)
    ensures FirstOpening(a + b) == |a| + FirstOpening(b)
  {
    if a == [] {
      assert a + b == b;
    } else {
      assert (a + b)[1..] == a[1..] + b;
      FirstOpeningAfter(a[1..], b);
    }
  }

  lemma {:induction false} NoHeaderBeforeFirst(lines: seq<string>)
    ensures NoHeader(lines[..FirstHeader(lines)])
    ensures FirstHeader(lines) < |lines| ==> IsHeader(lines[FirstHeader(lines)])
  {
    if lines != [] && !IsHeader(lines[0]) {
      NoHeaderBeforeFirst(lines[1..]);
      assert lines[..FirstHeader(lines)] == [lines[0]] + lines[1..][..FirstHeader(lines[1..])];
    }
  }

  lemma {:induction false} OpensAtFirst(lines: seq<string>)
    ensures FirstOpening(lines) < |lines| ==> Opens(lines[FirstOpening(lines)])
  {
    if lines != [] && !Opens(lines[0]) {
      OpensAtFirst(lines[1..]);
    }
  }

  // ----- trailing newlines are empty lines -----

  function NonEmpty(lines: seq<string>): seq<string> {
    if lines == [] then []
    else (if lines[0] == "" then [] else [lines[0]]) + NonEmpty(lines[1..])
  }

  lemma {:induction false} NonEmptyConcat(a: seq<string>, b: seq<string>)
    ensures NonEmpty(a + b) == NonEmpty(a) + NonEmpty(b)
  {
    if a == [] {
      assert a + b == b;
    } else {
      assert (a + b)[1..] == a[1..] + b;
      NonEmptyConcat(a[1..], b);
    }
  }

  lemma {:induction false} DropLastKeepsLines(s: string)
    ensures NonEmpty(Split(DropLast(s), NL)) == NonEmpty(Split(s, NL))
    ensures NoHeader(Split(s, NL)) ==> NoHeader(Split(DropLast(s), NL))
    ensures DropLast(s) != "" ==> DropLast(s)[|DropLast(s)| - 1] != NL
  {
    if s != "" && s[|s| - 1] == NL {
      var shorter := s[..|s| - 1];
      assert s == shorter + [NL] + "";
      SplitConcat(shorter, "", NL);
      NonEmptyConcat(Split(shorter, NL), [""]);
      DropLastKeepsLines(shorter);
      assert forall l :: l in Split(shorter, NL) ==> l in Split(s, NL);
    }
  }
}
