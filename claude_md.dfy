/**
 The edit `update_claude_md` makes to a project's CLAUDE.md: unless the text already holds a
 `## Recent Accomplishments` heading, a dated section is spliced in before the first `## `
 line past the opening lines, and a guidelines block is appended when the text lacks one.
 */
module ClaudeMd {
  import opened Text

  const RecentHeading: string := "## Recent Accomplishments"
  const GuidelinesHeading: string := "## Accomplishment Logging Guidelines"
  const HeadingMark: string := "## "

  /** `ACCOMPLISHMENT_SECTION.format(date=today)`. */
  function AccomplishmentSection(today: string): (r: string)
    ensures OccursAt(r, RecentHeading, 0)
  {
    var r := RecentHeading + "\n\n"
      + "*Log major tasks, features, and fixes with timestamps for daily log automation*\n\n"
      + "- " + today + ": Added accomplishment logging framework to CLAUDE.md\n";
    assert r[..|RecentHeading|] == RecentHeading;
    r
  }

  /** `GUIDELINES_SECTION`. */
  const GuidelinesSection: string := GuidelinesHeading + "\n\n"
    + "When working on this project, Claude Code should update the \"Recent Accomplishments\" section with:\n"
    + "- Date in YYYY-MM-DD format\n"
    + "- Brief description of what was accomplished\n"
    + "- File references when relevant (e.g., \"Fixed bug in parser.py:45\")\n"
    + "- Commit hashes for significant changes\n"
    + "- Deployment or release information\n"

  lemma GuidelinesSectionHeading()
    ensures OccursAt(GuidelinesSection, GuidelinesHeading, 0)
  {
    assert GuidelinesSection[..|GuidelinesHeading|] == GuidelinesHeading;
  }

  /** The guard: the heading text anywhere in the file, not only at the start of a line. */
  function HasAccomplishmentSection(content: string): (b: bool)
    ensures b <==> exists k :: OccursAt(content, RecentHeading, k)
  {
    Contains(content, RecentHeading)
  }

  // ---------------------------------------------------------------------------------------
  // Where the section goes

  /** A line the loop stops at: a `## ` line with index above 3. */
  predicate IsInsertPoint(lines: seq<string>, i: nat)
    requires i < |lines|
  {
    i > 3 && StartsWith(lines[i], HeadingMark)
  }

  /** The first insertion point at or after `i`, or the line count when there is none. */
  function InsertFrom(lines: seq<string>, i: nat): (r: nat)
    requires i <= |lines|
    ensures i <= r <= |lines|
    ensures r < |lines| ==> IsInsertPoint(lines, r)
    ensures forall j :: i <= j < r ==> !IsInsertPoint(lines, j)
    decreases |lines| - i
  {
    if i == |lines| then |lines|
    else if IsInsertPoint(lines, i) then i
    else InsertFrom(lines, i + 1)
  }

  /** `insert_index`: the first line past the first four that starts with `## `, or the line
      count; the lines before it are never headings past index 3. */
  function InsertIndex(lines: seq<string>): (r: nat)
    ensures r <= |lines|
    ensures r < |lines| ==> r >= 4 && StartsWith(lines[r], HeadingMark)
    ensures forall j :: 3 < j < r ==> !StartsWith(lines[j], HeadingMark)
  {
    var r := InsertFrom(lines, 0);
    forall j | 3 < j < r ensures !StartsWith(lines[j], HeadingMark) {
      assert !IsInsertPoint(lines, j);
    }
    r
  }

  /** The `for`/`break`/`else` loop over `enumerate(lines)`. */
  method FindInsertIndex(lines: seq<string>) returns (idx: nat)
    ensures idx == InsertIndex(lines)
  {
    var i := 0;
    while i < |lines|
      invariant 0 <= i <= |lines|
      invariant forall j :: 0 <= j < i ==> !IsInsertPoint(lines, j)
    {
      if StartsWith(lines[i], HeadingMark) && i > 3 {
        return i;
      }
      i := i + 1;
    }
    return |lines|;
  }

  // ---------------------------------------------------------------------------------------
  // The splice

  /** `lines[:i] + ['', section] + lines[i:] + tail`. */
  function Splice(lines: seq<string>, i: nat, section: string, tail: seq<string>): (r: seq<string>)
    requires i <= |lines|
    ensures |r| == |lines| + 2 + |tail| && r[i] == "" && r[i + 1] == section
  {
    lines[..i] + ["", section] + lines[i..] + tail
  }

  /** The lines appended at the end: the guidelines, unless the text already names them. */
  function GuidelinesTail(content: string): seq<string> {
    if Contains(content, GuidelinesHeading) then [] else ["", GuidelinesSection]
  }

  /** The list `new_content` before it is joined. */
  function UpdatedLines(content: string, today: string): seq<string> {
    var lines := Split(content, '\n');
    Splice(lines, InsertIndex(lines), AccomplishmentSection(today), GuidelinesTail(content))
  }

  /** What `update_claude_md` writes, or `None` when it writes nothing and returns False. */
  function UpdatedClaudeMd(content: string, today: string): (r: Option<string>)
    ensures r.None? <==> exists k :: OccursAt(content, RecentHeading, k)
  {
    if HasAccomplishmentSection(content) then None
    else Some(Join(UpdatedLines(content, today), '\n'))
  }

  method UpdateClaudeMd(content: string, today: string) returns (r: Option<string>)
    ensures r == UpdatedClaudeMd(content, today)
  {
    if HasAccomplishmentSection(content) {
      return None;
    }
    var lines := Split(content, '\n');
    var idx := FindInsertIndex(lines);
    var section := AccomplishmentSection(today);
    var newContent := lines[..idx];
    newContent := newContent + [""];
    newContent := newContent + [section];
    newContent := newContent + lines[idx..];
    ghost var spliced := newContent;
    if !Contains(content, GuidelinesHeading) {
      newContent := newContent + [""];
      newContent := newContent + [GuidelinesSection];
    }
    SpliceBuilt(lines, idx, section, GuidelinesTail(content), spliced, newContent);
    return Some(Join(newContent, '\n'));
  }

  /** The appends of the method build the splice. */
  lemma SpliceBuilt(lines: seq<string>, i: nat, section: string, tail: seq<string>,
                    spliced: seq<string>, built: seq<string>)
    requires i <= |lines|
    requires spliced == lines[..i] + [""] + [section] + lines[i..]
    requires tail == [] || |tail| == 2
    requires built == if tail == [] then spliced else spliced + [tail[0]] + [tail[1]]
    ensures built == Splice(lines, i, section, tail)
  {
    assert lines[..i] + [""] + [section] == lines[..i] + ["", section];
    if tail == [] {
      assert built == spliced + [];
    } else {
      assert [tail[0]] + [tail[1]] == tail;
    }
  }

  // ---------------------------------------------------------------------------------------
  // What the splice keeps and adds

  /** The spliced list holds the empty line and the section at `i`, the old lines around
      them in order, and the tail at the end. */
  lemma SpliceShape(lines: seq<string>, i: nat, section: string, tail: seq<string>)
    requires i <= |lines|
    ensures var out := Splice(lines, i, section, tail);
      && |out| == |lines| + 2 + |tail|
      && out[i] == "" && out[i + 1] == section
      && out[..i] + out[i + 2..|lines| + 2] == lines
      && out[|lines| + 2..] == tail
  {
    var out := Splice(lines, i, section, tail);
    assert out[..i] == lines[..i];
    assert out[i + 2..|lines| + 2] == lines[i..];
    assert lines[..i] + lines[i..] == lines;
  }

  /** Where old line `k` sits in the spliced list. */
  lemma SpliceKeepsLine(lines: seq<string>, i: nat, section: string, tail: seq<string>, k: nat)
    returns (at: nat)
    requires i <= |lines| && k < |lines|
    ensures at < |Splice(lines, i, section, tail)| && Splice(lines, i, section, tail)[at] == lines[k]
  {
    var out := Splice(lines, i, section, tail);
    if k < i {
      at := k;
      assert out[k] == lines[..i][k];
    } else {
      at := k + 2;
      assert out[k + 2] == lines[i..][k - i];
    }
  }

  /** The new lines are the old ones with an empty line and the section at the insertion
      point, then, when the text had no guidelines heading, an empty line and the guidelines;
      taking the inserted lines out gives the original text back. */
  lemma OriginalLinesKept(content: string, today: string)
    ensures var lines := Split(content, '\n');
      var i := InsertIndex(lines);
      var out := UpdatedLines(content, today);
      var tail := if Contains(content, GuidelinesHeading) then 0 else 2;
      && |out| == |lines| + 2 + tail
      && out[i] == "" && out[i + 1] == AccomplishmentSection(today)
      && out[..i] + out[i + 2..|lines| + 2] == lines
      && Join(out[..i] + out[i + 2..|lines| + 2], '\n') == content
      && (tail == 2 ==> out[|out| - 2..] == ["", GuidelinesSection])
  {
    var lines := Split(content, '\n');
    SpliceShape(lines, InsertIndex(lines), AccomplishmentSection(today), GuidelinesTail(content));
  }

  /** A text inside the inserted section, or inside a line of the tail, is in the joined
      result. */
  lemma SpliceAddsText(lines: seq<string>, i: nat, section: string, tail: seq<string>,
                       sep: char, p: string, at: nat, n: nat)
    requires i <= |lines|
    requires at == i + 1 || |lines| + 2 <= at < |lines| + 2 + |tail|
    requires OccursAt(if at == i + 1 then section else tail[at - |lines| - 2], p, n)
    ensures Contains(Join(Splice(lines, i, section, tail), sep), p)
  {
    SpliceShape(lines, i, section, tail);
    var out := Splice(lines, i, section, tail);
    if at != i + 1 {
      assert out[at] == out[|lines| + 2..][at - |lines| - 2];
    }
    PartOccurrence(out, sep, at, p, n);
  }

  /** A text without the separator found in the old text is in the joined result. */
  lemma SpliceKeepsText(s: string, sep: char, i: nat, section: string, tail: seq<string>, p: string)
    requires i <= |Split(s, sep)|
    requires Contains(s, p) && sep !in p
    ensures Contains(Join(Splice(Split(s, sep), i, section, tail), sep), p)
  {
    var k, n := LineHolding(s, sep, p);
    var at := SpliceKeepsLine(Split(s, sep), i, section, tail, k);
    PartOccurrence(Splice(Split(s, sep), i, section, tail), sep, at, p, n);
  }

  /** The updated text holds the heading the guard looks for, so a second run, on any day,
      writes nothing. */
  lemma UpdateIsIdempotent(content: string, today: string, later: string)
    requires UpdatedClaudeMd(content, today).Some?
    ensures UpdatedClaudeMd(UpdatedClaudeMd(content, today).value, later).None?
  {
    var lines := Split(content, '\n');
    SpliceAddsText(lines, InsertIndex(lines), AccomplishmentSection(today), GuidelinesTail(content),
                   '\n', RecentHeading, InsertIndex(lines) + 1, 0);
  }

  /** After an update the text holds the guidelines heading: either it was there, inside one
      of the lines the splice keeps, or the appended block brings it. */
  lemma GuidelinesPresentAfter(content: string, today: string)
    requires UpdatedClaudeMd(content, today).Some?
    ensures Contains(UpdatedClaudeMd(content, today).value, GuidelinesHeading)
  {
    var lines := Split(content, '\n');
    if Contains(content, GuidelinesHeading) {
      KeptGuidelines(lines, content, InsertIndex(lines), AccomplishmentSection(today));
    } else {
      AppendedGuidelines(lines, InsertIndex(lines), AccomplishmentSection(today));
    }
  }

  lemma KeptGuidelines(lines: seq<string>, content: string, i: nat, section: string)
    requires lines == Split(content, '\n') && i <= |lines|
    requires Contains(content, GuidelinesHeading)
    ensures Contains(Join(Splice(lines, i, section, []), '\n'), GuidelinesHeading)
  {
    GuidelinesHeadingOneLine();
    SpliceKeepsText(content, '\n', i, section, [], GuidelinesHeading);
  }

  lemma AppendedGuidelines(lines: seq<string>, i: nat, section: string)
    requires i <= |lines|
    ensures Contains(Join(Splice(lines, i, section, ["", GuidelinesSection]), '\n'), GuidelinesHeading)
  {
    GuidelinesSectionHeading();
    SpliceAddsText(lines, i, section, ["", GuidelinesSection], '\n', GuidelinesHeading, |lines| + 3, 0);
  }

  lemma GuidelinesHeadingOneLine()
    ensures '\n' !in GuidelinesHeading
  {
  }

  /** When the text already had a guidelines heading nothing is appended after the old last
      line. */
  lemma NoSecondGuidelines(content: string, today: string)
    requires Contains(content, GuidelinesHeading)
    ensures var lines := Split(content, '\n');
      var out := UpdatedLines(content, today);
      |out| == |lines| + 2 && out[|out| - 1] == (if InsertIndex(lines) == |lines| then AccomplishmentSection(today) else lines[|lines| - 1])
  {
    var lines := Split(content, '\n');
    var i := InsertIndex(lines);
    SpliceShape(lines, i, AccomplishmentSection(today), []);
    var out := UpdatedLines(content, today);
    if i < |lines| {
      assert out[|out| - 1] == out[i + 2..|lines| + 2][|lines| - 1 - i];
    }
  }
}
