/**
 The string work of update-obsidian-daily.py: the daily note's file name for a date, the
 Obsidian rendering of the collected records, and the merge of the rendered section into an
 existing note (replacing the `## Development Work` section or appending one) or into the
 template of a new note.
 */
module DailyNote {
  import opened Text
  import opened Calendar
  import opened Sections
  import opened Accomplishments

  const SectionHeader: string := "## Development Work"
  const NothingLogged: string := "No development accomplishments logged today."

  // ---------------------------------------------------------------------------------------
  // Where the note lives

  /** `DAILY_NOTE_FORMAT` filled in for `d`, with `.md` appended: the note's path relative to
      the vault. The year is written as `str(year)`, month and day with two digits. */
  function NoteName(d: Date): (r: string)
    requires ValidDate(d)
    ensures StartsWith(r, "Daily Notes/") && EndsWith(r, FileName(d)) && EndsWith(r, ".md")
  {
    var file := FileName(d);
    var r := "Daily Notes/" + Decimal(d.year) + "/" + MonthFolder(d.month) + "/" + file;
    assert r[..12] == "Daily Notes/";
    assert r[|r| - |file|..] == file;
    assert r[|r| - 3..] == file[|file| - 3..] == ".md";
    r
  }

  function MonthFolder(m: int): string
    requires 1 <= m <= 12
  {
    PadDigits(m, 2) + "-" + MonthName(m)
  }

  function FileName(d: Date): string
    requires ValidDate(d)
  {
    Decimal(d.year) + "-" + PadDigits(d.month, 2) + "-" + PadDigits(d.day, 2) + ".md"
  }

  /** `vault_path / name` for a vault path given in its normal form (no trailing `/` other
      than that of the root itself). */
  function JoinPath(vault: string, name: string): (p: string)
    ensures vault == [] ==> p == name
    ensures vault != [] && !EndsWith(vault, "/") ==> Split(p, '/') == Split(vault, '/') + Split(name, '/')
    ensures EndsWith(vault, "/") ==> p == vault + name
    ensures EndsWith(p, name)
  {
    if vault == [] then name
    else if EndsWith(vault, "/") then vault + name
    else
      SplitAround(vault, name, '/');
      vault + "/" + name
  }

  /** `get_daily_note_path` for the vault root `vault`. */
  function NotePath(vault: string, d: Date): (p: string)
    requires ValidDate(d)
    ensures EndsWith(p, NoteName(d))
    ensures vault != [] && !EndsWith(vault, "/") ==>
              Split(p, '/') == Split(vault, '/') + ["Daily Notes", Decimal(d.year), MonthFolder(d.month), FileName(d)]
  {
    NoteNameParts(d);
    JoinPath(vault, NoteName(d))
  }

  /** The month table has twelve entries without a `/`. */
  lemma MonthNameIsPlain(m: int)
    requires 1 <= m <= 12
    ensures MonthName(m) != [] && '/' !in MonthName(m) && '\n' !in MonthName(m)
  {
    assert MonthName(m) == MonthNames[m - 1];
    assert forall i :: 0 <= i < 12 ==> MonthNames[i] != [] && '/' !in MonthNames[i] && '\n' !in MonthNames[i];
  }

  lemma DigitsArePlain(s: string)
    requires AllDigits(s)
    ensures '/' !in s
  {
    forall k | 0 <= k < |s| ensures s[k] != '/' {
      assert IsDigit(s[k]);
    }
  }

  /** A four-digit year is written alike by `str` and by the zero-padded `%Y`. */
  lemma {:induction false} DecimalWidth(n: nat, w: nat)
    requires w >= 1 && Pow10(w - 1) <= n < Pow10(w)
    ensures |Decimal(n)| == w
  {
    if n >= 10 {
      assert w >= 2;
      DecimalWidth(n / 10, w - 1);
    }
  }

  lemma NoteNameParts(d: Date)
    requires ValidDate(d)
    ensures Split(NoteName(d), '/') == ["Daily Notes", Decimal(d.year), MonthFolder(d.month), FileName(d)]
  {
    var parts := ["Daily Notes", Decimal(d.year), MonthFolder(d.month), FileName(d)];
    NoteNameJoin(d);
    NoteNamePartsPlain(d);
    SplitJoin(parts, '/');
  }

  lemma NoteNameJoin(d: Date)
    requires ValidDate(d)
    ensures Join(["Daily Notes", Decimal(d.year), MonthFolder(d.month), FileName(d)], '/') == NoteName(d)
  {
    JoinFour("Daily Notes", Decimal(d.year), MonthFolder(d.month), FileName(d), '/');
  }

  lemma JoinFour(a: string, b: string, c: string, e: string, sep: char)
    ensures Join([a, b, c, e], sep) == a + [sep] + b + [sep] + c + [sep] + e
  {
    assert [a, b, c, e][1..] == [b, c, e];
    assert [b, c, e][1..] == [c, e];
    assert [c, e][1..] == [e];
    assert Join([c, e], sep) == c + [sep] + e;
    assert Join([b, c, e], sep) == b + [sep] + (c + [sep] + e);
    assert Join([a, b, c, e], sep) == a + [sep] + (b + [sep] + (c + [sep] + e));
  }

  lemma NoteNamePartsPlain(d: Date)
    requires ValidDate(d)
    ensures var parts := ["Daily Notes", Decimal(d.year), MonthFolder(d.month), FileName(d)];
      forall k :: 0 <= k < |parts| ==> '/' !in parts[k]
  {
    MonthNameIsPlain(d.month);
    DigitsArePlain(Decimal(d.year));
    DigitsArePlain(PadDigits(d.month, 2));
    DigitsArePlain(PadDigits(d.day, 2));
    assert '/' !in "Daily Notes";
    assert '/' !in MonthFolder(d.month);
    assert '/' !in FileName(d);
  }

  lemma FileNameStem(d: Date)
    requires ValidDate(d) && d.year >= 1000
    ensures |FileName(d)| == 13 && FileName(d)[..10] == DateToken(d)
  {
    DecimalWidth(d.year, 4);
    PadValue(Decimal(d.year));
    assert Decimal(d.year) == PadDigits(d.year, 4);
  }

  /** The note's name has the four components `Daily Notes`, the year, `MM-MonthName` and the
      file; the year folder reads back as the year, the month folder starts with the month
      and goes on with its English name, and for years from 1000 on the file is the date in
      `YYYY-MM-DD` form, which `strptime` reads back as `d`, followed by `.md`. */
  lemma NoteNameReadsBack(d: Date)
    requires ValidDate(d)
    ensures var parts := Split(NoteName(d), '/');
      && |parts| == 4
      && parts[0] == "Daily Notes"
      && AllDigits(parts[1]) && Value(parts[1]) == d.year
      && |parts[2]| > 2 && parts[2][..2] == PadDigits(d.month, 2) && Value(PadDigits(d.month, 2)) == d.month
      && parts[2][2..] == "-" + MonthName(d.month)
      && EndsWith(parts[3], ".md")
      && (d.year >= 1000 ==> |parts[3]| == 13 && ParseDate(parts[3][..10]) == Some(d))
  {
    NoteNameParts(d);
    var folder := MonthFolder(d.month);
    assert folder[..2] == PadDigits(d.month, 2) && folder[2..] == "-" + MonthName(d.month);
    var file := FileName(d);
    assert file[|file| - 3..] == ".md";
    if d.year >= 1000 {
      FileNameStem(d);
    }
  }

  // ---------------------------------------------------------------------------------------
  // The Obsidian rendering

  /** `format_accomplishments_for_obsidian`: the fixed sentence when there is nothing to
      report, otherwise the `### [[project]]` groups in sorted project order, stripped. */
  method FormatForObsidian(rs: seq<Record>) returns (out: string)
    ensures rs == [] ==> out == NothingLogged
    ensures rs != [] ==> out == Strip(Join(RenderedLines(Obsidian, rs), '\n'))
  {
    if rs == [] {
      return NothingLogged;
    }
    var keys, groups := GroupByProject(rs);
    var order := SortDistinct(keys);
    assert forall p :: p in order <==> p in keys by {
      assert forall p :: p in order <==> p in multiset(order);
      assert forall p :: p in keys <==> p in multiset(keys);
    }
    var lines := AppendGroups(Obsidian, rs, order, groups);
    out := Strip(Join(lines, '\n'));
  }

  /** The lines before `strip()`: a blank line closes every group, and `strip()` removes
      exactly the last of them, so groups stay separated by one blank line, the result starts
      with the first project's heading and does not end in a blank line. */
  lemma ObsidianLayout(rs: seq<Record>)
    requires rs != [] && forall k :: 0 <= k < |rs| ==> Trimmed(rs[k])
    ensures var ls := RenderedLines(Obsidian, rs);
      && |ls| >= 3 && ls[|ls| - 1] == ""
      && Projects(rs) != [] && ls[0] == GroupHeading(Obsidian, Projects(rs)[0])
      && Strip(Join(ls, '\n')) == Join(ls[..|ls| - 1], '\n')
  {
    var ls := RenderedLines(Obsidian, rs);
    ObsidianLines(rs);
    StripDropsFinalBlank(ls[..|ls| - 1]);
    assert ls == ls[..|ls| - 1] + [""];
  }

  /** A rendering ends in the blank line of its last group, and before it the last line of that
      group's last record. */
  lemma ObsidianLines(rs: seq<Record>)
    requires rs != [] && forall k :: 0 <= k < |rs| ==> Trimmed(rs[k])
    ensures var ls := RenderedLines(Obsidian, rs);
      && |ls| >= 3 && ls[|ls| - 1] == ""
      && Projects(rs) != [] && ls[0] == GroupHeading(Obsidian, Projects(rs)[0])
      && EndsNonBlank(ls[|ls| - 2])
  {
    var ps := Projects(rs);
    OfProjectMembers(rs, rs[0].project);
    assert rs[0].project in ps;
    var last := ps[|ps| - 1];
    OfProjectMembers(rs, last);
    assert OfProject(rs, last) != [];
    forall x | x in OfProject(rs, last) ensures Trimmed(x) {
      assert x in rs;
      var k :| 0 <= k < |rs| && rs[k] == x;
    }
    GroupsLinesEnd(ps, rs);
    GroupsLinesStart(Obsidian, ps, rs);
    assert RenderedLines(Obsidian, rs) == GroupsLines(Obsidian, ps, rs);
  }

  lemma GroupsLinesEnd(ps: seq<string>, rs: seq<Record>)
    requires ps != []
    requires var g := OfProject(rs, ps[|ps| - 1]); g != [] && forall x :: x in g ==> Trimmed(x)
    ensures var ls := GroupsLines(Obsidian, ps, rs);
      && |ls| >= 3 && ls[|ls| - 1] == ""
      && EndsNonBlank(ls[|ls| - 2])
  {
    var g := OfProject(rs, ps[|ps| - 1]);
    var rl := RecordsLines(g);
    RecordsLinesEnd(g);
    var front := GroupsLines(Obsidian, ps[..|ps| - 1], rs) + [GroupHeading(Obsidian, ps[|ps| - 1])];
    LastObsidianGroup(ps, rs);
    BeforeFinalBlank(front, rl);
  }

  lemma LastObsidianGroup(ps: seq<string>, rs: seq<Record>)
    requires ps != []
    ensures GroupsLines(Obsidian, ps, rs)
         == GroupsLines(Obsidian, ps[..|ps| - 1], rs) + [GroupHeading(Obsidian, ps[|ps| - 1])]
            + RecordsLines(OfProject(rs, ps[|ps| - 1])) + [""]
  {
    GroupsLinesSnoc(Obsidian, ps, rs);
  }

  lemma BeforeFinalBlank(front: seq<string>, rl: seq<string>)
    requires rl != []
    ensures var ls := front + rl + [""];
      |ls| >= |front| + 2 && ls[|ls| - 1] == "" && ls[|ls| - 2] == rl[|rl| - 1]
  {
  }

  /** `strip()` of lines joined with `\n` whose last line is blank, whose first line starts
      and whose last non-blank line ends with a non-blank: the join without the blank line. */
  lemma StripDropsFinalBlank(front: seq<string>)
    requires |front| >= 1 && front[0] != [] && !IsSpace(front[0][0])
    requires EndsNonBlank(front[|front| - 1])
    ensures Strip(Join(front + [""], '\n')) == Join(front, '\n')
  {
    JoinSnoc(front, "", '\n');
    JoinFirst(front, '\n');
    JoinLast(front, '\n');
    var j := Join(front, '\n');
    assert IsStripped(j);
    assert Join(front + [""], '\n') == [] + j + "\n";
    StripFrame([], j, "\n");
  }

  /** A line whose last character is not whitespace. */
  predicate EndsNonBlank(l: string) {
    l != [] && !IsSpace(l[|l| - 1])
  }

  lemma GroupsLinesStart(style: Style, ps: seq<string>, rs: seq<Record>)
    requires ps != []
    ensures |GroupsLines(style, ps, rs)| >= 1 && GroupsLines(style, ps, rs)[0] == GroupHeading(style, ps[0])
    decreases |ps|
  {
    if |ps| > 1 {
      GroupsLinesStart(style, ps[..|ps| - 1], rs);
    }
  }

  /** The last line a non-empty list of trimmed records renders to ends in a non-blank. */
  lemma RecordsLinesEnd(rs: seq<Record>)
    requires rs != [] && forall x :: x in rs ==> Trimmed(x)
    ensures var ls := RecordsLines(rs);
      ls != [] && EndsNonBlank(ls[|ls| - 1])
  {
    var r := rs[|rs| - 1];
    assert r in rs;
    var rl := RecordLines(r);
    if r.details == [] {
      assert rl == ["- " + r.content];
    } else {
      var dl := DetailLines(r.details);
      assert rl[|rl| - 1] == dl[|dl| - 1];
    }
  }

  // ---------------------------------------------------------------------------------------
  // Merging the section into the note

  /** `full_section`: the section heading, a blank line and the rendered body. */
  function FullSection(body: string): string {
    SectionHeader + "\n\n" + body
  }

  /** The new-note template around `full_section`. */
  const ReviewHeading: string := "## Daily Review"
  const WentWell: string := "### What went well today?"
  const CouldImprove: string := "### What could be improved?"
  const Priorities: string := "### Tomorrow's priorities"
  const ReviewText: string :=
    ReviewHeading + "\n\n" + WentWell + "\n\n\n" + CouldImprove + "\n\n\n" + Priorities
  const NotesBlock: string := "\n" + NotesRest
  const NotesRest: string := "\n## Meeting Notes\n\n\n## Other Notes\n\n"

  /** The title line `# YYYY-MM-DD - Weekday`. */
  function Title(d: Date, weekday: string): string
    requires ValidDate(d)
  {
    "# " + DateToken(d) + " - " + weekday
  }

  /** The title line and the review block, up to where the section goes. */
  function NoteHead(d: Date, weekday: string): string
    requires ValidDate(d)
  {
    Title(d, weekday) + "\n\n" + ReviewText + "\n\n\n"
  }

  /** The note written when there is none for the day yet. */
  function NewNote(d: Date, weekday: string, full: string): (r: string)
    requires ValidDate(d)
    ensures StartsWith(r, NoteHead(d, weekday)) && EndsWith(r, NotesBlock)
    ensures |r| == |NoteHead(d, weekday)| + |full| + |NotesBlock|
    ensures r[|NoteHead(d, weekday)|..|r| - |NotesBlock|] == full
  {
    var head := NoteHead(d, weekday);
    var r := head + full + NotesBlock;
    assert r[..|head|] == head;
    assert r[|head|..|r| - |NotesBlock|] == full;
    assert r[|r| - |NotesBlock|..] == NotesBlock;
    r
  }

  /** The new note opens with `# `, the date token, which `strptime` reads back as the day,
      ` - ` and the weekday; the review block ends with the priorities heading and two blank
      lines; the section follows, and the meeting and other notes headings close the note. */
  lemma NewNoteShape(d: Date, weekday: string, full: string)
    requires ValidDate(d)
    ensures var n := NewNote(d, weekday, full);
      var h := NoteHead(d, weekday);
      && n[..|h|] == h && n[|h|..|h| + |full|] == full && n[|h| + |full|..] == NotesBlock
      && |h| > 15 + |weekday|
      && h[..2] == "# " && ParseDate(h[2..12]) == Some(d) && h[12..15] == " - "
      && h[15..15 + |weekday|] == weekday && h[15 + |weekday|] == '\n'
      && EndsWith(h, Priorities + "\n\n\n")
  {
    var n := NewNote(d, weekday, full);
    var h := NoteHead(d, weekday);
    ThreeParts(h, full, NotesBlock);
    assert n[|h|..|h| + |full|] == full;
    TitleShape(d, weekday);
    HeadShape(Title(d, weekday), weekday);
  }

  lemma TitleShape(d: Date, weekday: string)
    requires ValidDate(d)
    ensures var t := Title(d, weekday);
      && |t| == 15 + |weekday|
      && t[..2] == "# " && ParseDate(t[2..12]) == Some(d) && t[12..15] == " - " && t[15..] == weekday
  {
    var t := Title(d, weekday);
    assert t[2..12] == DateToken(d);
    assert t[15..] == weekday;
  }

  /** What the head keeps of its title, and how it ends. */
  lemma HeadShape(t: string, weekday: string)
    requires |t| == 15 + |weekday| && t[15..] == weekday
    ensures var h := t + "\n\n" + ReviewText + "\n\n\n";
      && |h| > |t| && h[..|t|] == t && h[15..15 + |weekday|] == weekday && h[|t|] == '\n'
      && EndsWith(h, Priorities + "\n\n\n")
  {
    var h := t + "\n\n" + ReviewText + "\n\n\n";
    assert h[..|t|] == t;
    assert h[15..15 + |weekday|] == t[15..];
    var tail := Priorities + "\n\n\n";
    assert h == (t + "\n\n" + ReviewHeading + "\n\n" + WentWell + "\n\n\n" + CouldImprove + "\n\n\n") + tail;
  }

  /** An existing note with the section merged in: the first match of the section pattern is
      replaced, or, without one, the section is appended after a blank line. */
  function MergeNote(content: string, full: string): (r: string)
    ensures FindSection(content, SectionHeader).Some? ==>
              var m := FindSection(content, SectionHeader).value;
              StartsWith(r, content[..m.start]) && EndsWith(r, content[m.end..])
    ensures FindSection(content, SectionHeader).None? ==> StartsWith(r, content) && EndsWith(r, full)
  {
    match FindSection(content, SectionHeader)
    case Some(r) => content[..r.start] + full + content[r.end..]
    case None => (if EndsWith(content, "\n") then content else content + "\n") + "\n" + full
  }

  /** The text `update_daily_note` writes, given the note's text if the file exists. */
  function UpdatedNote(existing: Option<string>, full: string, d: Date, weekday: string): string
    requires ValidDate(d)
  {
    match existing
    case None => NewNote(d, weekday, full)
    case Some(content) => MergeNote(content, full)
  }

  /** The body `format_accomplishments_for_obsidian` returns. */
  function ObsidianBody(rs: seq<Record>): string {
    if rs == [] then NothingLogged else Strip(Join(RenderedLines(Obsidian, rs), '\n'))
  }

  /** `update_daily_note` given the vault root, the note's text if the file exists, and the
      weekday name: the path written to and the text written. */
  method UpdateDailyNote(vault: string, existing: Option<string>, rs: seq<Record>, d: Date, weekday: string)
    returns (path: string, note: string)
    requires ValidDate(d)
    ensures path == NotePath(vault, d)
    ensures note == UpdatedNote(existing, FullSection(ObsidianBody(rs)), d, weekday)
  {
    path := NotePath(vault, d);
    var sectionContent := FormatForObsidian(rs);
    var fullSection := SectionHeader + "\n\n" + sectionContent;
    if existing.Some? {
      var content := existing.value;
      var m := FindSection(content, SectionHeader);
      if m.Some? {
        note := content[..m.value.start] + fullSection + content[m.value.end..];
      } else {
        if !EndsWith(content, "\n") {
          content := content + "\n";
        }
        note := content + "\n" + fullSection;
      }
    } else {
      note := NewNote(d, weekday, fullSection);
    }
  }

  // ---------------------------------------------------------------------------------------
  // Properties of the merge

  lemma HeaderNoSelfOverlap()
    ensures NoSelfOverlap(SectionHeader) && !IsSpace(SectionHeader[0])
  {
    var h := SectionHeader;
    assert forall m :: 2 <= m < |h| ==> h[m] != '#';
    forall m | 0 < m < |h| ensures h[m..] != h[..|h| - m] {
      if m == 1 {
        assert h[m..][1] != h[..|h| - m][1];
      } else {
        assert h[m..][0] != h[..|h| - m][0];
      }
    }
  }

  /** Replacing: the text before the match and the text after it are kept byte for byte, the
      section stands between them, and what follows it is empty or a `##`-marked line. */
  lemma ReplaceKeepsSurroundings(content: string, full: string)
    requires FindSection(content, SectionHeader).Some?
    ensures var r := FindSection(content, SectionHeader).value;
      var out := MergeNote(content, full);
      && |out| == r.start + |full| + (|content| - r.end)
      && out[..r.start] == content[..r.start]
      && out[r.start..r.start + |full|] == full
      && out[r.start + |full|..] == content[r.end..]
      && OccursAt(content, SectionHeader, r.start)
      && (content[r.end..] == [] || StartsWith(content[r.end..], SubheadingMark))
  {
    MatchSuffix(content, SectionHeader);
  }

  /** Appending: the old text is a prefix of the result, the section closes it, and one blank
      line separates the two. */
  lemma AppendKeepsContent(content: string, full: string)
    requires FindSection(content, SectionHeader).None?
    ensures var out := MergeNote(content, full);
      && StartsWith(out, content) && EndsWith(out, full)
      && |out| == |content| + (if EndsWith(content, "\n") then 1 else 2) + |full|
      && EndsWith(out[..|out| - |full|], "\n\n")
  {
    var out := MergeNote(content, full);
    var c := if EndsWith(content, "\n") then content else content + "\n";
    assert out == c + "\n" + full;
    assert out[..|content|] == content;
    assert out[|out| - |full|..] == full;
    assert out[..|out| - |full|] == c + "\n";
    if EndsWith(content, "\n") {
      assert c[|c| - 1] == '\n';
    }
  }

  /** The section of a run that wrote one group or none, merged again, is replaced whole: a
      second run on the same day gives what the second run alone would have given. */
  lemma RemergeReplaces(content: string, body1: string, body2: string)
    requires FindSection(content, SectionHeader).Some?
    requires body1 != [] && !IsSpace(body1[0]) && !Contains(body1, SubheadingMark)
    ensures MergeNote(MergeNote(content, FullSection(body1)), FullSection(body2))
         == MergeNote(content, FullSection(body2))
  {
    var r := FindSection(content, SectionHeader).value;
    var pre := content[..r.start];
    var post := content[r.end..];
    var t := MergeNote(content, FullSection(body1));
    assert t == pre + FullSection(body1) + post;
    var b := r.start + |SectionHeader| + 2;
    SecondMatch(content, t, body1, post);
    ThreeParts(pre, FullSection(body1), post);
    ReplaceRegion(t, pre, b, BodyEnd(t, b), post, FullSection(body2));
  }

  /** The section written over a match is found again, whole. */
  lemma SecondMatch(content: string, t: string, body1: string, post: string)
    requires FindSection(content, SectionHeader).Some?
    requires body1 != [] && !IsSpace(body1[0]) && !Contains(body1, SubheadingMark)
    requires var r := FindSection(content, SectionHeader).value;
      t == content[..r.start] + FullSection(body1) + post && post == content[r.end..]
    ensures var r := FindSection(content, SectionHeader).value;
      var b := r.start + |SectionHeader| + 2;
      && FindSection(t, SectionHeader) == Some(Region(r.start, b, BodyEnd(t, b)))
      && BodyEnd(t, b) == b + |body1|
  {
    var r := FindSection(content, SectionHeader).value;
    Rematch(content, t, body1, post);
    RestAfterMatch(content, post);
    BodyEndsAtRest(t, r.start + |SectionHeader| + 2, body1, post);
  }

  /** What follows a match is empty or starts with `\n##`. */
  lemma RestAfterMatch(content: string, post: string)
    requires FindSection(content, SectionHeader).Some?
    requires post == content[FindSection(content, SectionHeader).value.end..]
    ensures post == [] || StartsWith(post, SubheadingMark)
  {
    MatchSuffix(content, SectionHeader);
  }

  /** A section that wrote several groups, merged again, loses only its first group: the
      region stops at the next `\n###` line, so the later groups stay after the new section. */
  lemma RemergeKeepsLaterGroups(content: string, b1: string, b2: string, body2: string)
    requires FindSection(content, SectionHeader).Some?
    requires b1 != [] && !IsSpace(b1[0]) && !Contains(b1, SubheadingMark)
    ensures var r := FindSection(content, SectionHeader).value;
      MergeNote(MergeNote(content, FullSection(b1 + "\n###" + b2)), FullSection(body2))
        == content[..r.start] + FullSection(body2) + ("\n###" + b2 + content[r.end..])
  {
    var r := FindSection(content, SectionHeader).value;
    LaterGroupsAgain(content, MergeNote(content, FullSection(b1 + "\n###" + b2)),
                     content[..r.start], content[r.end..], b1, b2, body2);
  }

  lemma LaterGroupsAgain(content: string, t: string, pre: string, post: string, b1: string, b2: string, body2: string)
    requires FindSection(content, SectionHeader).Some?
    requires b1 != [] && !IsSpace(b1[0]) && !Contains(b1, SubheadingMark)
    requires pre == content[..FindSection(content, SectionHeader).value.start]
    requires post == content[FindSection(content, SectionHeader).value.end..]
    requires t == MergeNote(content, FullSection(b1 + "\n###" + b2))
    ensures MergeNote(t, FullSection(body2)) == pre + FullSection(body2) + ("\n###" + b2 + post)
  {
    var b := |pre| + |SectionHeader| + 2;
    assert t == pre + FullSection(b1 + "\n###" + b2) + post;
    LaterGroupsRegion(content, t, b1, b2, post);
    RegroupLater(t, pre, b1, b2, post);
    ReplaceRegion(t, pre, b, BodyEnd(t, b), "\n###" + b2 + post, FullSection(body2));
  }

  lemma RegroupLater(t: string, pre: string, b1: string, b2: string, post: string)
    requires t == pre + FullSection(b1 + "\n###" + b2) + post
    ensures t[..|pre|] == pre
    ensures t[|pre| + |SectionHeader| + 2 + |b1|..] == "\n###" + b2 + post
  {
    var a := pre + SectionHeader + "\n\n" + b1;
    assert t == a + ("\n###" + b2 + post);
    assert t[..|pre|] == a[..|pre|];
  }

  /** The first merge's section, found again, stops before its second group. */
  lemma LaterGroupsRegion(content: string, t: string, b1: string, b2: string, post: string)
    requires FindSection(content, SectionHeader).Some?
    requires b1 != [] && !IsSpace(b1[0]) && !Contains(b1, SubheadingMark)
    requires var r := FindSection(content, SectionHeader).value;
      t == content[..r.start] + FullSection(b1 + "\n###" + b2) + post
    ensures var r := FindSection(content, SectionHeader).value;
      var b := r.start + |SectionHeader| + 2;
      FindSection(t, SectionHeader) == Some(Region(r.start, b, BodyEnd(t, b))) && BodyEnd(t, b) == b + |b1|
  {
    var r := FindSection(content, SectionHeader).value;
    var body1 := b1 + "\n###" + b2;
    FirstCharKept(b1, "\n###" + b2);
    Rematch(content, t, body1, post);
    var b := r.start + |SectionHeader| + 2;
    assert t[b..] == body1 + post;
    EndBeforeSecondGroup(t, b, b1, b2, post);
  }

  lemma FirstCharKept(a: string, rest: string)
    requires a != [] && !IsSpace(a[0])
    ensures (a + rest) != [] && !IsSpace((a + rest)[0])
  {
    assert (a + rest)[0] == a[0];
  }

  lemma EndBeforeSecondGroup(t: string, b: nat, b1: string, b2: string, post: string)
    requires b <= |t| && t[b..] == b1 + "\n###" + b2 + post
    requires !Contains(b1, SubheadingMark)
    ensures BodyEnd(t, b) == b + |b1|
  {
    SplitAtDeeperHeading(t, b, b1, b2, post);
    BodyStopsAtDeeperHeading(t, b, b1, b2 + post);
  }

  lemma SplitAtDeeperHeading(t: string, b: nat, b1: string, b2: string, post: string)
    requires b <= |t| && t[b..] == b1 + "\n###" + b2 + post
    ensures t[b..] == b1 + "\n###" + (b2 + post)
    ensures t[b + |b1|..] == "\n###" + b2 + post
  {
    assert t[b + |b1|..] == t[b..][|b1|..];
  }

  /** The merge of a non-blank body over an existing match starts its region where the old one
      started. */
  lemma Rematch(content: string, t: string, body: string, post: string)
    requires FindSection(content, SectionHeader).Some?
    requires body != [] && !IsSpace(body[0])
    requires var r := FindSection(content, SectionHeader).value;
      t == content[..r.start] + FullSection(body) + post
    ensures var r := FindSection(content, SectionHeader).value;
      FindSection(t, SectionHeader)
        == Some(Region(r.start, r.start + |SectionHeader| + 2, BodyEnd(t, r.start + |SectionHeader| + 2)))
    ensures var r := FindSection(content, SectionHeader).value;
      t[r.start + |SectionHeader| + 2..] == body + post
  {
    var r := FindSection(content, SectionHeader).value;
    var h := SectionHeader;
    HeaderNoSelfOverlap();
    var u := FullSection(body) + post;
    assert t == content[..r.start] + u;
    assert t[r.start..] == h + "\n\n" + body + post;
    SectionLayout(t, h, r.start, body, post);
    assert t[..r.start + |h|] == content[..r.start + |h|] by {
      assert content[r.start..r.start + |h|] == h;
      assert t[r.start..r.start + |h|] == h;
    }
    EarlierPositionsStayUnmatched(content, t, h, r.start);
    HeadingThenBlankLine(t, h, r.start);
    FirstMatchAt(t, h, r.start, r.start + |h| + 2);
  }

  /** A fresh note, merged again, has its section found and replaced; the lookahead stops at
      the first `\n` of the blank line before `## Meeting Notes`, so that blank line is the
      one thing the second run takes away. */
  lemma NewNoteRemerge(d: Date, weekday: string, body1: string, body2: string)
    requires ValidDate(d) && '#' !in weekday
    requires body1 != [] && IsStripped(body1) && !Contains(body1, SubheadingMark)
    ensures MergeNote(NewNote(d, weekday, FullSection(body1)), FullSection(body2))
         == NoteHead(d, weekday) + FullSection(body2) + NotesRest
  {
    HeadIsFree(d, weekday);
    NotesRestMarked();
    RemergeAfterFreeHead(NoteHead(d, weekday), body1, NotesRest, body2);
  }

  lemma RemergeAfterFreeHead(head: string, body1: string, q: string, body2: string)
    requires !Contains(head, SectionHeader) && StartsWith(q, SubheadingMark)
    requires body1 != [] && IsStripped(body1) && !Contains(body1, SubheadingMark)
    ensures MergeNote(head + FullSection(body1) + ("\n" + q), FullSection(body2))
         == head + FullSection(body2) + q
  {
    var t := head + FullSection(body1) + ("\n" + q);
    var e := |head| + |FullSection(body1)| + 1;
    FreshNoteRegion(head, body1, q, t, e);
    FreshSlices(head, FullSection(body1), q, t);
    ReplaceRegion(t, head, |head| + |SectionHeader| + 2, e, q, FullSection(body2));
  }

  lemma FreshNoteRegion(head: string, body1: string, q: string, t: string, e: nat)
    requires !Contains(head, SectionHeader) && StartsWith(q, SubheadingMark)
    requires body1 != [] && IsStripped(body1) && !Contains(body1, SubheadingMark)
    requires t == head + FullSection(body1) + ("\n" + q)
    requires e == |head| + |FullSection(body1)| + 1
    ensures FindSection(t, SectionHeader) == Some(Region(|head|, |head| + |SectionHeader| + 2, e))
  {
    NewNoteLayout(head, body1, q, t);
    NewlineAfterBody(body1);
    StrippedThenNewline(body1);
    FreshRegion(head, body1 + "\n", q, t);
  }

  /** In a fresh note the section is found, and its region ends where the next heading's
      `\n##` begins. */
  lemma FreshRegion(head: string, body: string, q: string, t: string)
    requires !Contains(head, SectionHeader) && StartsWith(q, SubheadingMark)
    requires body != [] && !IsSpace(body[0]) && !Contains(body, SubheadingMark)
    requires t == head + (SectionHeader + "\n\n" + body + q)
    ensures FindSection(t, SectionHeader)
         == Some(Region(|head|, |head| + |SectionHeader| + 2, |head| + |SectionHeader| + 2 + |body|))
  {
    var rest := SectionHeader + "\n\n" + body + q;
    HeadingLeads(SectionHeader, "\n\n" + body + q);
    assert t[|head|..] == rest;
    FreeHeadUnmatched(t, head, rest);
    SectionAt(t, SectionHeader, |head|, body, q);
  }

  lemma HeadingLeads(h: string, u: string)
    ensures OccursAt(h + u, h, 0)
  {
    assert (h + u)[..|h|] == h;
  }

  /** Replacing a region whose surroundings are known. */
  lemma ReplaceRegion(t: string, head: string, bs: nat, e: nat, rest: string, full: string)
    requires FindSection(t, SectionHeader) == Some(Region(|head|, bs, e))
    requires t[..|head|] == head && t[e..] == rest
    ensures MergeNote(t, full) == head + full + rest
  {
  }

  lemma FreshSlices(head: string, full: string, q: string, t: string)
    requires t == head + full + ("\n" + q)
    ensures t[..|head|] == head && t[|head| + |full| + 1..] == q
  {
    ThreeParts(head, full, "\n" + q);
    assert t[|head| + |full| + 1..] == t[|head| + |full|..][1..];
  }

  /** The outer parts of a three-part text. */
  lemma ThreeParts(a: string, b: string, c: string)
    ensures (a + b + c)[..|a|] == a && (a + b + c)[|a| + |b|..] == c
  {
  }

  lemma StrippedThenNewline(body1: string)
    requires body1 != [] && IsStripped(body1)
    ensures !IsSpace((body1 + "\n")[0])
  {
    assert (body1 + "\n")[0] == body1[0];
  }

  lemma NotesRestMarked()
    ensures StartsWith(NotesRest, SubheadingMark)
  {
    assert NotesRest[..3] == SubheadingMark by {
      assert NotesRest[0] == '\n' && NotesRest[1] == '#' && NotesRest[2] == '#';
    }
  }

  lemma NewNoteLayout(head: string, body1: string, q: string, t: string)
    requires t == head + FullSection(body1) + ("\n" + q)
    ensures t == head + (SectionHeader + "\n\n" + (body1 + "\n") + q)
    ensures t[..|head|] == head
    ensures t[|head|..] == SectionHeader + "\n\n" + (body1 + "\n") + q
  {
  }

  /** Positions before an occurrence of the heading in a text whose first part does not
      contain it find no section. */
  lemma FreeHeadUnmatched(t: string, head: string, rest: string)
    requires t == head + rest && OccursAt(rest, SectionHeader, 0)
    requires !Contains(head, SectionHeader)
    ensures forall k: nat :: k < |head| ==> BodyStart(t, SectionHeader, k).None?
  {
    var h := SectionHeader;
    HeaderNoSelfOverlap();
    assert t[|head|..|head| + |h|] == rest[..|h|];
    assert OccursAt(t, h, |head|);
    forall k: nat | k < |head| ensures !OccursAt(t, h, k) {
      if k + |h| <= |head| {
        assert t[k..k + |h|] == head[k..k + |h|];
        assert !OccursAt(head, h, k);
      } else {
        NoOccurrenceJustBefore(t, h, k, |head|);
      }
    }
  }

  lemma NoOccurrenceJustBefore(s: string, h: string, i: nat, j: nat)
    requires NoSelfOverlap(h) && OccursAt(s, h, j) && i < j < i + |h|
    ensures !OccursAt(s, h, i)
  {
    if OccursAt(s, h, i) {
      OccurrencesApart(s, h, i, j);
    }
  }

  lemma NewlineAfterBody(body: string)
    requires body != [] && IsStripped(body) && !Contains(body, SubheadingMark)
    ensures !Contains(body + "\n", SubheadingMark)
  {
    var s := body + "\n";
    forall k: nat | k + 3 <= |s| ensures !OccursAt(s, SubheadingMark, k) {
      MarkChars(s, k);
      if k + 3 <= |body| {
        assert s[k..k + 3] == body[k..k + 3];
        MarkChars(body, k);
      } else if k + 3 == |s| {
        assert s[k] == body[|body| - 2] && s[k + 1] == body[|body| - 1];
      }
    }
  }

  /** A run of newlines between two texts free of the heading keeps the whole free of it. */
  lemma {:induction false} FreeAcrossNewlines(a: string, gap: string, b: string)
    requires !Contains(a, SectionHeader) && !Contains(b, SectionHeader)
    requires gap != [] && forall i :: 0 <= i < |gap| ==> gap[i] == '\n'
    ensures !Contains(a + gap + b, SectionHeader)
  {
    var s := a + gap + b;
    var h := SectionHeader;
    assert '\n' !in h;
    forall k: nat | k + |h| <= |s| ensures !OccursAt(s, h, k) {
      if k + |h| <= |a| {
        assert s[k..k + |h|] == a[k..k + |h|];
        assert !OccursAt(a, h, k);
      } else if k >= |a| + |gap| {
        var j := k - |a| - |gap|;
        assert s[k..k + |h|] == b[j..j + |h|];
        assert !OccursAt(b, h, j);
      } else {
        var i := if k >= |a| then k else |a|;
        assert s[i] == gap[i - |a|] == '\n';
        assert s[k..k + |h|] != h by {
          assert s[k..k + |h|][i - k] == s[i];
          assert h[i - k] in h;
        }
      }
    }
  }

  lemma ShortIsFree(a: string)
    requires |a| < |SectionHeader|
    ensures !Contains(a, SectionHeader)
  {
  }

  lemma TemplateLinesFree()
    ensures !Contains(WentWell, SectionHeader)
    ensures !Contains(CouldImprove, SectionHeader)
    ensures !Contains(Priorities, SectionHeader)
  {
    var h := SectionHeader;
    forall k: nat | k + |h| <= |WentWell| ensures !OccursAt(WentWell, h, k) {
      assert WentWell[k..k + |h|][3] == WentWell[k + 3];
    }
    forall k: nat | k + |h| <= |CouldImprove| ensures !OccursAt(CouldImprove, h, k) {
      assert CouldImprove[k..k + |h|][3] == CouldImprove[k + 3];
    }
    forall k: nat | k + |h| <= |Priorities| ensures !OccursAt(Priorities, h, k) {
      assert Priorities[k..k + |h|][3] == Priorities[k + 3];
    }
  }

  /** The title line holds no `##`, so it cannot hold the heading. */
  lemma TitleIsFree(d: Date, weekday: string)
    requires ValidDate(d) && '#' !in weekday
    ensures !Contains(Title(d, weekday), SectionHeader)
  {
    var t := Title(d, weekday);
    var token := DateToken(d);
    forall i | 1 <= i < |t| ensures t[i] != '#' {
      if 2 <= i < 12 {
        assert t[i] == token[i - 2];
        var j := i - 2;
        if j < 4 {
          assert token[j] == token[0..4][j];
        } else if 5 <= j < 7 {
          assert token[j] == token[5..7][j - 5];
        } else if 8 <= j {
          assert token[j] == token[8..10][j - 8];
        }
      } else if i >= 15 {
        assert t[i] == weekday[i - 15];
      }
    }
    forall k: nat | k + |SectionHeader| <= |t| ensures !OccursAt(t, SectionHeader, k) {
      assert t[k..k + |SectionHeader|][1] == t[k + 1];
    }
  }

  /** The part of a new note before `full_section` holds no `## Development Work`. */
  lemma HeadIsFree(d: Date, weekday: string)
    requires ValidDate(d) && '#' !in weekday
    ensures !Contains(NoteHead(d, weekday), SectionHeader)
  {
    var title := Title(d, weekday);
    TitleIsFree(d, weekday);
    ReviewIsFree();
    FreeAcrossNewlines(title, "\n\n", ReviewText);
    FreeThenNewlines(title + "\n\n" + ReviewText, "\n\n\n");
  }

  lemma ReviewIsFree()
    ensures !Contains(ReviewText, SectionHeader)
  {
    ShortIsFree(ReviewHeading);
    TemplateLinesFree();
    var s1 := ReviewHeading + "\n\n" + WentWell;
    FreeAcrossNewlines(ReviewHeading, "\n\n", WentWell);
    var s2 := s1 + "\n\n\n" + CouldImprove;
    FreeAcrossNewlines(s1, "\n\n\n", CouldImprove);
    FreeAcrossNewlines(s2, "\n\n\n", Priorities);
  }

  lemma FreeThenNewlines(a: string, gap: string)
    requires !Contains(a, SectionHeader)
    requires gap != [] && forall i :: 0 <= i < |gap| ==> gap[i] == '\n'
    ensures !Contains(a + gap, SectionHeader)
  {
    ShortIsFree("");
    FreeAcrossNewlines(a, gap, "");
    assert a + gap + "" == a + gap;
  }
}
