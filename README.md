# Accomplishment log automation, modelled in Dafny

The obsidian-automation-scripts repository keeps a running log of finished work. Each
project's `CLAUDE.md` holds a `## Recent Accomplishments` section. One script extracts the
entries dated today from those sections and prints them grouped by project. A second script
renders the same entries for an Obsidian daily note and merges them into that note's
`## Development Work` section. A third script adds the accomplishment section, and a
guidelines block, to every `CLAUDE.md` that lacks them.

This project models the text work of the three scripts and proves what it promises. File
access, process handling and clocks are left out.

- `text.dfy` (module `Text`) holds Python's string primitives as the scripts use them:
  - `str.isspace` and `str.strip`;
  - `str.split('\n')` and `'\n'.join`;
  - substring search;
  - code-point string order and `sorted` on distinct keys.
- `calendar.dfy` (module `Calendar`) holds dates as `datetime.date` holds them:
  - what `strptime(t, '%Y-%m-%d')` accepts;
  - the zero-padded decimal formats.
- `sections.dfy` (module `Sections`) is a hand-written matcher for the regular expression
  `H\s*\n(.*?)(?=\n##|\Z)` with `re.DOTALL`, searched with `re.search`. Both
  `parse-accomplishments.py` and `update-obsidian-daily.py` use this pattern.
- `accomplishments.dfy` (module `Accomplishments`) covers the extractor and the console
  report of `parse-accomplishments.py`:
  - a line classifier for the two date-line shapes;
  - the record/detail state machine as a `method` with a loop, proved equal to a
    record-by-record description;
  - grouping by project, and the report built by appends.
- `daily_note.dfy` (module `DailyNote`) covers the string part of `update-obsidian-daily.py`:
  - the note's path;
  - the Obsidian rendering;
  - the merge into an existing note, and the template of a new note.
- `claude_md.dfy` (module `ClaudeMd`) covers the string part of `update-project-claudemd.py`:
  - the guard;
  - the insertion-point loop;
  - the splice, the guidelines append, and idempotence.

Where Python's own semantics matter, they are written out:
- `\s` and `strip()` use the 29 code points of `str.isspace`;
- `\d` is ASCII digits;
- `strptime` accepts years 1 to 9999, months 01 to 12 and days up to the length of the month;
- `split('\n')` always gives at least one piece, and `join` is its inverse.

The section regex is read as the regex engine runs it:
- the heading text may occur anywhere, not only at the start of a line;
- the body begins after the last `\n` of the whitespace run that follows the heading;
- a heading occurrence whose run holds no `\n` is passed over;
- the body ends at the first later `\n##` or at the end of the text.

The lookahead `\n##` is also satisfied by `\n###`, so the `### [[project]]` group headings of
the daily note end the `## Development Work` region. `DailyNote.RemergeKeepsLaterGroups` proves
the consequence: re-merging over a section with several groups replaces only its first group.

## Model

| member | source | states |
|---|---|---|
| Text.Strip | obsidian-automation-scripts/parse-accomplishments.py:54 | `strip()`: the result has no whitespace at either end, is the slice of the input between its leading and trailing whitespace runs, and is empty exactly when the input is all whitespace |
| Text.StripFrame | obsidian-automation-scripts/update-obsidian-daily.py:97 | stripping text framed by whitespace on both sides gives back the stripped text inside |
| Text.Split | obsidian-automation-scripts/parse-accomplishments.py:50 | `split('\n')` gives at least one piece, no piece holds the separator, and joining the pieces gives the input back |
| Text.SplitJoin | obsidian-automation-scripts/update-project-claudemd.py:87 | joining separator-free lines and splitting the result gives the same lines: split and join are inverse |
| Text.Contains | obsidian-automation-scripts/update-project-claudemd.py:49 | the `in` test holds exactly when the pattern occurs at some position |
| Text.OccurrenceInJoin | obsidian-automation-scripts/update-project-claudemd.py:81 | a separator-free pattern found in joined lines lies inside one of the lines |
| Text.SortDistinct | obsidian-automation-scripts/parse-accomplishments.py:113 | `sorted` on distinct keys: strictly increasing in code-point order and a permutation of its input |
| Calendar.DaysInMonth | obsidian-automation-scripts/parse-accomplishments.py:72 | month lengths: 31 exactly for January, March, May, July, August, October and December; 30 exactly for April, June, September and November; 29 exactly for February of a leap year; 28 otherwise (always between 28 and 31) |
| Calendar.ParseDate | obsidian-automation-scripts/parse-accomplishments.py:71-84 | `strptime(t, '%Y-%m-%d')`: a token it accepts names a valid date whose padded form is the token, every valid date with that form is accepted, and everything else is the `ValueError` path (`None`) |
| Calendar.PadDigits | obsidian-automation-scripts/update-obsidian-daily.py:17 | the `02d` format: exactly `w` digits denoting `n` |
| Calendar.PadValue | obsidian-automation-scripts/update-obsidian-daily.py:17 | every digit string is the padded form of its value, which is the inverse of `PadDigits` |
| Calendar.DateToken | obsidian-automation-scripts/update-obsidian-daily.py:139 | `strftime('%Y-%m-%d')`: a `DDDD-DD-DD` token whose three fields denote the year, the month and the day |
| Calendar.Decimal | obsidian-automation-scripts/update-obsidian-daily.py:17 | `str(year)`: a digit string denoting the number, without a leading zero unless the number is 0 |
| Sections.BodyStart | obsidian-automation-scripts/parse-accomplishments.py:45 | at one position: the heading occurs there, and the body starts right after the last `\n` of the whitespace run that follows it; with no `\n` in that run the position fails |
| Sections.BodyEnd | obsidian-automation-scripts/parse-accomplishments.py:45 | the lazy group ends at the first position at or after the body start where `\n##` begins, or at the end of the text |
| Sections.FindSection | obsidian-automation-scripts/parse-accomplishments.py:45-49 | `re.search`: the match is at the first position where the pattern matches, no earlier position matches, and `None` means no position matches |
| Sections.MatchSuffix | obsidian-automation-scripts/update-obsidian-daily.py:120-125 | the text after a match is empty or begins with `\n##` |
| Sections.BodyHasNoSubheading | obsidian-automation-scripts/parse-accomplishments.py:45-50 | the captured body never holds `\n##` |
| Sections.BodyStopsAtDeeperHeading | obsidian-automation-scripts/update-obsidian-daily.py:120-121 | a body that runs into a `\n###` line ends right before it |
| Sections.EarlierPositionsStayUnmatched | obsidian-automation-scripts/update-obsidian-daily.py:120-121 | a text that agrees with another up to the end of the first heading occurrence has no earlier match either |
| Sections.SectionAt | obsidian-automation-scripts/update-obsidian-daily.py:120-121 | a heading, a blank line and a non-blank body followed by `\n##` or the end of the text is matched with exactly that body |
| Accomplishments.Tail | obsidian-automation-scripts/parse-accomplishments.py:60-61 | `:?\s*(.+)$` after the date token, with backtracking: group 2 is a non-empty suffix of the rest, and there is none exactly after an empty rest; on a rest that ends in a non-blank, group 2 is that rest with one leading `:` dropped (unless the `:` is all there is) and then stripped |
| Accomplishments.MatchShape | obsidian-automation-scripts/parse-accomplishments.py:59-62 | one of the two date-line patterns: a match captures a `DDDD-DD-DD` token and a non-empty suffix of the line, and the first non-dash, non-space character is `*` exactly in the emphasised shape |
| Accomplishments.ShapeMatches | obsidian-automation-scripts/parse-accomplishments.py:59-62 | every line laid out as a lead `-?\s*`, the marks, a date token, the marks and a rest ending in a non-blank matches that shape, with that token and the rest after an optional `:`, stripped, as group 2 |
| Accomplishments.MatchShapeSound | obsidian-automation-scripts/parse-accomplishments.py:59-62 | every match is of that layout: the text before the token is a dash-and-whitespace lead, the marks stand around the token, and group 2 is the tail of what follows |
| Accomplishments.MatchDateLine | obsidian-automation-scripts/parse-accomplishments.py:64-69 | the pattern loop: the result is one of the two shapes' matches, and there is no match only when neither shape matches |
| Accomplishments.ShapesExclusive | obsidian-automation-scripts/parse-accomplishments.py:59-62 | no line matches both date shapes, so the order in which they are tried never changes a result |
| Accomplishments.ShapesAgree | obsidian-automation-scripts/parse-accomplishments.py:59-69 | `- YYYY-MM-DD: x` and `- **YYYY-MM-DD**: x` classify identically, with content `x` |
| Accomplishments.DateLineMatches | obsidian-automation-scripts/parse-accomplishments.py:64-69 | the pattern loop returns, for any line of either layout, its token and its stripped rest after an optional `:` |
| Accomplishments.DetailOf | obsidian-automation-scripts/parse-accomplishments.py:90-94 | `line[1:].strip()` for a dash line, when non-empty: a non-empty stripped detail |
| Accomplishments.Classify | obsidian-automation-scripts/parse-accomplishments.py:53-69 | a raw line is skipped exactly when its stripped form is empty or starts with `*`; a dated line carries its date match; any other carries its stripped form and detail |
| Accomplishments.ExtendLast | obsidian-automation-scripts/parse-accomplishments.py:94 | appending to the aliased `current_entry['details']`: only the last record changes, and only by the appended details |
| Accomplishments.Step | obsidian-automation-scripts/parse-accomplishments.py:53-94 | one iteration of the loop keeps the state consistent: when a record is open it is the last one emitted |
| Accomplishments.Run | obsidian-automation-scripts/parse-accomplishments.py:53-94 | the loop over all lines keeps the state consistent; `RunIsExpected` gives its records |
| Accomplishments.StarLineSkipped | obsidian-automation-scripts/parse-accomplishments.py:54-56 | a line starting with `*` after stripping leaves the state unchanged, whatever follows the `*` |
| Accomplishments.OtherDateCloses | obsidian-automation-scripts/parse-accomplishments.py:81-82 | a valid date other than the target closes the open record and emits nothing |
| Accomplishments.InvalidDateIgnored | obsidian-automation-scripts/parse-accomplishments.py:83-87 | a date-shaped token that is not a calendar date changes nothing: the open record stays open and unchanged |
| Accomplishments.UndatedLine | obsidian-automation-scripts/parse-accomplishments.py:89-94 | a non-date dash line with a non-empty detail extends the open record; every other non-date line leaves the state as it is |
| Accomplishments.Expected | obsidian-automation-scripts/parse-accomplishments.py:73-80 | the record-by-record description: every record it lists has the given project, a date that reads back as the target, and trimmed content and details |
| Accomplishments.RunIsExpected | obsidian-automation-scripts/parse-accomplishments.py:52-94 | from any state, the state machine's records are the open record closed with the details up to the next dated line, followed by one record per target-date line with its details |
| Accomplishments.ParseAccomplishments | obsidian-automation-scripts/parse-accomplishments.py:44-94 | no section means no records; otherwise the records are the description applied to the section's lines, in file order with duplicates kept, each well-formed |
| Accomplishments.RecordDateIsTarget | obsidian-automation-scripts/parse-accomplishments.py:72-76 | every emitted record's date is the zero-padded form of the target date |
| Accomplishments.OfProject | obsidian-automation-scripts/parse-accomplishments.py:109-111 | a group holds only its project's records, all taken from the input |
| Accomplishments.FirstSeen | obsidian-automation-scripts/update-obsidian-daily.py:82-87 | the dict's keys in insertion order: distinct, and exactly the projects that have records |
| Accomplishments.Projects | obsidian-automation-scripts/parse-accomplishments.py:113 | `sorted(by_project.items())`: keys strictly increasing, and exactly the projects that have records |
| Accomplishments.GroupByProject | obsidian-automation-scripts/parse-accomplishments.py:108-111 | the grouping loop: the keys in first-seen order, and each key's list is that project's records in input order |
| Accomplishments.GroupsPartition | obsidian-automation-scripts/parse-accomplishments.py:109-118 | concatenating the groups of distinct projects covering all records gives a permutation of the records |
| Accomplishments.EveryRecordRendered | obsidian-automation-scripts/parse-accomplishments.py:113-118 | the groups in sorted order hold every input record exactly once |
| Accomplishments.RenderedEntries | obsidian-automation-scripts/parse-accomplishments.py:113-118 | the entry lines of the rendered report are the summary and detail lines of the records grouped by project in sorted order, and those grouped records are the input records, each exactly once |
| Accomplishments.DetailLines | obsidian-automation-scripts/parse-accomplishments.py:117-118 | one `  - detail` line per detail, in order |
| Accomplishments.GroupHeadings | obsidian-automation-scripts/parse-accomplishments.py:114-118 | a group's lines hold exactly one heading line, its own |
| Accomplishments.GroupsHeadings | obsidian-automation-scripts/parse-accomplishments.py:113-118 | the heading lines of the rendered groups are the projects' headings in the given order |
| Accomplishments.RenderedHeadings | obsidian-automation-scripts/parse-accomplishments.py:113-114 | each project appears once as a heading, the headings are in strictly sorted project order, and the projects are exactly those of the records |
| Accomplishments.AppendRecord | obsidian-automation-scripts/parse-accomplishments.py:116-118 | the append loop adds the `- content` line and then the detail lines |
| Accomplishments.AppendGroup | obsidian-automation-scripts/parse-accomplishments.py:114-118 | the output gains the heading, the group's record lines and the style's trailer |
| Accomplishments.AppendGroups | obsidian-automation-scripts/parse-accomplishments.py:113-118 | the loop over the sorted groups produces the lines of all groups in that order |
| Accomplishments.FormatAccomplishments | obsidian-automation-scripts/parse-accomplishments.py:101-120 | empty input gives `No accomplishments found for today.`; otherwise the `\n`-join of the `\n## project` groups in sorted order |
| DailyNote.JoinPath | obsidian-automation-scripts/update-obsidian-daily.py:47-48 | `vault_path / name`: the path's `/`-components are the vault's followed by the name's |
| DailyNote.NoteName | obsidian-automation-scripts/update-obsidian-daily.py:32-48 | the note's name inside the vault starts with `Daily Notes/` and ends with the file name, which ends in `.md` |
| DailyNote.NotePath | obsidian-automation-scripts/update-obsidian-daily.py:32-48 | `get_daily_note_path`: the path ends with the note's name, and under a vault root its `/`-components are the vault's followed by `Daily Notes`, the year, the month folder and the file |
| DailyNote.MonthNameIsPlain | obsidian-automation-scripts/update-obsidian-daily.py:37-43 | a month name from the twelve-entry table is non-empty and holds no `/` |
| DailyNote.NoteNameParts | obsidian-automation-scripts/update-obsidian-daily.py:17 | the note name has the four components `Daily Notes`, the year, `MM-MonthName` and the file |
| DailyNote.NoteNameReadsBack | obsidian-automation-scripts/update-obsidian-daily.py:37-48 | the year folder reads back as the year; the month folder is the month in two digits, then `-`, then its English name; the file ends in `.md`, and from year 1000 on its first ten characters parse back to the date |
| DailyNote.FormatForObsidian | obsidian-automation-scripts/update-obsidian-daily.py:74-97 | empty input gives `No development accomplishments logged today.`; otherwise the stripped `\n`-join of the `### [[project]]` groups in sorted order |
| DailyNote.ObsidianLayout | obsidian-automation-scripts/update-obsidian-daily.py:89-97 | every group closes with a blank line and `strip()` removes only the last one: the result starts with the first project's heading and is the join without the final blank line |
| DailyNote.StripDropsFinalBlank | obsidian-automation-scripts/update-obsidian-daily.py:97 | `strip()` of lines that end in a blank line is their join without it, when the text starts and ends with non-blanks |
| DailyNote.UpdateDailyNote | obsidian-automation-scripts/update-obsidian-daily.py:104-162 | the path of the note for the date, and the text written: the merge into the existing note, or the template for a new one |
| DailyNote.ReplaceKeepsSurroundings | obsidian-automation-scripts/update-obsidian-daily.py:119-125 | on a match, the text before the match and the text after it are kept byte for byte, the section stands between them, and what follows is empty or starts with `\n##` |
| DailyNote.MergeNote | obsidian-automation-scripts/update-obsidian-daily.py:119-130 | on a match, the result starts with the text before the match and ends with the text after it; with no match, it starts with the old text and ends with the section |
| DailyNote.AppendKeepsContent | obsidian-automation-scripts/update-obsidian-daily.py:126-130 | with no match, the old text is a prefix of the result, the section ends it, and one blank line separates them |
| DailyNote.RemergeReplaces | obsidian-automation-scripts/update-obsidian-daily.py:119-125 | re-merging over a section whose body holds no `\n##` is the same as merging the new section alone |
| DailyNote.RemergeKeepsLaterGroups | obsidian-automation-scripts/update-obsidian-daily.py:89-125 | re-merging over a section whose body has a later `\n###` group replaces only the first group, and the later groups stay after the new section |
| DailyNote.NewNoteShape | obsidian-automation-scripts/update-obsidian-daily.py:137-162 | a new note opens with `# `, a date token that parses back to the day, ` - ` and the weekday; the review block ends with the priorities heading and two blank lines; then come the section and the closing notes headings |
| DailyNote.NewNote | obsidian-automation-scripts/update-obsidian-daily.py:142-162 | the template: the head (title and review block), then exactly the section, then the closing notes block |
| DailyNote.HeadIsFree | obsidian-automation-scripts/update-obsidian-daily.py:142-154 | the template text before the section never holds `## Development Work`, when the weekday holds no `#` |
| DailyNote.NewNoteRemerge | obsidian-automation-scripts/update-obsidian-daily.py:119-162 | a fresh note merged again has its section found and replaced, but loses one blank line before `## Meeting Notes` |
| ClaudeMd.AccomplishmentSection | obsidian-automation-scripts/update-project-claudemd.py:11-16 | the inserted section starts with `## Recent Accomplishments` |
| ClaudeMd.GuidelinesSectionHeading | obsidian-automation-scripts/update-project-claudemd.py:18-26 | the guidelines block starts with `## Accomplishment Logging Guidelines` |
| ClaudeMd.HasAccomplishmentSection | obsidian-automation-scripts/update-project-claudemd.py:47-49 | true exactly when `## Recent Accomplishments` occurs anywhere in the text |
| ClaudeMd.InsertFrom | obsidian-automation-scripts/update-project-claudemd.py:66-71 | the first insertion point at or after a line, or the line count when there is none |
| ClaudeMd.InsertIndex | obsidian-automation-scripts/update-project-claudemd.py:62-71 | the first line with index above 3 that starts with `## `, or the line count; lines 0 to 3 are never chosen |
| ClaudeMd.FindInsertIndex | obsidian-automation-scripts/update-project-claudemd.py:62-71 | the `for`/`break`/`else` loop computes that index |
| ClaudeMd.UpdatedClaudeMd | obsidian-automation-scripts/update-project-claudemd.py:57-87 | nothing is written exactly when `## Recent Accomplishments` occurs in the text |
| ClaudeMd.UpdateClaudeMd | obsidian-automation-scripts/update-project-claudemd.py:57-87 | the guard, the index loop and the appends compute the spliced text |
| ClaudeMd.SpliceBuilt | obsidian-automation-scripts/update-project-claudemd.py:75-83 | the `append`/`extend` sequence builds `lines[:i] + ['', section] + lines[i:]` plus the tail |
| ClaudeMd.SpliceShape | obsidian-automation-scripts/update-project-claudemd.py:75-78 | the splice has the empty line and the section at the index, the old lines around them in order, and the tail at the end |
| ClaudeMd.Splice | obsidian-automation-scripts/update-project-claudemd.py:75-78 | `lines[:i] + ['', section] + lines[i:]` plus the tail: two lines longer than the old lines and the tail together, with the empty line and the section at the index |
| ClaudeMd.SpliceKeepsLine | obsidian-automation-scripts/update-project-claudemd.py:75-78 | every old line stands somewhere in the spliced list |
| ClaudeMd.OriginalLinesKept | obsidian-automation-scripts/update-project-claudemd.py:73-87 | dropping the two inserted lines gives back the old lines, whose join is the old text; the guidelines close the list exactly when they were missing |
| ClaudeMd.UpdateIsIdempotent | obsidian-automation-scripts/update-project-claudemd.py:57-77 | the updated text holds the guard heading, so a second run on any day writes nothing |
| ClaudeMd.GuidelinesPresentAfter | obsidian-automation-scripts/update-project-claudemd.py:80-83 | after an update the guidelines heading is in the text, either kept from the old text or appended |
| ClaudeMd.NoSecondGuidelines | obsidian-automation-scripts/update-project-claudemd.py:80-83 | when the guidelines heading was already present nothing is appended: the list grows by exactly the two inserted lines |

## Left out

- File reads and writes, `mkdir`, and the printed messages. The model takes a file's text as a string and returns the text to write, or `None` for no write.
- The per-file `except Exception` paths. They only catch I/O failures, which the model has none of.
- `find_claude_md_files` in both scripts, which walks the file system with `os.walk`.
- Three pieces of process handoff and serialisation: `run_accomplishment_parser` (a subprocess and a temporary JSON file), `save_to_json` and `parse_accomplishments_from_json`.
- `get_config`, the `OBSIDIAN_VAULT_PATH` environment variable and the `argparse` `main` functions. The vault root is a parameter.
- `date.today()`, `datetime.now()` and `strftime('%A')`. The target date, the day's `YYYY-MM-DD` text and the weekday name are inputs.
- `file_path.parent.name`. The project name is a parameter.
- All of `setup-machine.py`, which is platform probing, interactive input and file copying.
- Unicode digits for `\d`: only ASCII digits are modelled.
- `Calendar.DateToken`: for the note title, `strftime('%Y')` is modelled as four zero-padded digits. Years below 1000 are not treated specially.
- `DailyNote.JoinPath`: models `Path` joining for a vault path already in normal form. `pathlib`'s clean-up of repeated or trailing `/` is not modelled.
- `DailyNote.NoteNameReadsBack`: the file-name round trip is stated only from year 1000 on. Below that, `str(year)` has fewer than four digits, so the name is not a `YYYY-MM-DD` token.
- `Accomplishments.ParseAccomplishments`: `current_entry` is an alias of the last record. The model works on values, and a detail append replaces the last record. The record being open is always the last one, so this is the same result.
- `ClaudeMd.AccomplishmentSection`: the contract states only the heading the guard looks for. The rest of the text is the fixed template.
