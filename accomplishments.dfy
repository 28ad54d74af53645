/**
 The accomplishment extractor and its console report (`parse-accomplishments.py`).

 The extractor finds the `## Recent Accomplishments` section of one project log, splits it
 into lines and runs a small state machine over them. The state is the list of records
 emitted so far and whether a record is open; an open record is always the last one emitted,
 since the script keeps `current_entry` as an alias of the last appended dict. For each
 stripped line:
 - an empty line, or one starting with `*`, is skipped;
 - a line with one of the two date shapes and a real calendar date opens a new record when
   the date is the target date, and otherwise closes the open record;
 - a date-shaped line whose date is not a real calendar date changes nothing;
 - any other line starting with `-` adds a detail to the open record.
 */
module Accomplishments {
  import opened Text
  import opened Calendar
  import opened Sections

  const RecentHeading: string := "## Recent Accomplishments"
  const NoneFound: string := "No accomplishments found for today."

  /** One extracted entry: the owning project (the log's directory name), the date token as
      written, the trimmed summary and the detail lines in file order. */
  datatype Record = Record(project: string, date: string, content: string, details: seq<string>)

  // ---------------------------------------------------------------------------------------
  // The two date-line shapes

  /** What one of the two date-line patterns captures: the date token and group 2. */
  datatype DateMatch = DateMatch(token: string, rest: string)

  /** `:?\s*(.+)$` matched against the text after the date token, with the regex engine's
      backtracking: group 2, or `None` when nothing can follow. Lines come from splitting at
      `\n`, so `.` matches every character here. */
  function Tail(t: string): (r: Option<string>)
    ensures r.Some? ==> r.value != [] && EndsWith(t, r.value)
    ensures r.None? <==> t == []
    ensures t != [] && !IsSpace(t[|t| - 1]) ==> r.Some? && IsStripped(r.value)
    ensures t != [] && !IsSpace(t[|t| - 1]) ==>
              r == Some(Strip(if |t| > 1 && t[0] == ':' then t[1..] else t))
  {
    var c := if t != [] && t[0] == ':' then 1 else 0;
    var w := SpaceRunEnd(t, c);
    if w < |t| then
      StripAfterRun(t, c, w);
      Some(t[w..])
    else if w > c then Some(t[w - 1..])
    else if c == 1 then
      StripStripped(t);
      Some(t)
    else None
  }

  /** Past the whitespace run that starts at `c`, a text ending in a non-blank is its own
      `strip()` from `c` on. */
  lemma StripAfterRun(t: string, c: nat, w: nat)
    requires c <= w < |t| && w == SpaceRunEnd(t, c)
    ensures !IsSpace(t[|t| - 1]) ==> Strip(t[c..]) == t[w..]
  {
    if !IsSpace(t[|t| - 1]) {
      assert t[c..] == t[c..w] + t[w..] + [];
      StripFrame(t[c..w], t[w..], []);
    }
  }

  /** Position after the optional leading `-` and the whitespace run after it: `^-?\s*`. */
  function Lead(line: string): (i: nat)
    ensures i <= |line|
  {
    SpaceRunEnd(line, if StartsWith(line, "-") then 1 else 0)
  }

  /** The plain shape `^-?\s*(\d{4}-\d{2}-\d{2}):?\s*(.+)$` (when `emphasised` is false) or the
      emphasised shape `^-?\s*\*\*(\d{4}-\d{2}-\d{2})\*\*:?\s*(.+)$` (when it is true). Group 2
      is always a non-empty end of the line, and on a line that does not end in whitespace it
      needs no trimming. */
  function MatchShape(line: string, emphasised: bool): (r: Option<DateMatch>)
    ensures r.Some? ==> IsDateShape(r.value.token) && r.value.rest != [] && EndsWith(line, r.value.rest)
    ensures r.Some? && !IsSpace(line[|line| - 1]) ==> IsStripped(r.value.rest)
    ensures r.Some? ==> Lead(line) < |line| && (line[Lead(line)] == '*' <==> emphasised)
  {
    var i := Lead(line);
    var j := if emphasised then i + 2 else i;
    if emphasised && !OccursAt(line, "**", i) then None
    else if !(j + 10 <= |line| && IsDateShape(line[j..j + 10])) then None
    else if emphasised && !OccursAt(line, "**", j + 10) then None
    else
      var k := if emphasised then j + 12 else j + 10;
      match Tail(line[k..])
      case None => None
      case Some(g) =>
        TailOfLine(line, k, g);
        LeadCharacter(line, i, emphasised);
        Some(DateMatch(line[j..j + 10], g))
  }

  lemma TailOfLine(line: string, k: nat, g: string)
    requires k <= |line| && Tail(line[k..]) == Some(g)
    ensures g != [] && EndsWith(line, g)
    ensures !IsSpace(line[|line| - 1]) ==> IsStripped(g)
  {
    var t := line[k..];
    SuffixOfTail(line, k, g);
    LastOfTail(line, k);
    assert t != [];
  }

  lemma SuffixOfTail(line: string, k: nat, g: string)
    requires k <= |line| && EndsWith(line[k..], g)
    ensures EndsWith(line, g)
  {
    var t := line[k..];
    assert line[|line| - |g|..] == t[|t| - |g|..];
  }

  lemma LastOfTail(line: string, k: nat)
    requires k < |line|
    ensures line[k..][|line| - k - 1] == line[|line| - 1]
  {
  }

  lemma LeadCharacter(line: string, i: nat, emphasised: bool)
    requires emphasised ==> OccursAt(line, "**", i)
    requires !emphasised ==> i + 10 <= |line| && IsDateShape(line[i..i + 10])
    ensures i < |line| && (line[i] == '*' <==> emphasised)
  {
    if emphasised {
      assert line[i] == line[i..i + 2][0];
    } else {
      var t := line[i..i + 10];
      assert t[0] == t[0..4][0];
      assert line[i] == t[0];
    }
  }

  /** What `^-?\s*` can consume: an optional `-` and then whitespace. */
  predicate IsLeadText(lead: string) {
    AllSpace(lead) || (lead != [] && lead[0] == '-' && AllSpace(lead[1..]))
  }

  /** The `**` around an emphasised date, nothing around a plain one. */
  function Emphasis(emphasised: bool): string {
    if emphasised then "**" else ""
  }

  /** Every line of one of the two shapes matches it: a lead `-?\s*`, the date token with or
      without `**` around it, and any rest that ends in a non-blank give that token and, as
      group 2, the rest after an optional `:` with its leading whitespace removed. */
  lemma ShapeMatches(lead: string, token: string, t: string, emphasised: bool)
    requires IsLeadText(lead) && IsDateShape(token) && t != [] && !IsSpace(t[|t| - 1])
    ensures var m := Emphasis(emphasised);
      MatchShape(lead + m + token + m + t, emphasised)
        == Some(DateMatch(token, Strip(if |t| > 1 && t[0] == ':' then t[1..] else t)))
  {
    var m := Emphasis(emphasised);
    var line := lead + m + token + m + t;
    var n := |lead|;
    var j := n + |m|;
    var k := j + 10 + |m|;
    ShapeSlices(lead, m, token, t, line);
    FirstIsDigit(token);
    assert !IsSpace(line[n]) && line[n] != '-' by {
      if emphasised {
        assert line[n] == line[n..n + 2][0];
      } else {
        assert line[n] == token[0];
      }
    }
    LeadOfLine(lead, line);
    MatchAt(line, emphasised, n, m, token, t);
  }

  /** Once the lead is known to end at `n`, the match reads the marks, the token and the tail
      from their places. */
  lemma MatchAt(line: string, emphasised: bool, n: nat, m: string, token: string, t: string)
    requires n == Lead(line) && m == Emphasis(emphasised) && IsDateShape(token) && t != []
    requires n + 2 * |m| + 10 <= |line|
    requires line[n..n + |m|] == m && line[n + |m|..n + |m| + 10] == token
    requires line[n + |m| + 10..n + |m| + 10 + |m|] == m && line[n + 2 * |m| + 10..] == t
    ensures MatchShape(line, emphasised) == Some(DateMatch(token, Tail(t).value))
  {
    if emphasised {
      assert OccursAt(line, "**", n) && OccursAt(line, "**", n + 12);
    }
  }

  /** And every match is of that layout: the text before the token is what `^-?\s*` consumed,
      the marks stand around the token, and group 2 is what `Tail` gives for the rest. */
  lemma MatchShapeSound(line: string, emphasised: bool)
    requires MatchShape(line, emphasised).Some?
    ensures var r := MatchShape(line, emphasised).value;
      var m := Emphasis(emphasised);
      var n := Lead(line);
      var k := n + 2 * |m| + 10;
      && k <= |line| && IsLeadText(line[..n])
      && line == line[..n] + m + r.token + m + line[k..]
      && Tail(line[k..]) == Some(r.rest)
  {
    var r := MatchShape(line, emphasised).value;
    var m := Emphasis(emphasised);
    var n := Lead(line);
    LeadIsLeadText(line);
    MatchShapeParts(line, emphasised, n, m, r);
    Reassemble(line, n, m, r.token);
  }

  lemma MatchShapeParts(line: string, emphasised: bool, n: nat, m: string, r: DateMatch)
    requires MatchShape(line, emphasised) == Some(r) && n == Lead(line) && m == Emphasis(emphasised)
    ensures n + 2 * |m| + 10 <= |line|
    ensures line[n..n + |m|] == m && line[n + |m|..n + |m| + 10] == r.token
    ensures line[n + |m| + 10..n + 2 * |m| + 10] == m
    ensures Tail(line[n + 2 * |m| + 10..]) == Some(r.rest)
  {
    if emphasised {
      EmphasisedParts(line, n, m, r);
    } else {
      PlainParts(line, n, m, r);
    }
  }

  lemma EmphasisedParts(line: string, n: nat, m: string, r: DateMatch)
    requires MatchShape(line, true) == Some(r) && n == Lead(line) && m == "**"
    ensures n + 2 * |m| + 10 <= |line|
    ensures line[n..n + |m|] == m && line[n + |m|..n + |m| + 10] == r.token
    ensures line[n + |m| + 10..n + 2 * |m| + 10] == m
    ensures Tail(line[n + 2 * |m| + 10..]) == Some(r.rest)
  {
    assert OccursAt(line, "**", n) && OccursAt(line, "**", n + 12);
  }

  lemma PlainParts(line: string, n: nat, m: string, r: DateMatch)
    requires MatchShape(line, false) == Some(r) && n == Lead(line) && m == ""
    ensures n + 2 * |m| + 10 <= |line|
    ensures line[n..n + |m|] == m && line[n + |m|..n + |m| + 10] == r.token
    ensures line[n + |m| + 10..n + 2 * |m| + 10] == m
    ensures Tail(line[n + 2 * |m| + 10..]) == Some(r.rest)
  {
  }

  lemma Reassemble(line: string, n: nat, m: string, token: string)
    requires n + 2 * |m| + 10 <= |line|
    requires line[n..n + |m|] == m && line[n + |m|..n + |m| + 10] == token
    requires line[n + |m| + 10..n + 2 * |m| + 10] == m
    ensures line == line[..n] + m + token + m + line[n + 2 * |m| + 10..]
  {
    var k := n + 2 * |m| + 10;
    var u := line[..n] + m + token + m + line[k..];
    assert |u| == |line|;
    forall i | 0 <= i < |line| ensures u[i] == line[i] {
      if i < n {
      } else if i < n + |m| {
        assert m[i - n] == line[n..n + |m|][i - n];
      } else if i < n + |m| + 10 {
        assert token[i - n - |m|] == line[n + |m|..n + |m| + 10][i - n - |m|];
      } else if i < k {
        assert m[i - n - |m| - 10] == line[n + |m| + 10..k][i - n - |m| - 10];
      }
    }
  }

  lemma LeadIsLeadText(line: string)
    ensures IsLeadText(line[..Lead(line)])
  {
    var n := Lead(line);
    var lead := line[..n];
    if StartsWith(line, "-") {
      assert lead[0] == line[..1][0] == '-';
      forall i | 0 <= i < |lead[1..]| ensures IsSpace(lead[1..][i]) {
        assert lead[1..][i] == line[i + 1];
      }
    } else {
      forall i | 0 <= i < |lead| ensures IsSpace(lead[i]) {
        assert lead[i] == line[i];
      }
    }
  }

  lemma ShapeSlices(lead: string, m: string, token: string, t: string, line: string)
    requires |token| == 10 && line == lead + m + token + m + t
    ensures var n := |lead|;
      && line[..n] == lead && line[n..n + |m|] == m && line[n + |m|..n + |m| + 10] == token
      && line[n + |m| + 10..n + |m| + 10 + |m|] == m && line[n + 2 * |m| + 10..] == t
  {
    var n := |lead|;
    assert line == lead + (m + token + m + t);
    var u := m + token + m + t;
    assert line[n..] == u;
    assert u[..|m|] == m && u[|m|..|m| + 10] == token && u[|m| + 10..|m| + 10 + |m|] == m;
    assert u[2 * |m| + 10..] == t;
  }

  /** `^-?\s*` stops at the end of a lead text followed by a non-blank that is not `-`. */
  lemma LeadOfLine(lead: string, line: string)
    requires IsLeadText(lead) && |lead| < |line| && line[..|lead|] == lead
    requires !IsSpace(line[|lead|]) && line[|lead|] != '-'
    ensures Lead(line) == |lead|
  {
    var n := |lead|;
    var c := if StartsWith(line, "-") then 1 else 0;
    assert forall i :: 0 <= i < n ==> line[i] == lead[i];
    if lead != [] && lead[0] == '-' {
      assert line[..1] == "-";
      forall i | 1 <= i < n ensures IsSpace(line[i]) {
        assert lead[1..][i - 1] == lead[i];
      }
    } else {
      assert !StartsWith(line, "-") by {
        if n == 0 {
          assert line[0] != '-';
        } else {
          assert IsSpace(line[0]);
        }
      }
    }
    RunEndAt(line, c, n);
  }

  lemma RunEndAt(s: string, j: nat, e: nat)
    requires j <= e < |s| && (forall i :: j <= i < e ==> IsSpace(s[i])) && !IsSpace(s[e])
    ensures SpaceRunEnd(s, j) == e
  {
  }

  /** So the pattern loop finds it too: a line of the emphasised shape never matches the plain
      one, whose token would have to start at the `*`. */
  lemma DateLineMatches(lead: string, token: string, t: string, emphasised: bool)
    requires IsLeadText(lead) && IsDateShape(token) && t != [] && !IsSpace(t[|t| - 1])
    ensures var m := Emphasis(emphasised);
      MatchDateLine(lead + m + token + m + t)
        == Some(DateMatch(token, Strip(if |t| > 1 && t[0] == ':' then t[1..] else t)))
  {
    var m := Emphasis(emphasised);
    ShapeMatches(lead, token, t, emphasised);
    ShapesExclusive(lead + m + token + m + t);
  }

  /** The patterns tried in order; the first that matches wins. */
  function MatchDateLine(line: string): (r: Option<DateMatch>)
    ensures r.Some? ==> r == MatchShape(line, false) || r == MatchShape(line, true)
    ensures r.None? ==> MatchShape(line, false).None? && MatchShape(line, true).None?
  {
    match MatchShape(line, false)
    case Some(m) => Some(m)
    case None => MatchShape(line, true)
  }

  /** The detail a non-date line contributes: `line[1:].strip()` of a line starting with `-`,
      when that is not empty. */
  function DetailOf(line: string): (d: Option<string>)
    ensures d.Some? ==> d.value != [] && IsStripped(d.value)
  {
    if StartsWith(line, "-") && Strip(line[1..]) != [] then Some(Strip(line[1..])) else None
  }

  /** A line as the loop sees it after stripping: skipped, carrying a date token (with the date
      `strptime` reads from it, if any, and the trimmed summary), or neither (with the detail
      it would give an open record). */
  datatype LineKind =
    | Skipped
    | Dated(token: string, date: Option<Date>, content: string)
    | Undated(line: string, detail: Option<string>)

  /** The facts a classified line carries. */
  predicate Honest(k: LineKind) {
    match k
    case Skipped => true
    case Dated(token, date, content) => date == ParseDate(token) && content != [] && IsStripped(content)
    case Undated(_, detail) => detail.Some? ==> detail.value != [] && IsStripped(detail.value)
  }

  function Classify(raw: string): (k: LineKind)
    ensures Honest(k)
    ensures k.Skipped? <==> Strip(raw) == [] || Strip(raw)[0] == '*'
    ensures k.Dated? ==> MatchDateLine(Strip(raw)) == Some(DateMatch(k.token, k.content))
    ensures k.Undated? ==> k.line == Strip(raw) && MatchDateLine(k.line).None? && k.detail == DetailOf(k.line)
  {
    var line := Strip(raw);
    if line == [] || line[0] == '*' then Skipped
    else
      match MatchDateLine(line)
      case Some(m) =>
        StripStripped(m.rest);
        Dated(m.token, ParseDate(m.token), Strip(m.rest))
      case None => Undated(line, DetailOf(line))
  }

  predicate AllHonest(ks: seq<LineKind>) {
    forall i :: 0 <= i < |ks| ==> Honest(ks[i])
  }

  function ClassifyAll(lines: seq<string>): (ks: seq<LineKind>)
    ensures |ks| == |lines| && AllHonest(ks)
    ensures forall i :: 0 <= i < |lines| ==> ks[i] == Classify(lines[i])
  {
    seq(|lines|, i requires 0 <= i < |lines| => Classify(lines[i]))
  }

  // ---------------------------------------------------------------------------------------
  // The state machine

  /** The records emitted so far and whether `current_entry` is set; when it is, it is the
      last record of the list. */
  datatype State = State(records: seq<Record>, open: bool)

  predicate Consistent(st: State) {
    st.open ==> |st.records| > 0
  }

  const Initial: State := State([], false)

  /** The open record with `ds` appended to its details. */
  function ExtendLast(rs: seq<Record>, ds: seq<string>): (r: seq<Record>)
    requires |rs| > 0
    ensures |r| == |rs| && r[..|rs| - 1] == rs[..|rs| - 1]
    ensures r[|rs| - 1] == rs[|rs| - 1].(details := rs[|rs| - 1].details + ds)
  {
    var last := rs[|rs| - 1];
    rs[..|rs| - 1] + [last.(details := last.details + ds)]
  }

  /** One iteration of the loop over the section's lines. */
  function Step(project: string, target: Date, st: State, k: LineKind): (st': State)
    requires Consistent(st)
    ensures Consistent(st')
  {
    match k
    case Skipped => st
    case Dated(token, None, _) => st
    case Dated(token, Some(d), content) =>
      if d == target then State(st.records + [Record(project, token, content, [])], true)
      else State(st.records, false)
    case Undated(_, None) => st
    case Undated(_, Some(detail)) =>
      if st.open then State(ExtendLast(st.records, [detail]), true) else st
  }

  /** The loop run over the classified lines `ks` from state `st`. */
  function Run(project: string, target: Date, st: State, ks: seq<LineKind>): (st': State)
    requires Consistent(st)
    ensures Consistent(st')
    decreases |ks|
  {
    if ks == [] then st else Run(project, target, Step(project, target, st, ks[0]), ks[1..])
  }

  // ---------------------------------------------------------------------------------------
  // The same result described record by record

  /** A record as the extractor promises it: the given project, a date token naming the target
      date, and a non-empty trimmed summary and details. */
  predicate WellFormed(r: Record, project: string, target: Date) {
    r.project == project && ParseDate(r.date) == Some(target) && Trimmed(r)
  }

  /** Summary and details are non-empty and carry no surrounding whitespace. */
  predicate Trimmed(r: Record) {
    && r.content != [] && IsStripped(r.content)
    && forall k :: 0 <= k < |r.details| ==> r.details[k] != [] && IsStripped(r.details[k])
  }

  /** The details collected by a record opened just before `ks`: the detail lines up to the
      next line that carries a real calendar date. */
  function DetailsUntilDate(ks: seq<LineKind>): (ds: seq<string>)
    ensures AllHonest(ks) ==> forall k :: 0 <= k < |ds| ==> ds[k] != [] && IsStripped(ds[k])
  {
    if ks == [] then []
    else
      match ks[0]
      case Dated(_, Some(_), _) => []
      case Undated(_, Some(detail)) => [detail] + DetailsUntilDate(ks[1..])
      case _ => DetailsUntilDate(ks[1..])
  }

  /** The records of a section: one for each line carrying the target date, in file order and
      with duplicates kept, each with the details that follow it. */
  function Expected(project: string, target: Date, ks: seq<LineKind>): (rs: seq<Record>)
    ensures AllHonest(ks) ==> forall k :: 0 <= k < |rs| ==> WellFormed(rs[k], project, target)
  {
    if ks == [] then []
    else
      var rest := Expected(project, target, ks[1..]);
      match ks[0]
      case Dated(token, Some(d), content) =>
        if d == target then [Record(project, token, content, DetailsUntilDate(ks[1..]))] + rest
        else rest
      case _ => rest
  }

  /** Closes the open record of `st` with the details `ds`. */
  function Settled(st: State, ds: seq<string>): seq<Record>
    requires Consistent(st)
  {
    if st.open then ExtendLast(st.records, ds) else st.records
  }

  /** The state machine computes the record-by-record description: from any state, the open
      record receives the details up to the next dated line and every target-date line adds
      one record. */
  lemma {:induction false} RunIsExpected(project: string, target: Date, st: State, ks: seq<LineKind>)
    requires Consistent(st)
    ensures Run(project, target, st, ks).records
         == Settled(st, DetailsUntilDate(ks)) + Expected(project, target, ks)
    decreases |ks|
  {
    if ks == [] {
      if st.open {
        ExtendNothing(st.records);
      }
    } else {
      RunIsExpected(project, target, Step(project, target, st, ks[0]), ks[1..]);
      StepSettles(project, target, st, ks[0], ks[1..], ks);
    }
  }

  /** One step trades the first line for its effect on the state. */
  lemma StepSettles(project: string, target: Date, st: State, k: LineKind, rest: seq<LineKind>, ks: seq<LineKind>)
    requires Consistent(st) && ks == [k] + rest
    ensures Settled(st, DetailsUntilDate(ks)) + Expected(project, target, ks)
         == Settled(Step(project, target, st, k), DetailsUntilDate(rest)) + Expected(project, target, rest)
  {
    assert ks[0] == k && ks[1..] == rest;
    match k
    case Dated(token, Some(d), content) =>
      if st.open {
        ExtendNothing(st.records);
      }
      if d == target {
        OpenSettles(project, target, st, token, content, rest, ks);
      }
    case Undated(_, Some(detail)) =>
      if st.open {
        ExtendTwice(st.records, detail, DetailsUntilDate(rest));
      }
    case _ =>
  }

  lemma OpenSettles(project: string, target: Date, st: State, token: string, content: string,
                    rest: seq<LineKind>, ks: seq<LineKind>)
    requires Consistent(st) && ks == [Dated(token, Some(target), content)] + rest
    ensures Settled(st, []) + Expected(project, target, ks)
         == Settled(State(st.records + [Record(project, token, content, [])], true), DetailsUntilDate(rest))
            + Expected(project, target, rest)
  {
    assert ks[0] == Dated(token, Some(target), content) && ks[1..] == rest;
    if st.open {
      ExtendNothing(st.records);
    }
    ExtendOpened(st.records, Record(project, token, content, []), DetailsUntilDate(rest));
  }

  lemma ExtendNothing(rs: seq<Record>)
    requires rs != []
    ensures ExtendLast(rs, []) == rs
  {
    var last := rs[|rs| - 1];
    assert last.details + [] == last.details;
    assert rs == rs[..|rs| - 1] + [last];
  }

  lemma ExtendOpened(rs: seq<Record>, r: Record, ds: seq<string>)
    requires r.details == []
    ensures ExtendLast(rs + [r], ds) == rs + [r.(details := ds)]
  {
    assert (rs + [r])[..|rs|] == rs;
    assert r.details + ds == ds;
  }

  lemma ExtendTwice(rs: seq<Record>, detail: string, ds: seq<string>)
    requires rs != []
    ensures ExtendLast(ExtendLast(rs, [detail]), ds) == ExtendLast(rs, [detail] + ds)
  {
    var once := ExtendLast(rs, [detail]);
    var last := rs[|rs| - 1];
    assert once[..|once| - 1] == rs[..|rs| - 1];
    assert (last.details + [detail]) + ds == last.details + ([detail] + ds);
  }

  lemma RunFirst(project: string, target: Date, st: State, ks: seq<LineKind>)
    requires Consistent(st) && ks != []
    ensures Run(project, target, st, ks) == Run(project, target, Step(project, target, st, ks[0]), ks[1..])
  {
  }

  /** The lines of the `## Recent Accomplishments` section, when the log has one. */
  function SectionLines(content: string): Option<seq<string>> {
    match FindSection(content, RecentHeading)
    case None => None
    case Some(r) => Some(Split(content[r.bodyStart..r.end], '\n'))
  }

  /** `parse_accomplishments` for a log already read into `content`: the records of `project`
      dated `target`, found only within the `## Recent Accomplishments` section. */
  method ParseAccomplishments(content: string, project: string, target: Date) returns (records: seq<Record>)
    ensures SectionLines(content).None? ==> records == []
    ensures SectionLines(content).Some? ==>
              records == Expected(project, target, ClassifyAll(SectionLines(content).value))
    ensures forall k :: 0 <= k < |records| ==> WellFormed(records[k], project, target)
  {
    var section := FindSection(content, RecentHeading);
    if section.None? {
      return [];
    }
    var lines := Split(content[section.value.bodyStart..section.value.end], '\n');
    ghost var kinds := ClassifyAll(lines);
    records := [];
    var open := false;
    for i := 0 to |lines|
      invariant open ==> |records| > 0
      invariant Run(project, target, State(records, open), kinds[i..]) == Run(project, target, Initial, kinds)
    {
      ghost var before := State(records, open);
      ghost var kind := kinds[i];
      RunFirst(project, target, before, kinds[i..]);
      assert kinds[i..][1..] == kinds[i + 1..];
      var line := Strip(lines[i]);
      if line == [] || line[0] == '*' {
        assert kind == Skipped;
        continue;
      }
      var matched := MatchDateLine(line);
      if matched.Some? {
        var token := matched.value.token;
        StripStripped(matched.value.rest);
        var entryContent := Strip(matched.value.rest);
        var entryDate := ParseDate(token);
        assert kind == Dated(token, entryDate, entryContent);
        if entryDate.Some? {
          if entryDate.value == target {
            records := records + [Record(project, token, entryContent, [])];
            open := true;
          } else {
            open := false;
          }
        }
      } else {
        assert kind == Undated(line, DetailOf(line));
        if open && StartsWith(line, "-") {
          var detail := Strip(line[1..]);
          if detail != [] {
            var last := records[|records| - 1];
            records := records[..|records| - 1] + [last.(details := last.details + [detail])];
          }
        }
      }
      assert State(records, open) == Step(project, target, before, kinds[i]);
    }
    RunIsExpected(project, target, Initial, kinds);
  }

  // ---------------------------------------------------------------------------------------
  // Properties of single lines and single steps

  /** `- YYYY-MM-DD: x` and `- **YYYY-MM-DD**: x` are read alike, and the summary is `x`. */
  lemma {:induction false} ShapesAgree(token: string, x: string)
    requires IsDateShape(token) && x != [] && IsStripped(x)
    ensures Classify("- " + token + ": " + x) == Dated(token, ParseDate(token), x)
    ensures Classify("- **" + token + "**: " + x) == Dated(token, ParseDate(token), x)
  {
    PlainShape(token, x);
    EmphasisedShape(token, x);
  }

  lemma ColonTail(x: string)
    requires x != [] && IsStripped(x)
    ensures Tail(": " + x) == Some(x)
  {
    var t := ": " + x;
    assert t[2] == x[0];
    assert SpaceRunEnd(t, 1) == 2;
    assert t[2..] == x;
  }

  /** A line `- ` followed by a non-blank character has its pattern text start right there. */
  lemma DashLead(line: string)
    requires |line| >= 3 && line[0] == '-' && line[1] == ' ' && !IsSpace(line[2])
    ensures Lead(line) == 2
  {
    assert line[..1] == "-";
    assert SpaceRunEnd(line, 1) == 2;
  }

  /** A stripped line that the plain or the emphasised pattern reads as `(token, x)`. */
  lemma ClassifyDated(line: string, token: string, x: string)
    requires line != [] && IsStripped(line) && line[0] != '*'
    requires MatchDateLine(line) == Some(DateMatch(token, x)) && IsStripped(x)
    ensures Classify(line) == Dated(token, ParseDate(token), x)
  {
    StripStripped(line);
    StripStripped(x);
  }

  lemma {:induction false} PlainShape(token: string, x: string)
    requires IsDateShape(token) && x != [] && IsStripped(x)
    ensures Classify("- " + token + ": " + x) == Dated(token, ParseDate(token), x)
  {
    var line := "- " + token + ": " + x;
    PlainLayout(token, x);
    DashLead(line);
    ColonTail(x);
    PlainMatch(line, token, x);
    ClassifyDated(line, token, x);
  }

  lemma PlainLayout(token: string, x: string)
    requires IsDateShape(token) && x != [] && IsStripped(x)
    ensures var line := "- " + token + ": " + x;
      && |line| >= 3 && line[0] == '-' && line[1] == ' ' && !IsSpace(line[2])
      && line[2..12] == token && line[12..] == ": " + x
      && IsStripped(line) && line[0] != '*'
  {
    var line := "- " + token + ": " + x;
    FirstIsDigit(token);
    assert line[2] == token[0];
    assert line[|line| - 1] == x[|x| - 1];
    assert line[2..12] == token;
    assert line[12..] == ": " + x;
  }

  lemma FirstIsDigit(token: string)
    requires IsDateShape(token)
    ensures IsDigit(token[0]) && !IsSpace(token[0])
  {
    assert token[0] == token[0..4][0];
  }

  lemma PlainMatch(line: string, token: string, x: string)
    requires IsDateShape(token) && Lead(line) == 2 && |line| >= 12
    requires line[2..12] == token && Tail(line[12..]) == Some(x)
    ensures MatchDateLine(line) == Some(DateMatch(token, x))
  {
  }

  lemma {:induction false} EmphasisedShape(token: string, x: string)
    requires IsDateShape(token) && x != [] && IsStripped(x)
    ensures Classify("- **" + token + "**: " + x) == Dated(token, ParseDate(token), x)
  {
    var line := "- **" + token + "**: " + x;
    EmphasisedLayout(token, x);
    DashLead(line);
    ColonTail(x);
    EmphasisedMatch(line, token, x);
    ClassifyDated(line, token, x);
  }

  lemma EmphasisedLayout(token: string, x: string)
    requires IsDateShape(token) && x != [] && IsStripped(x)
    ensures var line := "- **" + token + "**: " + x;
      && |line| >= 16 && line[0] == '-' && line[1] == ' ' && line[2] == '*' && !IsSpace(line[2])
      && line[2..4] == "**" && line[4..14] == token && line[14..16] == "**" && line[16..] == ": " + x
      && IsStripped(line) && line[0] != '*'
  {
    var line := "- **" + token + "**: " + x;
    assert line[|line| - 1] == x[|x| - 1];
    assert line[2..4] == "**" && line[4..14] == token && line[14..16] == "**";
    assert line[16..] == ": " + x;
  }

  lemma EmphasisedMatch(line: string, token: string, x: string)
    requires IsDateShape(token) && Lead(line) == 2 && |line| >= 16 && line[2] == '*'
    requires line[2..4] == "**" && line[4..14] == token && line[14..16] == "**"
    requires Tail(line[16..]) == Some(x)
    ensures MatchDateLine(line) == Some(DateMatch(token, x))
  {
    assert line[2..12][0] == '*';
    StarNotDateShape(line[2..12]);
    assert OccursAt(line, "**", 2) && OccursAt(line, "**", 14);
  }

  lemma StarNotDateShape(t: string)
    requires t != [] && t[0] == '*'
    ensures !IsDateShape(t)
  {
    if |t| >= 4 {
      assert t[0..4][0] == t[0];
    }
  }

  /** The two shapes never both match, so the order in which they are tried decides nothing. */
  lemma ShapesExclusive(line: string)
    ensures !(MatchShape(line, false).Some? && MatchShape(line, true).Some?)
  {
  }

  /** A line whose first non-blank character is `*` is skipped, so an undashed
      `**YYYY-MM-DD**: x` never reaches the emphasised pattern. */
  lemma StarLineSkipped(project: string, target: Date, st: State, raw: string)
    requires Consistent(st)
    requires Strip(raw) != [] && Strip(raw)[0] == '*'
    ensures Step(project, target, st, Classify(raw)) == st
  {
  }

  /** A real date other than the target closes the open record and emits nothing. */
  lemma OtherDateCloses(project: string, target: Date, st: State, raw: string)
    requires Consistent(st)
    requires Classify(raw).Dated?
    requires ParseDate(Classify(raw).token).Some? && ParseDate(Classify(raw).token) != Some(target)
    ensures Step(project, target, st, Classify(raw)) == State(st.records, false)
  {
  }

  /** A date-shaped token that names no calendar date changes nothing: no record, the open
      record stays open and unchanged, and the line is not taken as a detail. */
  lemma InvalidDateIgnored(project: string, target: Date, st: State, raw: string)
    requires Consistent(st)
    requires Classify(raw).Dated? && ParseDate(Classify(raw).token).None?
    ensures Step(project, target, st, Classify(raw)) == st
  {
  }

  /** A non-date line starting with `-` adds `line[1:].strip()` to the open record, if that is not
      empty; other non-date lines leave the state as it is, open record included. */
  lemma UndatedLine(project: string, target: Date, st: State, raw: string)
    requires Consistent(st)
    requires Classify(raw).Undated?
    ensures var line := Strip(raw);
      Step(project, target, st, Classify(raw))
        == if st.open && StartsWith(line, "-") && Strip(line[1..]) != []
           then State(ExtendLast(st.records, [Strip(line[1..])]), true)
           else st
  {
  }

  /** Every record the script emits names the target date: `date` reads back as `target`, and
      is its zero-padded `YYYY-MM-DD` form. */
  lemma RecordDateIsTarget(r: Record, project: string, target: Date)
    requires WellFormed(r, project, target)
    ensures ValidDate(target) && r.date == DateToken(target)
  {
  }

  // ---------------------------------------------------------------------------------------
  // Grouping by project (shared by both renderers)

  /** The records of project `p`, in input order. */
  function OfProject(rs: seq<Record>, p: string): (g: seq<Record>)
    ensures forall k :: 0 <= k < |g| ==> g[k].project == p
    ensures forall x :: x in g ==> x in rs
    ensures |g| <= |rs|
  {
    if rs == [] then []
    else
      var last := rs[|rs| - 1];
      OfProject(rs[..|rs| - 1], p) + (if last.project == p then [last] else [])
  }

  /** The distinct projects in order of first appearance: the key order of the dict the
      renderers fill. */
  function FirstSeen(rs: seq<Record>): (ps: seq<string>)
    ensures Distinct(ps)
    ensures forall p :: p in ps <==> OfProject(rs, p) != []
  {
    if rs == [] then []
    else
      var init := rs[..|rs| - 1];
      var last := rs[|rs| - 1];
      var ps := FirstSeen(init);
      if last.project in ps then ps else ps + [last.project]
  }

  /** `sorted(by_project.items())`: the projects in ascending order. */
  function Projects(rs: seq<Record>): (ps: seq<string>)
    ensures StrictlySorted(ps) && Distinct(ps)
    ensures forall p :: p in ps <==> OfProject(rs, p) != []
  {
    var ps := SortDistinct(FirstSeen(rs));
    SortedDistinct(ps);
    assert forall p :: p in ps <==> p in multiset(ps);
    assert forall p :: p in FirstSeen(rs) <==> p in multiset(FirstSeen(rs));
    ps
  }

  /** The loop that fills the project dict: its keys in insertion order, and for each key the
      records of that project in input order. */
  method GroupByProject(rs: seq<Record>) returns (keys: seq<string>, groups: map<string, seq<Record>>)
    ensures keys == FirstSeen(rs)
    ensures forall p :: p in groups <==> p in keys
    ensures forall p :: p in groups ==> groups[p] == OfProject(rs, p)
  {
    keys := [];
    groups := map[];
    for i := 0 to |rs|
      invariant keys == FirstSeen(rs[..i])
      invariant forall p :: p in groups <==> p in keys
      invariant forall p :: p in groups ==> groups[p] == OfProject(rs[..i], p)
    {
      assert rs[..i + 1][..i] == rs[..i];
      var p := rs[i].project;
      if p !in groups {
        groups := groups[p := []];
        keys := keys + [p];
      }
      groups := groups[p := groups[p] + [rs[i]]];
    }
    assert rs[..|rs|] == rs;
  }

  /** Splitting records by project and putting the groups side by side, in any order of
      distinct projects that covers them all, loses and duplicates nothing. */
  lemma {:induction false} GroupsPartition(rs: seq<Record>, ps: seq<string>)
    requires Distinct(ps)
    requires forall k :: 0 <= k < |rs| ==> rs[k].project in ps
    ensures multiset(Gathered(rs, ps)) == multiset(rs)
  {
    if rs == [] {
      GatheredNothing(ps);
    } else {
      var init := rs[..|rs| - 1];
      var last := rs[|rs| - 1];
      assert rs == init + [last];
      assert last.project in ps;
      GroupsPartition(init, ps);
      GatheredSnoc(init, last, ps);
    }
  }

  /** The groups of the given projects, one after the other. */
  function Gathered(rs: seq<Record>, ps: seq<string>): seq<Record> {
    if ps == [] then [] else OfProject(rs, ps[0]) + Gathered(rs, ps[1..])
  }

  lemma {:induction false} GatheredNothing(ps: seq<string>)
    ensures Gathered([], ps) == []
  {
    if ps != [] {
      GatheredNothing(ps[1..]);
    }
  }

  lemma {:induction false} GatheredSnoc(init: seq<Record>, last: Record, ps: seq<string>)
    requires Distinct(ps)
    ensures multiset(Gathered(init + [last], ps))
         == multiset(Gathered(init, ps)) + (if last.project in ps then multiset{last} else multiset{})
  {
    var rs := init + [last];
    assert rs[..|rs| - 1] == init;
    if ps != [] {
      GatheredSnoc(init, last, ps[1..]);
      assert last.project in ps <==> last.project == ps[0] || last.project in ps[1..];
    }
  }

  // ---------------------------------------------------------------------------------------
  // Rendering

  /** The two renderings differ in the group heading and in a blank line closing each group. */
  datatype Style = Console | Obsidian

  function GroupHeading(style: Style, p: string): string {
    match style
    case Console => "\n## " + p
    case Obsidian => "### [[" + p + "]]"
  }

  function GroupTrailer(style: Style): seq<string> {
    match style
    case Console => []
    case Obsidian => [""]
  }

  function DetailLines(ds: seq<string>): (ls: seq<string>)
    ensures |ls| == |ds|
    ensures forall k :: 0 <= k < |ds| ==> ls[k] == "  - " + ds[k]
  {
    if ds == [] then [] else DetailLines(ds[..|ds| - 1]) + ["  - " + ds[|ds| - 1]]
  }

  /** `- content` and then one `  - detail` line per detail. */
  function RecordLines(r: Record): seq<string> {
    ["- " + r.content] + DetailLines(r.details)
  }

  function RecordsLines(rs: seq<Record>): seq<string> {
    if rs == [] then [] else RecordsLines(rs[..|rs| - 1]) + RecordLines(rs[|rs| - 1])
  }

  function GroupLines(style: Style, p: string, rs: seq<Record>): seq<string> {
    [GroupHeading(style, p)] + RecordsLines(OfProject(rs, p)) + GroupTrailer(style)
  }

  function GroupsLines(style: Style, ps: seq<string>, rs: seq<Record>): seq<string> {
    if ps == [] then [] else GroupsLines(style, ps[..|ps| - 1], rs) + GroupLines(style, ps[|ps| - 1], rs)
  }

  lemma GroupsLinesSnoc(style: Style, ps: seq<string>, rs: seq<Record>)
    requires ps != []
    ensures GroupsLines(style, ps, rs) == GroupsLines(style, ps[..|ps| - 1], rs) + GroupLines(style, ps[|ps| - 1], rs)
  {
  }

  lemma GroupsPrefixStep(style: Style, order: seq<string>, k: nat, rs: seq<Record>)
    requires k < |order|
    ensures GroupsLines(style, order[..k + 1], rs)
         == GroupsLines(style, order[..k], rs) + [GroupHeading(style, order[k])]
            + RecordsLines(OfProject(rs, order[k])) + GroupTrailer(style)
  {
    assert order[..k + 1][..k] == order[..k] && order[..k + 1][k] == order[k];
    GroupsLinesSnoc(style, order[..k + 1], rs);
  }

  /** The lines of a rendering: the groups of all projects in sorted order. */
  function RenderedLines(style: Style, rs: seq<Record>): seq<string> {
    GroupsLines(style, Projects(rs), rs)
  }

  /** A line that no record produces: group headings start with a newline or `#`, record
      lines with `-` or a space, and the closing line is empty. */
  predicate IsHeadingLine(l: string) {
    l != [] && l[0] != '-' && l[0] != ' '
  }

  /** The heading lines of a rendering, in order. */
  function Headings(ls: seq<string>): (hs: seq<string>)
    ensures |hs| <= |ls|
  {
    if ls == [] then []
    else Headings(ls[..|ls| - 1]) + (if IsHeadingLine(ls[|ls| - 1]) then [ls[|ls| - 1]] else [])
  }

  lemma {:induction false} HeadingsAppend(a: seq<string>, b: seq<string>)
    ensures Headings(a + b) == Headings(a) + Headings(b)
    decreases |b|
  {
    if b == [] {
      assert a + b == a;
    } else {
      var init := b[..|b| - 1];
      assert (a + b)[..|a + b| - 1] == a + init;
      HeadingsAppend(a, init);
    }
  }

  lemma {:induction false} NoHeadingsInRecords(rs: seq<Record>)
    ensures Headings(RecordsLines(rs)) == []
  {
    if rs != [] {
      var r := rs[|rs| - 1];
      NoHeadingsInRecords(rs[..|rs| - 1]);
      HeadingsAppend(RecordsLines(rs[..|rs| - 1]), RecordLines(r));
      NoHeadingsInDetails(r.details);
      HeadingsAppend(["- " + r.content], DetailLines(r.details));
      assert Headings(["- " + r.content]) == Headings([]) + [];
    }
  }

  lemma {:induction false} NoHeadingsInDetails(ds: seq<string>)
    ensures Headings(DetailLines(ds)) == []
  {
    if ds != [] {
      NoHeadingsInDetails(ds[..|ds| - 1]);
      assert DetailLines(ds)[..|ds| - 1] == DetailLines(ds[..|ds| - 1]);
    }
  }

  /** `heading(p)` for every project of `ps`, in the order of `ps`. */
  function HeadingsOf(style: Style, ps: seq<string>): (hs: seq<string>)
    ensures |hs| == |ps| && forall i :: 0 <= i < |ps| ==> hs[i] == GroupHeading(style, ps[i])
  {
    seq(|ps|, i requires 0 <= i < |ps| => GroupHeading(style, ps[i]))
  }

  lemma GroupHeadings(style: Style, p: string, rs: seq<Record>)
    ensures Headings(GroupLines(style, p, rs)) == [GroupHeading(style, p)]
  {
    var h := [GroupHeading(style, p)];
    var body := RecordsLines(OfProject(rs, p));
    HeadingsAppend(h + body, GroupTrailer(style));
    HeadingsAppend(h, body);
    NoHeadingsInRecords(OfProject(rs, p));
    assert Headings(h) == Headings([]) + h;
    assert Headings(GroupTrailer(style)) == [] by {
      if style == Obsidian {
        assert Headings([""]) == Headings([]) + [];
      }
    }
  }

  lemma {:induction false} GroupsHeadings(style: Style, ps: seq<string>, rs: seq<Record>)
    ensures Headings(GroupsLines(style, ps, rs)) == HeadingsOf(style, ps)
  {
    if ps != [] {
      var init := ps[..|ps| - 1];
      var p := ps[|ps| - 1];
      GroupsHeadings(style, init, rs);
      HeadingsAppend(GroupsLines(style, init, rs), GroupLines(style, p, rs));
      GroupHeadings(style, p, rs);
      HeadingsOfSnoc(style, ps);
    }
  }

  lemma HeadingsOfSnoc(style: Style, ps: seq<string>)
    requires ps != []
    ensures HeadingsOf(style, ps) == HeadingsOf(style, ps[..|ps| - 1]) + [GroupHeading(style, ps[|ps| - 1])]
  {
    var a := HeadingsOf(style, ps);
    var b := HeadingsOf(style, ps[..|ps| - 1]) + [GroupHeading(style, ps[|ps| - 1])];
    forall i | 0 <= i < |ps| ensures a[i] == b[i] {
      if i < |ps| - 1 {
        assert ps[..|ps| - 1][i] == ps[i];
      }
    }
  }

  /** Each project with records gets exactly one heading, and the headings come in strictly
      ascending project order, in both renderings. */
  lemma RenderedHeadings(style: Style, rs: seq<Record>)
    ensures Headings(RenderedLines(style, rs)) == HeadingsOf(style, Projects(rs))
    ensures StrictlySorted(Projects(rs))
    ensures forall p :: p in Projects(rs) <==> exists k :: 0 <= k < |rs| && rs[k].project == p
  {
    GroupsHeadings(style, Projects(rs), rs);
    forall p ensures OfProject(rs, p) != [] <==> exists k :: 0 <= k < |rs| && rs[k].project == p {
      OfProjectMembers(rs, p);
    }
  }

  lemma {:induction false} OfProjectMembers(rs: seq<Record>, p: string)
    ensures OfProject(rs, p) != [] <==> exists k :: 0 <= k < |rs| && rs[k].project == p
  {
    if rs != [] {
      var init := rs[..|rs| - 1];
      OfProjectMembers(init, p);
      if exists k :: 0 <= k < |init| && init[k].project == p {
        var k :| 0 <= k < |init| && init[k].project == p;
        assert rs[k] == init[k];
      }
      if exists k :: 0 <= k < |rs| && rs[k].project == p {
        var k :| 0 <= k < |rs| && rs[k].project == p;
        if k < |init| {
          assert init[k] == rs[k];
        }
      }
    }
  }

  /** The groups of a rendering together hold every record exactly once. */
  lemma EveryRecordRendered(rs: seq<Record>)
    ensures multiset(Gathered(rs, Projects(rs))) == multiset(rs)
  {
    forall k | 0 <= k < |rs| ensures rs[k].project in Projects(rs) {
      OfProjectMembers(rs, rs[k].project);
    }
    GroupsPartition(rs, Projects(rs));
  }

  /** The entry lines of a rendering, in order: those starting with `-` or a space, which
      leaves out the group headings and the blank closing lines. */
  predicate IsEntryLine(l: string) {
    l != [] && (l[0] == '-' || l[0] == ' ')
  }

  function EntryLines(ls: seq<string>): seq<string> {
    if ls == [] then []
    else EntryLines(ls[..|ls| - 1]) + (if IsEntryLine(ls[|ls| - 1]) then [ls[|ls| - 1]] else [])
  }

  /** Every record is rendered, and nothing else: the entry lines of a rendering are the
      summary and detail lines of the records grouped by project in sorted order, and those
      grouped records are the input records, each exactly once. */
  lemma RenderedEntries(style: Style, rs: seq<Record>)
    ensures EntryLines(RenderedLines(style, rs)) == RecordsLines(Gathered(rs, Projects(rs)))
    ensures multiset(Gathered(rs, Projects(rs))) == multiset(rs)
  {
    GroupsEntries(style, Projects(rs), rs);
    EveryRecordRendered(rs);
  }

  lemma {:induction false} GroupsEntries(style: Style, ps: seq<string>, rs: seq<Record>)
    ensures EntryLines(GroupsLines(style, ps, rs)) == RecordsLines(Gathered(rs, ps))
    decreases |ps|
  {
    if ps != [] {
      var init := ps[..|ps| - 1];
      var p := ps[|ps| - 1];
      GroupsEntries(style, init, rs);
      EntryLinesAppend(GroupsLines(style, init, rs), GroupLines(style, p, rs));
      GroupEntries(style, p, rs);
      GatheredLast(rs, ps);
      RecordsLinesAppend(Gathered(rs, init), OfProject(rs, p));
    }
  }

  lemma GroupEntries(style: Style, p: string, rs: seq<Record>)
    ensures EntryLines(GroupLines(style, p, rs)) == RecordsLines(OfProject(rs, p))
  {
    HeadingNotEntry(style, p);
    RecordsAreEntries(OfProject(rs, p));
    FramedEntries(GroupHeading(style, p), RecordsLines(OfProject(rs, p)), GroupTrailer(style));
  }

  lemma HeadingNotEntry(style: Style, p: string)
    ensures !IsEntryLine(GroupHeading(style, p))
  {
    var h := GroupHeading(style, p);
    assert h[0] == (if style == Console then '\n' else '#');
  }

  /** A heading and a trailer that are not entry lines around lines that all are. */
  lemma FramedEntries(h: string, body: seq<string>, trailer: seq<string>)
    requires !IsEntryLine(h) && EntryLines(body) == body
    requires trailer == [] || trailer == [""]
    ensures EntryLines([h] + body + trailer) == body
  {
    assert EntryLines([h]) == EntryLines([]) + [];
    EntryLinesAppend([h], body);
    EntryLinesAppend([h] + body, trailer);
    if trailer != [] {
      assert EntryLines([""]) == EntryLines([]) + [];
    }
  }

  lemma {:induction false} EntryLinesAppend(a: seq<string>, b: seq<string>)
    ensures EntryLines(a + b) == EntryLines(a) + EntryLines(b)
    decreases |b|
  {
    if b == [] {
      assert a + b == a;
    } else {
      var init := b[..|b| - 1];
      var ab := a + b;
      assert ab[..|ab| - 1] == a + init;
      assert ab[|ab| - 1] == b[|b| - 1];
      EntryLinesAppend(a, init);
    }
  }

  lemma {:induction false} RecordsAreEntries(rs: seq<Record>)
    ensures EntryLines(RecordsLines(rs)) == RecordsLines(rs)
  {
    if rs != [] {
      var r := rs[|rs| - 1];
      RecordsAreEntries(rs[..|rs| - 1]);
      EntryLinesAppend(RecordsLines(rs[..|rs| - 1]), RecordLines(r));
      DetailsAreEntries(r.details);
      EntryLinesAppend(["- " + r.content], DetailLines(r.details));
      assert EntryLines(["- " + r.content]) == EntryLines([]) + ["- " + r.content];
    }
  }

  lemma {:induction false} DetailsAreEntries(ds: seq<string>)
    ensures EntryLines(DetailLines(ds)) == DetailLines(ds)
  {
    if ds != [] {
      DetailsAreEntries(ds[..|ds| - 1]);
      assert DetailLines(ds)[..|ds| - 1] == DetailLines(ds[..|ds| - 1]);
    }
  }

  lemma {:induction false} RecordsLinesAppend(a: seq<Record>, b: seq<Record>)
    ensures RecordsLines(a + b) == RecordsLines(a) + RecordsLines(b)
    decreases |b|
  {
    if b == [] {
      assert a + b == a;
    } else {
      var init := b[..|b| - 1];
      var last := b[|b| - 1];
      var ab := a + b;
      assert ab[..|ab| - 1] == a + init;
      assert ab[|ab| - 1] == last;
      RecordsLinesAppend(a, init);
      calc {
        RecordsLines(ab);
        RecordsLines(a + init) + RecordLines(last);
        (RecordsLines(a) + RecordsLines(init)) + RecordLines(last);
        { LinesAssoc(RecordsLines(a), RecordsLines(init), RecordLines(last)); }
        RecordsLines(a) + (RecordsLines(init) + RecordLines(last));
      }
    }
  }

  lemma LinesAssoc(x: seq<string>, y: seq<string>, z: seq<string>)
    ensures (x + y) + z == x + (y + z)
  {
  }

  /** The groups gathered, seen from the last project. */
  lemma {:induction false} GatheredLast(rs: seq<Record>, ps: seq<string>)
    requires ps != []
    ensures Gathered(rs, ps) == Gathered(rs, ps[..|ps| - 1]) + OfProject(rs, ps[|ps| - 1])
    decreases |ps|
  {
    if |ps| > 1 {
      var tail := ps[1..];
      GatheredLast(rs, tail);
      assert tail[..|tail| - 1] == ps[..|ps| - 1][1..];
      assert tail[|tail| - 1] == ps[|ps| - 1];
    } else {
      assert ps[..0] == [];
    }
  }

  /** Appends the lines of one record: its summary, then its details in order. */
  method AppendRecord(output: seq<string>, r: Record) returns (output': seq<string>)
    ensures output' == output + RecordLines(r)
  {
    output' := output + ["- " + r.content];
    for d := 0 to |r.details|
      invariant output' == output + ["- " + r.content] + DetailLines(r.details[..d])
    {
      assert r.details[..d + 1][..d] == r.details[..d];
      output' := output' + ["  - " + r.details[d]];
    }
    assert r.details[..|r.details|] == r.details;
  }

  /** Appends one group: its heading, its records in order and the closing lines. */
  method AppendGroup(output: seq<string>, style: Style, p: string, accs: seq<Record>) returns (output': seq<string>)
    ensures output' == output + [GroupHeading(style, p)] + RecordsLines(accs) + GroupTrailer(style)
  {
    output' := output + [GroupHeading(style, p)];
    for a := 0 to |accs|
      invariant output' == output + [GroupHeading(style, p)] + RecordsLines(accs[..a])
    {
      assert accs[..a + 1][..a] == accs[..a];
      output' := AppendRecord(output', accs[a]);
    }
    assert accs[..|accs|] == accs;
    output' := output' + GroupTrailer(style);
  }

  /** Fills `output` group by group, record by record, detail by detail. */
  method AppendGroups(style: Style, rs: seq<Record>, order: seq<string>, groups: map<string, seq<Record>>)
    returns (output: seq<string>)
    requires forall p :: p in order ==> p in groups && groups[p] == OfProject(rs, p)
    ensures output == GroupsLines(style, order, rs)
  {
    output := [];
    for k := 0 to |order|
      invariant output == GroupsLines(style, order[..k], rs)
    {
      var p := order[k];
      assert groups[p] == OfProject(rs, p);
      output := AppendGroup(output, style, p, groups[p]);
      GroupsPrefixStep(style, order, k, rs);
    }
    assert order[..|order|] == order;
  }

  /** `format_accomplishments`: the console report, or the fixed sentence when there is
      nothing to report. */
  method FormatAccomplishments(rs: seq<Record>) returns (out: string)
    ensures rs == [] ==> out == NoneFound
    ensures rs != [] ==> out == Join(RenderedLines(Console, rs), '\n')
  {
    if rs == [] {
      return NoneFound;
    }
    var keys, groups := GroupByProject(rs);
    var order := SortDistinct(keys);
    assert forall p :: p in order <==> p in keys by {
      assert forall p :: p in order <==> p in multiset(order);
      assert forall p :: p in keys <==> p in multiset(keys);
    }
    var output := AppendGroups(Console, rs, order, groups);
    out := Join(output, '\n');
  }
}
