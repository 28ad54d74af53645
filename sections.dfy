/**
 A hand-written matcher for the one regular expression shape both scripts use to find a
 Markdown section: `re.search(H + r'\s*\n(.*?)(?=\n##|\Z)', text, re.DOTALL)` for a fixed
 heading text `H`.

 Read as the regex engine runs it:
 - the search tries the start positions from left to right, and the heading text need not
   stand at the start of a line;
 - `\s*` first takes the whole whitespace run that follows the heading text and gives back
   characters until a `\n` follows, so the captured body starts right after the LAST `\n` of
   that run; a run without `\n` fails at this position and the search moves on;
 - the lazy `(.*?)` stops at the first position where `\n##` begins (so a `\n###` ends it
   too) or at the very end of the text.
 */
module Sections {
  import opened Text

  /** A match: the heading text starts at `start`, group 1 spans `[bodyStart, end)`, and the
      whole match is `[start, end)`. */
  datatype Region = Region(start: nat, bodyStart: nat, end: nat)

  const SubheadingMark: string := "\n##"

  /** The last `\n` in `s[j..e]`. */
  function LastNewline(s: string, j: nat, e: nat): (r: Option<nat>)
    requires j <= e <= |s|
    ensures r.Some? ==> j <= r.value < e && s[r.value] == '\n'
    ensures r.Some? ==> forall m :: r.value < m < e ==> s[m] != '\n'
    ensures r.None? ==> forall m :: j <= m < e ==> s[m] != '\n'
    decreases e - j
  {
    if e == j then None
    else if s[e - 1] == '\n' then Some(e - 1)
    else LastNewline(s, j, e - 1)
  }

  /** Where group 1 starts when the pattern is tried at position `i`: `Some` exactly when the
      heading text occurs at `i` and the whitespace run after it holds a `\n`, and then the body
      starts right after the last `\n` of that run. */
  function BodyStart(s: string, h: string, i: nat): (r: Option<nat>)
    ensures r.Some? ==> OccursAt(s, h, i)
    ensures r.Some? ==> i + |h| < r.value <= SpaceRunEnd(s, i + |h|) && s[r.value - 1] == '\n'
    ensures r.Some? ==> forall k :: r.value <= k < SpaceRunEnd(s, i + |h|) ==> s[k] != '\n'
    ensures r.None? && OccursAt(s, h, i) ==>
              forall k :: i + |h| <= k < SpaceRunEnd(s, i + |h|) ==> s[k] != '\n'
  {
    if !OccursAt(s, h, i) then None
    else
      var j := i + |h|;
      match LastNewline(s, j, SpaceRunEnd(s, j))
      case None => None
      case Some(k) => Some(k + 1)
  }

  /** Where the lazy group stops: the first position at or after `b` where `\n##` begins, or the
      end of the text. */
  function BodyEnd(s: string, b: nat): (p: nat)
    requires b <= |s|
    ensures b <= p <= |s|
    ensures p == |s| || OccursAt(s, SubheadingMark, p)
    ensures forall q :: b <= q < p ==> !OccursAt(s, SubheadingMark, q)
  {
    match FindFrom(s, SubheadingMark, b)
    case None => |s|
    case Some(p) => p
  }

  /** `re.search` from position `i` onwards. */
  function SearchFrom(s: string, h: string, i: nat): (r: Option<Region>)
    requires i <= |s|
    ensures r.Some? ==> i <= r.value.start && BodyStart(s, h, r.value.start) == Some(r.value.bodyStart)
    ensures r.Some? ==> r.value.bodyStart <= |s| && r.value.end == BodyEnd(s, r.value.bodyStart)
    ensures r.Some? ==> forall k :: i <= k < r.value.start ==> BodyStart(s, h, k).None?
    ensures r.None? ==> forall k :: i <= k <= |s| ==> BodyStart(s, h, k).None?
    decreases |s| - i
  {
    match BodyStart(s, h, i)
    case Some(b) => Some(Region(i, b, BodyEnd(s, b)))
    case None => if i == |s| then None else SearchFrom(s, h, i + 1)
  }

  /** The first match of the section pattern for heading `h`, if any. */
  function FindSection(s: string, h: string): (r: Option<Region>)
    ensures r.Some? ==> r.value.start + |h| < r.value.bodyStart <= r.value.end <= |s|
    ensures r.Some? ==> BodyStart(s, h, r.value.start) == Some(r.value.bodyStart)
    ensures r.Some? ==> r.value.end == BodyEnd(s, r.value.bodyStart)
    ensures r.Some? ==> forall k: nat :: k < r.value.start ==> BodyStart(s, h, k).None?
    ensures r.None? ==> forall k: nat :: k <= |s| ==> BodyStart(s, h, k).None?
  {
    SearchFrom(s, h, 0)
  }

  lemma MarkChars(s: string, q: nat)
    ensures OccursAt(s, SubheadingMark, q) <==>
              q + 3 <= |s| && s[q] == '\n' && s[q + 1] == '#' && s[q + 2] == '#'
  {
    if q + 3 <= |s| && s[q] == '\n' && s[q + 1] == '#' && s[q + 2] == '#' {
      assert s[q..q + 3] == SubheadingMark;
    }
  }

  /** The text after a match is empty or starts a `##`-marked line. */
  lemma MatchSuffix(s: string, h: string)
    requires FindSection(s, h).Some?
    ensures var r := FindSection(s, h).value;
      s[r.end..] == [] || StartsWith(s[r.end..], SubheadingMark)
  {
    var r := FindSection(s, h).value;
    if r.end < |s| {
      assert s[r.end..][..3] == s[r.end..r.end + 3];
    }
  }

  /** The captured body holds no `\n##`. */
  lemma {:induction false} BodyHasNoSubheading(s: string, h: string)
    requires FindSection(s, h).Some?
    ensures var r := FindSection(s, h).value;
      !Contains(s[r.bodyStart..r.end], SubheadingMark)
  {
    var r := FindSection(s, h).value;
    var body := s[r.bodyStart..r.end];
    forall k: nat | OccursAt(body, SubheadingMark, k) ensures false {
      MarkChars(body, k);
      MarkChars(s, r.bodyStart + k);
    }
  }

  /** A body that runs into a `\n###` line stops there: the part before it is all the match
      captures. */
  lemma {:induction false} BodyStopsAtDeeperHeading(s: string, b: nat, b1: string, b2: string)
    requires b <= |s|
    requires s[b..] == b1 + "\n###" + b2
    requires !Contains(b1, SubheadingMark)
    ensures BodyEnd(s, b) == b + |b1|
  {
    var p := b + |b1|;
    var t := s[b..];
    assert t[|b1|] == '\n' && t[|b1| + 1] == '#' && t[|b1| + 2] == '#';
    assert s[p] == '\n' && s[p + 1] == '#' && s[p + 2] == '#';
    assert OccursAt(s, SubheadingMark, p);
    forall q | b <= q < p ensures !OccursAt(s, SubheadingMark, q) {
      if OccursAt(s, SubheadingMark, q) {
        if q + 3 <= p {
          assert b1[q - b..q - b + 3] == s[q..q + 3];
          assert OccursAt(b1, SubheadingMark, q - b);
        } else {
          // the mark would have to straddle the end of b1, whose next character is '\n'
          assert false;
        }
      }
    }
  }

  // ---------------------------------------------------------------------------------------
  // What a match depends on

  /** No proper suffix of `h` is also a prefix of it, so two occurrences never overlap. */
  predicate NoSelfOverlap(h: string) {
    forall m :: 0 < m < |h| ==> h[m..] != h[..|h| - m]
  }

  lemma OccurrencesApart(s: string, h: string, i: nat, j: nat)
    requires NoSelfOverlap(h) && OccursAt(s, h, i) && OccursAt(s, h, j) && i < j
    ensures i + |h| <= j
  {
    OverlapIsBorder(s, h, i, j);
  }

  /** Two overlapping occurrences make a suffix of `h` equal to a prefix of it. */
  lemma OverlapIsBorder(s: string, h: string, i: nat, j: nat)
    requires OccursAt(s, h, i) && OccursAt(s, h, j) && i < j
    ensures j < i + |h| ==> h[j - i..] == h[..|h| - (j - i)]
  {
    if j < i + |h| {
      assert s[i..i + |h|][j - i..] == s[j..i + |h|] == s[j..j + |h|][..|h| - (j - i)];
    }
  }

  lemma {:induction false} SpaceRunAgree(s: string, t: string, j: nat, m: nat)
    requires j <= m < |s| && m < |t| && s[..m + 1] == t[..m + 1] && !IsSpace(s[m])
    ensures SpaceRunEnd(s, j) == SpaceRunEnd(t, j) <= m
    decreases m - j
  {
    assert s[j] == s[..m + 1][j] == t[..m + 1][j] == t[j];
    if IsSpace(s[j]) {
      SpaceRunAgree(s, t, j + 1, m);
    }
  }

  lemma {:induction false} LastNewlineAgree(s: string, t: string, j: nat, e: nat)
    requires j <= e <= |s| && e <= |t| && s[..e] == t[..e]
    ensures LastNewline(s, j, e) == LastNewline(t, j, e)
    decreases e - j
  {
    if e > j {
      assert s[e - 1] == s[..e][e - 1] == t[..e][e - 1] == t[e - 1];
      assert s[..e - 1] == s[..e][..e - 1];
      assert t[..e - 1] == t[..e][..e - 1];
      LastNewlineAgree(s, t, j, e - 1);
    }
  }

  /** Whether the pattern matches at `k` depends only on the text up to the first character
      that is not whitespace after the heading. */
  lemma BodyStartAgree(s: string, t: string, h: string, k: nat, m: nat)
    requires k + |h| <= m < |s| && m < |t| && s[..m + 1] == t[..m + 1] && !IsSpace(s[m])
    ensures BodyStart(s, h, k) == BodyStart(t, h, k)
  {
    assert s[k..k + |h|] == s[..m + 1][k..k + |h|];
    assert t[k..k + |h|] == t[..m + 1][k..k + |h|];
    SpaceRunAgree(s, t, k + |h|, m);
    var e := SpaceRunEnd(s, k + |h|);
    assert s[..e] == s[..m + 1][..e];
    assert t[..e] == t[..m + 1][..e];
    LastNewlineAgree(s, t, k + |h|, e);
  }

  /** Replacing everything after an occurrence of `h` at `start` keeps every earlier position
      from matching. */
  lemma EarlierPositionsStayUnmatched(s: string, t: string, h: string, start: nat)
    requires NoSelfOverlap(h) && h != [] && !IsSpace(h[0])
    requires OccursAt(s, h, start) && start + |h| <= |t| && t[..start + |h|] == s[..start + |h|]
    requires forall k: nat :: k < start ==> BodyStart(s, h, k).None?
    ensures forall k: nat :: k < start ==> BodyStart(t, h, k).None?
  {
    forall k: nat | k < start ensures BodyStart(t, h, k).None? {
      if OccursAt(t, h, k) {
        SharedPrefixSlice(s, t, start + |h|, k, k + |h|);
        OccurrencesApart(s, h, k, start);
        assert s[start] == h[0];
        SharedPrefixSlice(s, t, start + |h|, 0, start + 1);
        BodyStartAgree(s, t, h, k, start);
      }
    }
  }

  /** The first match is the one at `start` when no earlier position matches. */
  lemma FirstMatchAt(s: string, h: string, start: nat, b: nat)
    requires forall k: nat :: k < start ==> BodyStart(s, h, k).None?
    requires BodyStart(s, h, start) == Some(b)
    ensures b <= |s| && FindSection(s, h) == Some(Region(start, b, BodyEnd(s, b)))
  {
    var r := FindSection(s, h);
  }

  /** The heading followed by a blank line and a non-blank character: the body starts at that
      character. */
  lemma HeadingThenBlankLine(t: string, h: string, p: nat)
    requires p + |h| + 2 < |t| && OccursAt(t, h, p)
    requires t[p + |h|] == '\n' && t[p + |h| + 1] == '\n' && !IsSpace(t[p + |h| + 2])
    ensures BodyStart(t, h, p) == Some(p + |h| + 2)
  {
    var j := p + |h|;
    assert SpaceRunEnd(t, j) == j + 2;
    assert LastNewline(t, j, j + 2) == Some(j + 1);
  }

  /** A text `p + h + "\n\n" + body + q` whose positions before `p`'s end do not match, for a
      non-empty trimmed body without `\n##` and a rest that is empty or starts with `\n##`:
      the match captures exactly `body`. */
  lemma SectionAt(t: string, h: string, p: nat, body: string, q: string)
    requires p + |h| + 2 + |body| + |q| == |t|
    requires t[p..] == h + "\n\n" + body + q
    requires body != [] && !IsSpace(body[0]) && !Contains(body, SubheadingMark)
    requires q == [] || StartsWith(q, SubheadingMark)
    requires forall k: nat :: k < p ==> BodyStart(t, h, k).None?
    ensures FindSection(t, h) == Some(Region(p, p + |h| + 2, p + |h| + 2 + |body|))
  {
    var b := p + |h| + 2;
    SectionLayout(t, h, p, body, q);
    HeadingThenBlankLine(t, h, p);
    FirstMatchAt(t, h, p, b);
    BodyEndsAtRest(t, b, body, q);
  }

  lemma SectionLayout(t: string, h: string, p: nat, body: string, q: string)
    requires p + |h| + 2 + |body| + |q| == |t|
    requires t[p..] == h + "\n\n" + body + q
    requires body != []
    ensures OccursAt(t, h, p) && t[p + |h|] == '\n' && t[p + |h| + 1] == '\n'
    ensures t[p + |h| + 2] == body[0] && t[p + |h| + 2..] == body + q
  {
    var u := t[p..];
    assert t[p..p + |h|] == u[..|h|] == h;
    assert t[p + |h|] == u[|h|] && t[p + |h| + 1] == u[|h| + 1] && t[p + |h| + 2] == u[|h| + 2];
    assert t[p + |h| + 2..] == u[|h| + 2..];
  }

  /** The lazy body stops where the rest begins when the rest is empty or starts with `\n##`
      and the body holds no `\n##`. */
  lemma BodyEndsAtRest(t: string, b: nat, body: string, q: string)
    requires b + |body| + |q| == |t| && t[b..] == body + q
    requires !Contains(body, SubheadingMark)
    requires q == [] || StartsWith(q, SubheadingMark)
    ensures BodyEnd(t, b) == b + |body|
  {
    var e := b + |body|;
    assert t[b..e] == body;
    if q != [] {
      assert q[..3] == SubheadingMark;
      assert t[e..e + 3] == q[..3];
      MarkChars(t, e);
    }
    forall x | b <= x < e ensures !OccursAt(t, SubheadingMark, x) {
      MarkChars(t, x);
      if x + 3 <= e {
        assert body[x - b..x - b + 3] == t[x..x + 3];
        MarkChars(body, x - b);
      }
    }
  }
}
