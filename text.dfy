/**
 The string toolkit the three scripts lean on: Python's `str.isspace`, `str.strip`,
 `str.startswith`, the `in` substring test, `str.split('\n')`, `'\n'.join`, the ordering of
 `str` values and the `sorted` builtin, restated over `seq<char>`.
 */
module Text {

  datatype Option<T> = None | Some(value: T)

  /** The characters for which Python's `str.isspace()` holds; `\s` in a `str` pattern and the
      argument-less `str.strip()` both use this set. */
  predicate IsSpace(c: char) {
    || c == ' '
    || ('\t' <= c <= '\r')
    || ('\U{1C}' <= c <= '\U{1F}')
    || c == '\U{85}' || c == '\U{A0}' || c == '\U{1680}'
    || ('\U{2000}' <= c <= '\U{200A}')
    || c == '\U{2028}' || c == '\U{2029}' || c == '\U{202F}' || c == '\U{205F}' || c == '\U{3000}'
  }

  predicate AllSpace(s: string) {
    forall k :: 0 <= k < |s| ==> IsSpace(s[k])
  }

  /** No leading and no trailing whitespace: what `strip()` returns. */
  predicate IsStripped(s: string) {
    s == [] || (!IsSpace(s[0]) && !IsSpace(s[|s| - 1]))
  }

  predicate StartsWith(s: string, prefix: string) {
    |prefix| <= |s| && s[..|prefix|] == prefix
  }

  predicate EndsWith(s: string, suffix: string) {
    |suffix| <= |s| && s[|s| - |suffix|..] == suffix
  }

  // ---------------------------------------------------------------------------------------
  // strip()

  /** Where the maximal whitespace run starting at `j` ends. */
  function SpaceRunEnd(s: string, j: nat): (e: nat)
    requires j <= |s|
    ensures j <= e <= |s|
    ensures forall k :: j <= k < e ==> IsSpace(s[k])
    ensures e == |s| || !IsSpace(s[e])
    decreases |s| - j
  {
    if j == |s| || !IsSpace(s[j]) then j else SpaceRunEnd(s, j + 1)
  }

  /** Number of leading whitespace characters. */
  function LeadLength(s: string): (n: nat)
    ensures n <= |s|
    ensures forall k :: 0 <= k < n ==> IsSpace(s[k])
    ensures n == |s| || !IsSpace(s[n])
  {
    if s == [] || !IsSpace(s[0]) then 0
    else
      var n := 1 + LeadLength(s[1..]);
      assert forall k :: 1 <= k < n ==> s[k] == s[1..][k - 1];
      n
  }

  /** Number of trailing whitespace characters. */
  function TrailLength(s: string): (n: nat)
    ensures n <= |s|
    ensures forall k :: |s| - n <= k < |s| ==> IsSpace(s[k])
    ensures n == |s| || !IsSpace(s[|s| - 1 - n])
  {
    if s == [] || !IsSpace(s[|s| - 1]) then 0
    else
      var t := s[..|s| - 1];
      var n := 1 + TrailLength(t);
      assert forall k :: |s| - n <= k < |s| - 1 ==> s[k] == t[k];
      n
  }

  /** Python's argument-less `str.strip()`: the input with its leading and trailing whitespace
      removed. */
  function Strip(s: string): (r: string)
    ensures IsStripped(r)
    ensures LeadLength(s) + |r| <= |s|
    ensures r == s[LeadLength(s)..LeadLength(s) + |r|]
    ensures forall k :: LeadLength(s) + |r| <= k < |s| ==> IsSpace(s[k])
    ensures r == [] <==> AllSpace(s)
  {
    var i := LeadLength(s);
    if i == |s| then
      []
    else
      var t := s[i..];
      var j := TrailLength(t);
      assert j < |t| by { assert !IsSpace(t[0]); }
      var r := t[..|t| - j];
      assert forall k :: i + |r| <= k < |s| ==> s[k] == t[k - i];
      r
  }

  lemma AllSpaceConcat(a: string, b: string)
    requires AllSpace(a) && AllSpace(b)
    ensures AllSpace(a + b)
  {
  }

  /** `strip()` of whitespace + x + whitespace, for an already stripped x, gives back x. */
  lemma {:induction false} StripFrame(a: string, x: string, b: string)
    requires AllSpace(a) && AllSpace(b) && IsStripped(x)
    ensures Strip(a + x + b) == x
  {
    var s := a + x + b;
    if x == [] {
      assert s == a + b;
      AllSpaceConcat(a, b);
    } else {
      var i := |a|;
      assert s[i] == x[0];
      assert forall k :: 0 <= k < i ==> s[k] == a[k];
      LeadFromFrame(s, i);
      // Strip(s) starts at |a|, ends in non-whitespace and leaves only whitespace behind it
      assert s[i + |x| - 1] == x[|x| - 1];
      assert s[i..i + |x|] == x;
    }
  }

  lemma LeadFromFrame(s: string, n: nat)
    requires n < |s| && (forall k :: 0 <= k < n ==> IsSpace(s[k])) && !IsSpace(s[n])
    ensures LeadLength(s) == n
  {
  }

  lemma StripStripped(x: string)
    requires IsStripped(x)
    ensures Strip(x) == x
  {
    assert [] + x + [] == x;
    StripFrame([], x, []);
  }

  // ---------------------------------------------------------------------------------------
  // Substring search

  /** `p` occurs in `s` starting at position `i`. */
  predicate OccursAt(s: string, p: string, i: nat) {
    i + |p| <= |s| && s[i..i + |p|] == p
  }

  /** The first position at or after `i` where `p` occurs. */
  function FindFrom(s: string, p: string, i: nat): (r: Option<nat>)
    requires i <= |s|
    ensures r.Some? ==> i <= r.value && OccursAt(s, p, r.value)
    ensures r.Some? ==> forall k :: i <= k < r.value ==> !OccursAt(s, p, k)
    ensures r.None? ==> forall k :: i <= k ==> !OccursAt(s, p, k)
    decreases |s| - i
  {
    if OccursAt(s, p, i) then Some(i)
    else if i == |s| then None
    else FindFrom(s, p, i + 1)
  }

  /** Python's `p in s` for strings. */
  function Contains(s: string, p: string): (b: bool)
    ensures b <==> exists k :: OccursAt(s, p, k)
  {
    FindFrom(s, p, 0).Some?
  }

  lemma OccursInConcat(a: string, p: string, b: string, k: nat)
    requires OccursAt(b, p, k)
    ensures OccursAt(a + b, p, |a| + k)
  {
    assert (a + b)[|a| + k..|a| + k + |p|] == b[k..k + |p|];
  }

  lemma OccursInPrefix(a: string, p: string, b: string, k: nat)
    requires OccursAt(a, p, k)
    ensures OccursAt(a + b, p, k)
  {
    assert (a + b)[k..k + |p|] == a[k..k + |p|];
  }

  /** Two texts with a common prefix agree on every slice of it. */
  lemma SharedPrefixSlice(s: string, t: string, n: nat, i: nat, j: nat)
    requires n <= |s| && n <= |t| && t[..n] == s[..n] && i <= j <= n
    ensures t[i..j] == s[i..j]
  {
    forall x | i <= x < j ensures t[x] == s[x] {
      assert t[x] == t[..n][x];
      assert s[x] == s[..n][x];
    }
  }

  /** An occurrence of `q` inside an occurrence of `p` is an occurrence of `q` in the whole. */
  lemma OccursWithin(s: string, p: string, i: nat, q: string, m: nat)
    requires OccursAt(s, p, i) && OccursAt(p, q, m)
    ensures OccursAt(s, q, i + m)
  {
    var w := s[i..i + |p|];
    assert w == p;
    assert w[m..m + |q|] == q;
    var u := s[i + m..i + m + |q|];
    forall x | 0 <= x < |q| ensures u[x] == q[x] {
      assert u[x] == s[i + m + x] == w[m + x];
      assert q[x] == w[m..m + |q|][x];
    }
  }

  // ---------------------------------------------------------------------------------------
  // split('\n') and '\n'.join

  /** Python's `sep.join(parts)` for a one-character separator. */
  function Join(parts: seq<string>, sep: char): string {
    if |parts| == 0 then []
    else if |parts| == 1 then parts[0]
    else parts[0] + [sep] + Join(parts[1..], sep)
  }

  /** The first index at or after `i` holding `c`. */
  function IndexOf(s: string, c: char, i: nat): (r: Option<nat>)
    requires i <= |s|
    ensures r.Some? ==> i <= r.value < |s| && s[r.value] == c
    ensures r.Some? ==> forall k :: i <= k < r.value ==> s[k] != c
    ensures r.None? ==> forall k :: i <= k < |s| ==> s[k] != c
    decreases |s| - i
  {
    if i == |s| then None
    else if s[i] == c then Some(i)
    else IndexOf(s, c, i + 1)
  }

  /** Python's `s.split(sep)` for a one-character separator: the pieces between separators,
      never an empty list (`"".split('\n') == [""]`), and joining them gives `s` back. */
  function Split(s: string, sep: char): (parts: seq<string>)
    ensures |parts| >= 1
    ensures forall k :: 0 <= k < |parts| ==> sep !in parts[k]
    ensures Join(parts, sep) == s
    decreases |s|
  {
    match IndexOf(s, sep, 0)
    case None => [s]
    case Some(i) =>
      var rest := Split(s[i + 1..], sep);
      assert sep !in s[..i] by {
        forall k | 0 <= k < i ensures s[..i][k] != sep { }
      }
      assert s == s[..i] + [sep] + s[i + 1..];
      [s[..i]] + rest
  }

  /** `split` undoes `join` when no part holds the separator. */
  lemma {:induction false} SplitJoin(parts: seq<string>, sep: char)
    requires |parts| >= 1
    requires forall k :: 0 <= k < |parts| ==> sep !in parts[k]
    ensures Split(Join(parts, sep), sep) == parts
  {
    if |parts| == 1 {
      var s := parts[0];
      match IndexOf(s, sep, 0)
      case None =>
      case Some(i) =>
    } else {
      var s := Join(parts, sep);
      var p := parts[0];
      assert s == p + [sep] + Join(parts[1..], sep);
      assert s[|p|] == sep;
      forall k | 0 <= k < |p| ensures s[k] != sep {
        assert s[k] == p[k];
      }
      assert IndexOf(s, sep, 0) == Some(|p|);
      assert s[|p| + 1..] == Join(parts[1..], sep);
      assert s[..|p|] == p;
      SplitJoin(parts[1..], sep);
    }
  }

  /** Every element of a joined list occurs in the joined string. */
  lemma {:induction false} JoinContainsPart(parts: seq<string>, sep: char, k: nat)
    requires k < |parts|
    ensures exists i :: OccursAt(Join(parts, sep), parts[k], i)
  {
    if |parts| == 1 {
      assert OccursAt(Join(parts, sep), parts[0], 0);
    } else if k == 0 {
      OccursInPrefix(parts[0], parts[0], [sep] + Join(parts[1..], sep), 0);
      assert parts[0] + ([sep] + Join(parts[1..], sep)) == Join(parts, sep);
    } else {
      JoinContainsPart(parts[1..], sep, k - 1);
      assert parts[1..][k - 1] == parts[k];
      var i :| OccursAt(Join(parts[1..], sep), parts[k], i);
      OccursInConcat(parts[0] + [sep], parts[k], Join(parts[1..], sep), i);
      assert Join(parts, sep) == parts[0] + [sep] + Join(parts[1..], sep);
    }
  }

  /** A text without the separator that occurs in a join occurs within one of its parts. */
  lemma {:induction false} OccurrenceInJoin(parts: seq<string>, sep: char, p: string, i: nat)
    requires |parts| >= 1 && OccursAt(Join(parts, sep), p, i) && sep !in p
    ensures exists k :: 0 <= k < |parts| && Contains(parts[k], p)
  {
    if |parts| == 1 {
      assert Contains(parts[0], p);
    } else {
      var a := parts[0];
      var rest := Join(parts[1..], sep);
      var s := Join(parts, sep);
      assert s == a + [sep] + rest;
      if i + |p| <= |a| {
        assert s[i..i + |p|] == a[i..i + |p|];
        assert OccursAt(a, p, i);
      } else if i >= |a| + 1 {
        var j := i - |a| - 1;
        assert s[i..i + |p|] == rest[j..j + |p|];
        OccurrenceInJoin(parts[1..], sep, p, j);
        var k :| 0 <= k < |parts[1..]| && Contains(parts[1..][k], p);
        assert parts[1..][k] == parts[k + 1];
      } else {
        SeparatorInside(a, sep, rest, p, i);
      }
    }
  }

  /** An occurrence that spans the separator after `a` holds the separator. */
  lemma SeparatorInside(a: string, sep: char, rest: string, p: string, i: nat)
    requires OccursAt(a + [sep] + rest, p, i)
    ensures i <= |a| < i + |p| ==> p[|a| - i] == sep
  {
    var s := a + [sep] + rest;
    if i <= |a| < i + |p| {
      assert s[i..i + |p|][|a| - i] == s[|a|];
    }
  }

  /** An occurrence inside one part of a join is an occurrence in the join. */
  lemma PartOccurrence(parts: seq<string>, sep: char, k: nat, p: string, n: nat)
    requires k < |parts| && OccursAt(parts[k], p, n)
    ensures Contains(Join(parts, sep), p)
  {
    JoinContainsPart(parts, sep, k);
    var j :| OccursAt(Join(parts, sep), parts[k], j);
    OccursWithin(Join(parts, sep), parts[k], j, p, n);
  }

  /** A text without the separator found in `s` lies within one of the pieces of `s`. */
  lemma LineHolding(s: string, sep: char, p: string) returns (k: nat, n: nat)
    requires Contains(s, p) && sep !in p
    ensures k < |Split(s, sep)| && OccursAt(Split(s, sep)[k], p, n)
  {
    var m :| OccursAt(s, p, m);
    OccurrenceInJoin(Split(s, sep), sep, p, m);
    k :| 0 <= k < |Split(s, sep)| && Contains(Split(s, sep)[k], p);
    n :| OccursAt(Split(s, sep)[k], p, n);
  }

  /** Joining with a trailing piece. */
  lemma {:induction false} JoinSnoc(parts: seq<string>, last: string, sep: char)
    requires |parts| >= 1
    ensures Join(parts + [last], sep) == Join(parts, sep) + [sep] + last
  {
    if |parts| == 1 {
      assert (parts + [last])[1..] == [last];
    } else {
      assert (parts + [last])[1..] == parts[1..] + [last];
      JoinSnoc(parts[1..], last, sep);
    }
  }

  /** A join starts with the first part's first character. */
  lemma JoinFirst(parts: seq<string>, sep: char)
    requires |parts| >= 1 && parts[0] != []
    ensures Join(parts, sep) != [] && Join(parts, sep)[0] == parts[0][0]
  {
  }

  /** A join ends with the last part's last character. */
  lemma {:induction false} JoinLast(parts: seq<string>, sep: char)
    requires |parts| >= 1 && parts[|parts| - 1] != []
    ensures var j := Join(parts, sep);
      j != [] && j[|j| - 1] == parts[|parts| - 1][|parts[|parts| - 1]| - 1]
  {
    if |parts| > 1 {
      var rest := parts[1..];
      assert rest[|rest| - 1] == parts[|parts| - 1];
      JoinLast(rest, sep);
    }
  }

  /** Splitting at a separator between two pieces splits each piece on its own. */
  lemma SplitAround(a: string, b: string, sep: char)
    ensures Split(a + [sep] + b, sep) == Split(a, sep) + Split(b, sep)
  {
    var pa := Split(a, sep);
    var pb := Split(b, sep);
    var ps := pa + pb;
    JoinAppend(pa, pb, sep);
    assert Join(ps, sep) == a + [sep] + b;
    forall k | 0 <= k < |ps| ensures sep !in ps[k] {
      if k < |pa| {
        assert ps[k] == pa[k];
      } else {
        assert ps[k] == pb[k - |pa|];
      }
    }
    SplitJoin(ps, sep);
  }

  lemma {:induction false} JoinAppend(a: seq<string>, b: seq<string>, sep: char)
    requires |a| >= 1 && |b| >= 1
    ensures Join(a + b, sep) == Join(a, sep) + [sep] + Join(b, sep)
  {
    if |a| == 1 {
      assert (a + b)[1..] == b;
    } else {
      assert (a + b)[1..] == a[1..] + b;
      JoinAppend(a[1..], b, sep);
    }
  }

  // ---------------------------------------------------------------------------------------
  // Ordering of str values (code point by code point, a proper prefix first) and sorted()

  predicate Below(a: string, b: string) {
    if a == [] then b != []
    else if b == [] then false
    else a[0] < b[0] || (a[0] == b[0] && Below(a[1..], b[1..]))
  }

  lemma {:induction false} BelowIrreflexive(a: string)
    ensures !Below(a, a)
  {
    if a != [] { BelowIrreflexive(a[1..]); }
  }

  lemma {:induction false} BelowTransitive(a: string, b: string, c: string)
    requires Below(a, b) && Below(b, c)
    ensures Below(a, c)
  {
    if a != [] && a[0] == b[0] && b[0] == c[0] {
      BelowTransitive(a[1..], b[1..], c[1..]);
    }
  }

  lemma {:induction false} BelowTotal(a: string, b: string)
    requires a != b
    ensures Below(a, b) || Below(b, a)
  {
    if a != [] && b != [] && a[0] == b[0] {
      assert a == [a[0]] + a[1..] && b == [b[0]] + b[1..];
      BelowTotal(a[1..], b[1..]);
    }
  }

  predicate StrictlySorted(s: seq<string>) {
    forall i, j :: 0 <= i < j < |s| ==> Below(s[i], s[j])
  }

  predicate Distinct(s: seq<string>) {
    forall i, j :: 0 <= i < j < |s| ==> s[i] != s[j]
  }

  lemma SortedDistinct(s: seq<string>)
    requires StrictlySorted(s)
    ensures Distinct(s)
  {
    forall i, j | 0 <= i < j < |s| ensures s[i] != s[j] {
      BelowIrreflexive(s[i]);
    }
  }

  /** Puts `x` into its place in a strictly sorted list that lacks it. */
  function Insert(x: string, s: seq<string>): (r: seq<string>)
    requires StrictlySorted(s) && x !in s
    ensures StrictlySorted(r)
    ensures multiset(r) == multiset(s) + multiset{x}
  {
    if s == [] then [x]
    else if Below(x, s[0]) then
      forall j | 0 <= j < |s| ensures Below(x, s[j]) {
        if j > 0 { BelowTransitive(x, s[0], s[j]); }
      }
      [x] + s
    else
      BelowTotal(x, s[0]);
      var t := Insert(x, s[1..]);
      assert s == [s[0]] + s[1..];
      forall k | 0 <= k < |t| ensures Below(s[0], t[k]) {
        assert t[k] in multiset(t);
        if t[k] != x {
          assert t[k] in multiset(s[1..]);
          var j :| 0 <= j < |s[1..]| && s[1..][j] == t[k];
          assert s[j + 1] == t[k];
        }
      }
      [s[0]] + t
  }

  /** Python's `sorted` on a list of distinct strings. */
  function SortDistinct(xs: seq<string>): (r: seq<string>)
    requires Distinct(xs)
    ensures StrictlySorted(r)
    ensures multiset(r) == multiset(xs)
  {
    if xs == [] then []
    else
      var init := xs[..|xs| - 1];
      var x := xs[|xs| - 1];
      assert xs == init + [x];
      var s := SortDistinct(init);
      assert x !in s by {
        assert x !in multiset(init) by {
          forall k | 0 <= k < |init| ensures init[k] != x { }
        }
      }
      Insert(x, s)
  }
}
