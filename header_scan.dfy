/**
 * Detection of hierarchical section headers such as "ORG 3.2.1" in the text
 * of one page: the regular expression `\b(ORG \d+(\.\d+){1,5})\b` applied with
 * Python's `re.findall`, restricted to ASCII digits and ASCII word characters.
 *
 * The module gives two definitions of a header and proves them equal:
 *   - IsHeaderShape / HeaderAt say declaratively what the pattern accepts;
 *   - MatchAt / MatchesFrom follow how the regex engine finds matches
 *     (greedy runs, backtracking on the group count, left-to-right scan).
 */
module HeaderScan {

  datatype Option<T> = None | Some(value: T)

  /** A match of the header pattern: the half-open range [start, end) of the text. */
  datatype Span = Span(start: nat, end: nat)

  /** The literal that opens every header. */
  const Prefix: string := "ORG "

  /** The largest number of `.digits` groups the pattern admits. */
  const MaxGroups: nat := 5

  predicate IsDigit(c: char) {
    '0' <= c <= '9'
  }

  /** `\w` restricted to ASCII: letters, digits and the underscore. */
  predicate IsWordChar(c: char) {
    'a' <= c <= 'z' || 'A' <= c <= 'Z' || IsDigit(c) || c == '_'
  }

  /** `\b` holds at position k of s: exactly one of the two characters around k is a word character. */
  predicate IsBoundary(s: string, k: nat)
    requires k <= |s|
  {
    (0 < k && IsWordChar(s[k - 1])) != (k < |s| && IsWordChar(s[k]))
  }

  /** The number of dots in t, as Python's `t.count('.')`. */
  function DotCount(t: string): nat {
    multiset(t)['.']
  }

  // ---------------------------------------------------------------------------
  // What the pattern accepts
  // ---------------------------------------------------------------------------

  /** The character before a dot at position k is a digit: no dot right after a dot. */
  predicate DigitBeforeDot(t: string, k: nat)
    requires 0 < k < |t|
  {
    t[k] == '.' ==> IsDigit(t[k - 1])
  }

  /** t has the shape `\d+(\.\d+){1,5}`: only digits and dots, a digit first and
      last, no dot right after another dot, and one to five dots. */
  predicate IsNumbering(t: string) {
    && 0 < |t|
    && IsDigit(t[0])
    && IsDigit(t[|t| - 1])
    && (forall k :: 0 <= k < |t| ==> IsDigit(t[k]) || t[k] == '.')
    && (forall k :: 0 < k < |t| ==> DigitBeforeDot(t, k))
    && 1 <= DotCount(t) <= MaxGroups
  }

  /** h has the shape `ORG \d+(\.\d+){1,5}`. */
  predicate IsHeaderShape(h: string) {
    |Prefix| <= |h| && h[..|Prefix|] == Prefix && IsNumbering(h[|Prefix|..])
  }

  /** s[i..e] is an occurrence of the whole pattern, `\b` on both sides included. */
  predicate HeaderAt(s: string, i: nat, e: nat) {
    i <= e <= |s| && IsBoundary(s, i) && IsBoundary(s, e) && IsHeaderShape(s[i..e])
  }

  /** s[j..e] has the shape `(\.\d+)+`. */
  predicate GroupsShape(s: string, j: nat, e: nat) {
    && j < e <= |s|
    && s[j] == '.'
    && IsDigit(s[e - 1])
    && (forall k :: j <= k < e ==> IsDigit(s[k]) || s[k] == '.')
    && (forall k :: j < k < e ==> DigitBeforeDot(s, k))
  }

  // ---------------------------------------------------------------------------
  // How the regex engine matches
  // ---------------------------------------------------------------------------

  /** The end of the maximal run of digits that starts at j (a greedy `\d*`). */
  function DigitsEnd(s: string, j: nat): (e: nat)
    requires j <= |s|
    ensures j <= e <= |s|
    ensures forall k :: j <= k < e ==> IsDigit(s[k])
    ensures e == |s| || !IsDigit(s[e])
    decreases |s| - j
  {
    if j < |s| && IsDigit(s[j]) then DigitsEnd(s, j + 1) else j
  }

  /** The ends of the successive `\.\d+` groups that follow position j, at most n
      of them: what the greedy `(\.\d+){1,n}` takes before any backtracking. */
  function GroupEnds(s: string, j: nat, n: nat): (ends: seq<nat>)
    requires j <= |s|
    ensures |ends| <= n
    ensures forall m :: 0 <= m < |ends| ==> j < ends[m] <= |s| && IsDigit(s[ends[m] - 1])
    decreases n
  {
    if n == 0 || j == |s| || s[j] != '.' then []
    else
      var g := DigitsEnd(s, j + 1);
      if g == j + 1 then [] else [g] + GroupEnds(s, g, n - 1)
  }

  /** The backtracking of `{1,5}`: the largest number of groups after which the
      closing `\b` holds, or 0 when there is none. */
  function BoundedGroupCount(s: string, ends: seq<nat>): (k: nat)
    requires forall m :: 0 <= m < |ends| ==> ends[m] <= |s|
    ensures k <= |ends|
    ensures 0 < k ==> IsBoundary(s, ends[k - 1])
    ensures forall m :: k <= m < |ends| ==> !IsBoundary(s, ends[m])
  {
    if ends == [] then 0
    else if IsBoundary(s, ends[|ends| - 1]) then |ends|
    else BoundedGroupCount(s, ends[..|ends| - 1])
  }

  /** Where an attempt to match the pattern at position i ends, if it succeeds.
      Each `\d+` takes its whole run of digits, since giving a digit back leaves a
      digit where `\.` or `\b` is needed; `(\.\d+){1,5}` takes as many groups as
      it can, and backtracking drops groups until the closing `\b` holds. */
  function MatchAt(s: string, i: nat): (r: Option<nat>)
    requires i <= |s|
    ensures r.Some? ==> i + |Prefix| < r.value <= |s|
  {
    if i + |Prefix| <= |s| && IsBoundary(s, i) && s[i..i + |Prefix|] == Prefix then
      var d := DigitsEnd(s, i + |Prefix|);
      var ends := GroupEnds(s, d, MaxGroups);
      var k := BoundedGroupCount(s, ends);
      if d == i + |Prefix| || k == 0 then None else Some(ends[k - 1])
    else None
  }

  /** The matches `re.findall` reports when it scans s from position p: the
      leftmost match, after which the scan resumes where that match ended. */
  function MatchesFrom(s: string, p: nat): (spans: seq<Span>)
    requires p <= |s|
    ensures forall k :: 0 <= k < |spans| ==> p <= spans[k].start < spans[k].end <= |s|
    ensures forall k :: 0 < k < |spans| ==> spans[k - 1].end <= spans[k].start
    decreases |s| - p
  {
    if p == |s| then []
    else match MatchAt(s, p)
      case Some(e) => [Span(p, e)] + MatchesFrom(s, e)
      case None => MatchesFrom(s, p + 1)
  }

  /** find_section_headers: the text of every match, left to right. */
  function FindSectionHeaders(text: string): seq<string> {
    var spans := MatchesFrom(text, 0);
    seq(|spans|, k requires 0 <= k < |spans| => text[spans[k].start..spans[k].end])
  }

  // ---------------------------------------------------------------------------
  // The two definitions agree
  // ---------------------------------------------------------------------------

  /** A run of digits has no dots. */
  lemma DigitsHaveNoDots(s: string, a: nat, b: nat)
    requires a <= b <= |s|
    requires forall k :: a <= k < b ==> IsDigit(s[k])
    ensures DotCount(s[a..b]) == 0
  {
    assert '.' !in s[a..b];
  }

  /** The dots of s[a..c] are those of s[a..b] and those of s[b..c]. */
  lemma DotCountSplit(s: string, a: nat, b: nat, c: nat)
    requires a <= b <= c <= |s|
    ensures DotCount(s[a..c]) == DotCount(s[a..b]) + DotCount(s[b..c])
  {
    assert s[a..c] == s[a..b] + s[b..c];
  }

  /** One `\.\d+` group: a dot followed by its maximal run of digits. */
  lemma OneGroup(s: string, j: nat)
    requires j < |s| && s[j] == '.'
    requires j + 1 < DigitsEnd(s, j + 1)
    ensures GroupsShape(s, j, DigitsEnd(s, j + 1))
    ensures DotCount(s[j..DigitsEnd(s, j + 1)]) == 1
  {
    var g := DigitsEnd(s, j + 1);
    DigitsHaveNoDots(s, j + 1, g);
    DotCountSplit(s, j, j + 1, g);
    assert s[j..j + 1] == ['.'];
    forall k | j < k < g
      ensures DigitBeforeDot(s, k)
    {
    }
  }

  /** Groups followed by groups are groups. */
  lemma JoinGroups(s: string, j: nat, g: nat, e: nat)
    requires GroupsShape(s, j, g) && GroupsShape(s, g, e)
    ensures GroupsShape(s, j, e)
    ensures DotCount(s[j..e]) == DotCount(s[j..g]) + DotCount(s[g..e])
  {
    DotCountSplit(s, j, g, e);
    forall k | j < k < e
      ensures DigitBeforeDot(s, k)
    {
      if k < g {
        assert DigitBeforeDot(s, k);
      } else if k == g {
        assert IsDigit(s[g - 1]);
      } else {
        assert DigitBeforeDot(s, k);
      }
    }
  }

  /** Groups that run past the first group continue with groups after it. */
  lemma SplitGroups(s: string, j: nat, e: nat)
    requires GroupsShape(s, j, e)
    requires e == |s| || !IsDigit(s[e])
    ensures j + 1 < DigitsEnd(s, j + 1) <= e
    ensures DigitsEnd(s, j + 1) < e ==> GroupsShape(s, DigitsEnd(s, j + 1), e)
  {
    var g := DigitsEnd(s, j + 1);
    assert DigitBeforeDot(s, j + 1);
    assert e == |s| || !(j + 1 <= e < g);
    if g < e {
      forall k | g < k < e
        ensures DigitBeforeDot(s, k)
      {
        assert DigitBeforeDot(s, k);
      }
    }
  }

  /** A run of groups is its first group and, when there is more, a run of
      groups with one dot fewer. */
  lemma FirstGroupSplit(s: string, j: nat, e: nat)
    requires GroupsShape(s, j, e)
    requires e == |s| || !IsDigit(s[e])
    ensures j + 1 < DigitsEnd(s, j + 1) <= e
    ensures DigitsEnd(s, j + 1) < e ==> GroupsShape(s, DigitsEnd(s, j + 1), e)
    ensures DotCount(s[j..e]) == 1 + DotCount(s[DigitsEnd(s, j + 1)..e])
  {
    SplitGroups(s, j, e);
    OneGroup(s, j);
    DotCountSplit(s, j, DigitsEnd(s, j + 1), e);
  }

  /** A group at j is the first one the greedy group scan takes. */
  lemma GroupEndsCons(s: string, j: nat, n: nat)
    requires 0 < n && j < |s| && s[j] == '.' && j + 1 < DigitsEnd(s, j + 1)
    ensures GroupEnds(s, j, n) == [DigitsEnd(s, j + 1)] + GroupEnds(s, DigitsEnd(s, j + 1), n - 1)
  {
  }

  /** Each end the greedy group scan reports closes m + 1 well-formed groups. */
  lemma {:induction false} GroupEndsShape(s: string, j: nat, n: nat, m: nat)
    requires j <= |s|
    requires m < |GroupEnds(s, j, n)|
    ensures GroupsShape(s, j, GroupEnds(s, j, n)[m])
    ensures DotCount(s[j..GroupEnds(s, j, n)[m]]) == m + 1
    decreases n
  {
    var ends := GroupEnds(s, j, n);
    var g := DigitsEnd(s, j + 1);
    assert ends == [g] + GroupEnds(s, g, n - 1);
    OneGroup(s, j);
    if m > 0 {
      GroupEndsShape(s, g, n - 1, m - 1);
      JoinGroups(s, j, g, ends[m]);
    }
  }

  /** s[j..e] is exactly c groups as the greedy group scan reads them: a dot,
      the maximal run of digits after it, and so on c times. */
  predicate GroupChain(s: string, j: nat, e: nat, c: nat)
    requires j <= |s|
    decreases c
  {
    && 0 < c
    && j < |s| && s[j] == '.'
    && j + 1 < DigitsEnd(s, j + 1)
    && if c == 1 then DigitsEnd(s, j + 1) == e
       else DigitsEnd(s, j + 1) < e && GroupChain(s, DigitsEnd(s, j + 1), e, c - 1)
  }

  /** A well-formed run of groups that ends where the digits end is a chain of
      as many groups as it has dots. */
  lemma {:induction false} GroupsAreChain(s: string, j: nat, e: nat)
    requires GroupsShape(s, j, e)
    requires e == |s| || !IsDigit(s[e])
    ensures GroupChain(s, j, e, DotCount(s[j..e]))
    decreases e - j
  {
    var g := DigitsEnd(s, j + 1);
    FirstGroupSplit(s, j, e);
    if g < e {
      GroupsAreChain(s, g, e);
    } else {
      assert s[g..e] == [];
    }
  }

  /** The greedy group scan, allowed at least c groups, reaches the end of a
      chain of c groups after exactly c of them. */
  lemma {:induction false} ChainReached(s: string, j: nat, n: nat, e: nat, c: nat)
    requires j <= |s|
    requires GroupChain(s, j, e, c)
    requires c <= n
    ensures c <= |GroupEnds(s, j, n)|
    ensures GroupEnds(s, j, n)[c - 1] == e
    decreases c
  {
    var g := DigitsEnd(s, j + 1);
    GroupEndsCons(s, j, n);
    if c > 1 {
      ChainReached(s, g, n - 1, e, c - 1);
    }
  }

  /** Conversely, every well-formed run of c groups that ends where the digits
      end is reached by the greedy group scan after exactly c groups. */
  lemma GroupEndsComplete(s: string, j: nat, n: nat, e: nat)
    requires GroupsShape(s, j, e)
    requires e == |s| || !IsDigit(s[e])
    requires DotCount(s[j..e]) <= n
    ensures 1 <= DotCount(s[j..e]) <= |GroupEnds(s, j, n)|
    ensures GroupEnds(s, j, n)[DotCount(s[j..e]) - 1] == e
  {
    GroupsAreChain(s, j, e);
    ChainReached(s, j, n, e, DotCount(s[j..e]));
  }

  /** Digits followed by c well-formed groups make a numbering with c dots. */
  lemma NumberingFromParts(s: string, a: nat, d: nat, e: nat)
    requires a < d
    requires GroupsShape(s, d, e)
    requires forall k :: a <= k < d ==> IsDigit(s[k])
    requires DotCount(s[d..e]) <= MaxGroups
    ensures IsNumbering(s[a..e])
  {
    DigitsHaveNoDots(s, a, d);
    DotCountSplit(s, a, d, e);
    forall k | 0 < k < e - a
      ensures DigitBeforeDot(s[a..e], k)
    {
      if d < a + k {
        assert DigitBeforeDot(s, a + k);
      }
    }
  }

  /** A numbering that ends where the digits end splits into its leading digits
      and the groups after them. */
  lemma NumberingParts(s: string, a: nat, e: nat)
    requires a <= e <= |s|
    requires IsNumbering(s[a..e])
    requires e == |s| || !IsDigit(s[e])
    ensures a < DigitsEnd(s, a) < e
    ensures GroupsShape(s, DigitsEnd(s, a), e)
    ensures DotCount(s[DigitsEnd(s, a)..e]) == DotCount(s[a..e])
  {
    var d := DigitsEnd(s, a);
    assert s[a..e][0] == s[a];
    assert e == |s| || !(a <= e < d);
    assert '.' in multiset(s[a..e]);
    var x :| 0 <= x < e - a && s[a..e][x] == '.';
    assert !IsDigit(s[a + x]);
    assert s[a..e][d - a] == s[d];
    DigitsHaveNoDots(s, a, d);
    DotCountSplit(s, a, d, e);
    forall k | d < k < e
      ensures DigitBeforeDot(s, k)
    {
      assert DigitBeforeDot(s[a..e], k - a);
    }
  }

  /** A match found at i is a header, `\b` on both sides included. */
  lemma MatchAtSound(s: string, i: nat)
    requires i <= |s|
    requires MatchAt(s, i).Some?
    ensures HeaderAt(s, i, MatchAt(s, i).value)
  {
    var a := i + |Prefix|;
    var d := DigitsEnd(s, a);
    var ends := GroupEnds(s, d, MaxGroups);
    var k := BoundedGroupCount(s, ends);
    var e := ends[k - 1];
    GroupEndsShape(s, d, MaxGroups, k - 1);
    NumberingFromParts(s, a, d, e);
    assert s[i..e][..|Prefix|] == s[i..a];
    assert s[i..e][|Prefix|..] == s[a..e];
  }

  /** Every header that starts at i is found there, and the match found is at
      least as long: the engine reports the longest header starting at i. */
  lemma MatchAtLongest(s: string, i: nat, e: nat)
    requires HeaderAt(s, i, e)
    ensures MatchAt(s, i).Some? && e <= MatchAt(s, i).value
  {
    HeaderAtParts(s, i, e);
    MatchAtReaches(s, i, e);
  }

  /** The engine's view of a header at i: the prefix and the leading digits are
      found, and backtracking stops at the end of the header or further on. */
  lemma MatchAtReaches(s: string, i: nat, e: nat)
    requires i + |Prefix| < e <= |s|
    requires IsBoundary(s, i) && IsBoundary(s, e)
    requires s[i..i + |Prefix|] == Prefix
    requires IsNumbering(s[i + |Prefix|..e])
    requires e == |s| || !IsDigit(s[e])
    ensures MatchAt(s, i).Some? && e <= MatchAt(s, i).value
  {
    var a := i + |Prefix|;
    NumberingParts(s, a, e);
    var d := DigitsEnd(s, a);
    var ends := GroupEnds(s, d, MaxGroups);
    var k := BoundedGroupCount(s, ends);
    BacktrackingReaches(s, d, e);
    assert MatchAt(s, i) == Some(ends[k - 1]);
  }

  /** Groups that end at a word boundary after at most five dots: backtracking
      from the greedy group count keeps at least the groups that reach it. */
  lemma BacktrackingReaches(s: string, d: nat, e: nat)
    requires GroupsShape(s, d, e)
    requires IsBoundary(s, e)
    requires e == |s| || !IsDigit(s[e])
    requires DotCount(s[d..e]) <= MaxGroups
    ensures 0 < BoundedGroupCount(s, GroupEnds(s, d, MaxGroups))
    ensures e <= GroupEnds(s, d, MaxGroups)[BoundedGroupCount(s, GroupEnds(s, d, MaxGroups)) - 1]
  {
    GroupEndsComplete(s, d, MaxGroups, e);
    GroupEndsSorted(s, d, MaxGroups);
    BacktrackingKeeps(s, GroupEnds(s, d, MaxGroups), DotCount(s[d..e]), e);
  }

  /** Backtracking over increasing group ends never drops the c-th group when
      the closing `\b` holds after it. */
  lemma BacktrackingKeeps(s: string, ends: seq<nat>, c: nat, e: nat)
    requires forall x :: 0 <= x < |ends| ==> ends[x] <= |s|
    requires forall a, b :: 0 <= a < b < |ends| ==> ends[a] < ends[b]
    requires 0 < c <= |ends| && ends[c - 1] == e && IsBoundary(s, e)
    ensures 0 < BoundedGroupCount(s, ends)
    ensures e <= ends[BoundedGroupCount(s, ends) - 1]
  {
    var k := BoundedGroupCount(s, ends);
    if c < k {
      assert ends[c - 1] < ends[k - 1];
    }
  }

  /** The greedy group scan reports its ends in increasing order: the
      quantified form of GroupEndsIncreasing. */
  lemma GroupEndsSorted(s: string, j: nat, n: nat)
    requires j <= |s|
    ensures forall a, b :: 0 <= a < b < |GroupEnds(s, j, n)| ==> GroupEnds(s, j, n)[a] < GroupEnds(s, j, n)[b]
  {
    forall a, b | 0 <= a < b < |GroupEnds(s, j, n)|
      ensures GroupEnds(s, j, n)[a] < GroupEnds(s, j, n)[b]
    {
      GroupEndsIncreasing(s, j, n, a, b);
    }
  }

  /** Of two ends the greedy group scan reports, the earlier one is smaller. */
  lemma {:induction false} GroupEndsIncreasing(s: string, j: nat, n: nat, a: nat, b: nat)
    requires j <= |s|
    requires a < b < |GroupEnds(s, j, n)|
    ensures GroupEnds(s, j, n)[a] < GroupEnds(s, j, n)[b]
    decreases n
  {
    var g := DigitsEnd(s, j + 1);
    var rest := GroupEnds(s, g, n - 1);
    assert GroupEnds(s, j, n) == [g] + rest;
    if a > 0 {
      GroupEndsIncreasing(s, g, n - 1, a - 1, b - 1);
    }
  }

  /** An occurrence of the pattern read position by position: the prefix, then a
      numbering whose last digit is not followed by another digit. */
  lemma HeaderAtParts(s: string, i: nat, e: nat)
    requires HeaderAt(s, i, e)
    ensures i + |Prefix| < e <= |s|
    ensures s[i..i + |Prefix|] == Prefix
    ensures IsNumbering(s[i + |Prefix|..e])
    ensures e == |s| || !IsDigit(s[e])
  {
    var a := i + |Prefix|;
    var h := s[i..e];
    assert s[i..a] == h[..|Prefix|];
    assert s[a..e] == h[|Prefix|..];
    assert IsDigit(s[e - 1]) by {
      assert s[a..e][|s[a..e]| - 1] == s[e - 1];
    }
  }

  /** Each match the scan reports is what the engine finds at its start. */
  lemma {:induction false} MatchesFromAreMatches(s: string, p: nat, k: nat)
    requires p <= |s|
    requires k < |MatchesFrom(s, p)|
    ensures MatchAt(s, MatchesFrom(s, p)[k].start) == Some(MatchesFrom(s, p)[k].end)
    decreases |s| - p
  {
    match MatchAt(s, p)
    case Some(e) =>
      if k > 0 {
        MatchesFromAreMatches(s, e, k - 1);
      }
    case None =>
      MatchesFromAreMatches(s, p + 1, k);
  }

  /** A header cannot start strictly inside another one: inside a header there
      is no 'O'. */
  lemma NoHeaderInsideHeader(s: string, a: nat, b: nat, q: nat, e: nat)
    requires HeaderAt(s, a, b)
    requires a < q < b
    ensures !HeaderAt(s, q, e)
  {
    if q < a + |Prefix| {
      assert s[q] == s[a..b][..|Prefix|][q - a];
    } else {
      assert s[q] == s[a..b][|Prefix|..][q - a - |Prefix|];
    }
    assert s[q] != 'O';
    if q + |Prefix| <= e <= |s| {
      assert s[q..e][..|Prefix|][0] == s[q];
    }
  }

  /** The left-to-right scan misses no header: every position where a header
      starts is the start of one of the reported matches. */
  lemma {:induction false} MatchesFromComplete(s: string, p: nat, q: nat, e: nat)
    requires p <= q
    requires p <= |s|
    requires HeaderAt(s, q, e)
    ensures exists k :: 0 <= k < |MatchesFrom(s, p)| && MatchesFrom(s, p)[k].start == q
    decreases |s| - p
  {
    var spans := MatchesFrom(s, p);
    if p == |s| {
      assert false;
    } else if q == p {
      MatchAtLongest(s, q, e);
      assert spans[0].start == q;
    } else {
      match MatchAt(s, p)
      case Some(b) =>
        MatchAtSound(s, p);
        if q < b {
          NoHeaderInsideHeader(s, p, b, q, e);
        } else {
          MatchesFromComplete(s, b, q, e);
          var k :| 0 <= k < |MatchesFrom(s, b)| && MatchesFrom(s, b)[k].start == q;
          assert spans[k + 1].start == q;
        }
      case None =>
        MatchesFromComplete(s, p + 1, q, e);
    }
  }

  // ---------------------------------------------------------------------------
  // What find_section_headers promises
  // ---------------------------------------------------------------------------

  /** Every reported header is an occurrence of the pattern in the text, with no
      word character on either side, and the longest one starting there. */
  lemma HeadersSound(text: string, n: nat)
    requires n < |FindSectionHeaders(text)|
    ensures exists i: nat, e: nat :: HeaderAt(text, i, e) && text[i..e] == FindSectionHeaders(text)[n]
                           && MatchAt(text, i) == Some(e)
  {
    var spans := MatchesFrom(text, 0);
    MatchesFromAreMatches(text, 0, n);
    MatchAtSound(text, spans[n].start);
  }

  /** The dots of a header are those of its numbering: "ORG " has none. */
  lemma HeaderDots(h: string)
    requires IsHeaderShape(h)
    ensures DotCount(h) == DotCount(h[|Prefix|..])
    ensures 1 <= DotCount(h) <= MaxGroups
  {
    assert h == h[..|Prefix|] + h[|Prefix|..];
    assert '.' !in Prefix;
  }

  /** Every reported header has the shape `ORG \d+(\.\d+){1,5}`, so its level,
      one more than its number of dots, lies between 2 and 6. */
  lemma HeaderLevelBounds(text: string, h: string)
    requires h in FindSectionHeaders(text)
    ensures IsHeaderShape(h)
    ensures 2 <= DotCount(h) + 1 <= MaxGroups + 1
  {
    var n :| 0 <= n < |FindSectionHeaders(text)| && FindSectionHeaders(text)[n] == h;
    HeadersSound(text, n);
    HeaderDots(h);
  }

  /** Every header in the text is reported, in its longest form at that position. */
  lemma HeadersComplete(text: string, i: nat, e: nat)
    requires HeaderAt(text, i, e)
    ensures MatchAt(text, i).Some? && e <= MatchAt(text, i).value
    ensures text[i..MatchAt(text, i).value] in FindSectionHeaders(text)
  {
    MatchAtLongest(text, i, e);
    MatchesFromComplete(text, 0, i, e);
    var spans := MatchesFrom(text, 0);
    var k :| 0 <= k < |spans| && spans[k].start == i;
    MatchesFromAreMatches(text, 0, k);
    assert FindSectionHeaders(text)[k] == text[i..MatchAt(text, i).value];
  }

  /** A page yields no headers exactly when no header occurs in its text. */
  lemma NoHeadersIff(text: string)
    ensures FindSectionHeaders(text) == [] <==> forall i, e :: !HeaderAt(text, i, e)
  {
    if FindSectionHeaders(text) != [] {
      HeadersSound(text, 0);
    }
    forall i, e | HeaderAt(text, i, e)
      ensures FindSectionHeaders(text) != []
    {
      HeadersComplete(text, i, e);
    }
  }

  /** Every character of a numbering is a digit or a dot. */
  lemma NumberingCharAt(s: string, a: nat, b: nat, x: nat)
    requires a <= b <= |s|
    requires IsNumbering(s[a..b])
    requires a <= x
    ensures x < b ==> IsDigit(s[x]) || s[x] == '.'
  {
    if x < b {
      assert s[a..b][x - a] == s[x];
    }
  }

  /** A header with no word character before it, and after it neither a word
      character nor a dot followed by a digit, is reported as it is: a sentence
      may end right after it, as in "see ORG 3.2.1. Next". */
  lemma DetectsDelimitedHeader(before: string, h: string, after: string)
    requires IsHeaderShape(h)
    requires before == [] || !IsWordChar(before[|before| - 1])
    requires after == [] || !IsWordChar(after[0])
    requires !(2 <= |after| && after[0] == '.' && IsDigit(after[1]))
    ensures h in FindSectionHeaders(before + h + after)
  {
    var t := before + h + after;
    var i := |before|;
    var e := i + |h|;
    DelimitedHeaderAt(before, h, after);
    MatchEndsAt(t, i, e);
    HeadersComplete(t, i, e);
  }

  /** A header placed between such neighbours is an occurrence of the pattern,
      followed by neither a digit nor a dot and a digit. */
  lemma DelimitedHeaderAt(before: string, h: string, after: string)
    requires IsHeaderShape(h)
    requires before == [] || !IsWordChar(before[|before| - 1])
    requires after == [] || !IsWordChar(after[0])
    requires !(2 <= |after| && after[0] == '.' && IsDigit(after[1]))
    ensures HeaderAt(before + h + after, |before|, |before| + |h|)
    ensures |before| + |h| < |before + h + after| ==> !IsDigit((before + h + after)[|before| + |h|])
    ensures !(|before| + |h| + 1 < |before + h + after| && (before + h + after)[|before| + |h|] == '.'
              && IsDigit((before + h + after)[|before| + |h| + 1]))
  {
    HeaderShapeEnds(h);
    PlacedBetween(before, h, after);
  }

  /** A header starts with the letter O and ends with a digit. */
  lemma HeaderShapeEnds(h: string)
    requires IsHeaderShape(h)
    ensures 0 < |h| && h[0] == 'O' && IsDigit(h[|h| - 1])
  {
    assert h[0] == h[..|Prefix|][0];
    assert h[|h| - 1] == h[|Prefix|..][|h| - |Prefix| - 1];
  }

  /** Where the characters around h sit in before + h + after. */
  lemma PlacedBetween(before: string, h: string, after: string)
    requires 0 < |h|
    ensures (before + h + after)[|before|..|before| + |h|] == h
    ensures (before + h + after)[|before|] == h[0]
    ensures (before + h + after)[|before| + |h| - 1] == h[|h| - 1]
    ensures 0 < |before| ==> (before + h + after)[|before| - 1] == before[|before| - 1]
    ensures 0 < |after| ==> (before + h + after)[|before| + |h|] == after[0]
    ensures 1 < |after| ==> (before + h + after)[|before| + |h| + 1] == after[1]
  {
  }

  /** The match at i ends at e when a header spans [i, e) and neither a digit
      nor a dot and a digit follow it. */
  lemma MatchEndsAt(t: string, i: nat, e: nat)
    requires HeaderAt(t, i, e)
    requires e < |t| ==> !IsDigit(t[e])
    requires !(e + 1 < |t| && t[e] == '.' && IsDigit(t[e + 1]))
    ensures MatchAt(t, i) == Some(e)
  {
    MatchAtLongest(t, i, e);
    var e' := MatchAt(t, i).value;
    MatchAtSound(t, i);
    HeaderAtParts(t, i, e');
    NumberingStops(t, i + |Prefix|, e, e');
  }

  /** A numbering that reaches position e stops there when neither a digit nor
      a dot followed by a digit comes next. */
  lemma NumberingStops(t: string, a: nat, e: nat, e': nat)
    requires a <= e <= e' <= |t|
    requires IsNumbering(t[a..e'])
    requires e < |t| ==> !IsDigit(t[e])
    requires !(e + 1 < |t| && t[e] == '.' && IsDigit(t[e + 1]))
    ensures e' == e
  {
    NumberingContinues(t, a, e, e');
  }

  /** A numbering that runs past position e goes on there with a digit, or with
      a dot and then a digit. */
  lemma NumberingContinues(t: string, a: nat, e: nat, e': nat)
    requires a <= e <= e' <= |t|
    requires IsNumbering(t[a..e'])
    ensures e < e' ==> IsDigit(t[e]) || (t[e] == '.' && e + 1 < e' && IsDigit(t[e + 1]))
  {
    if e < e' {
      var u := t[a..e'];
      assert u[e - a] == t[e];
      if t[e] == '.' {
        assert IsDigit(u[|u| - 1]);
        assert e + 1 < e';
        assert u[e + 1 - a] == t[e + 1];
        assert DigitBeforeDot(u, e + 1 - a);
      }
    }
  }

  /** "3.2.1" is a numbering with two dots. */
  lemma Numbering321()
    ensures IsNumbering("3.2.1")
    ensures DotCount("3.2.1") == 2
  {
    var u := "3.2.1";
    assert multiset(u)['.'] == 2;
    assert forall k :: 0 < k < |u| ==> DigitBeforeDot(u, k);
  }

  /** "ORG 3.2.1" has the header shape, with two dots. */
  lemma Org321Shape()
    ensures IsHeaderShape("ORG 3.2.1")
    ensures DotCount("ORG 3.2.1") == 2
  {
    var h := "ORG 3.2.1";
    Numbering321();
    assert h == Prefix + "3.2.1";
    assert h[..|Prefix|] == Prefix;
    assert h[|Prefix|..] == "3.2.1";
    assert multiset(Prefix)['.'] == 0;
  }

  /** The header "ORG 3.2.1" on its own in a page is detected, and has two
      dots, so the record the index stores for it has level 3. */
  lemma DetectsOrg321(before: string, after: string)
    requires before == [] || !IsWordChar(before[|before| - 1])
    requires after == [] || !IsWordChar(after[0])
    requires !(2 <= |after| && after[0] == '.' && IsDigit(after[1]))
    ensures "ORG 3.2.1" in FindSectionHeaders(before + "ORG 3.2.1" + after)
    ensures DotCount("ORG 3.2.1") + 1 == 3
  {
    Org321Shape();
    DetectsDelimitedHeader(before, "ORG 3.2.1", after);
  }
}
