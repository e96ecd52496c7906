/** Results and their order (src/core/Result.h, src/core/Result.cpp). */
module Ranking {
  import opened Bytes
  import opened Characters
  import opened Words

  // ----- Longest common subsequence -----

  // Pairs of positions, strictly increasing on both sides, at which the two sequences have equal bases.
  ghost predicate IsCommonSubsequence(a: seq<Character>, b: seq<Character>, pairs: seq<(nat, nat)>) {
    && (forall k :: 0 <= k < |pairs| ==>
          pairs[k].0 < |a| && pairs[k].1 < |b| && a[pairs[k].0].base == b[pairs[k].1].base)
    && (forall k, l :: 0 <= k < l < |pairs| ==> pairs[k].0 < pairs[l].0 && pairs[k].1 < pairs[l].1)
  }

  function Max(x: nat, y: nat): nat {
    if x < y then y else x
  }

  // The recurrence over the first i characters of a and the first j of b.
  function Lcs(a: seq<Character>, b: seq<Character>, i: nat, j: nat): nat
    requires i <= |a| && j <= |b|
  {
    if i == 0 || j == 0 then 0
    else if a[i - 1].EqualsBase(b[j - 1]) then Lcs(a, b, i - 1, j - 1) + 1
    else Max(Lcs(a, b, i, j - 1), Lcs(a, b, i - 1, j))
  }

  lemma {:induction false} LcsAttained(a: seq<Character>, b: seq<Character>, i: nat, j: nat)
    returns (pairs: seq<(nat, nat)>)
    requires i <= |a| && j <= |b|
    ensures IsCommonSubsequence(a, b, pairs) && |pairs| == Lcs(a, b, i, j)
    ensures forall k :: 0 <= k < |pairs| ==> pairs[k].0 < i && pairs[k].1 < j
  {
    if i == 0 || j == 0 {
      pairs := [];
    } else if a[i - 1].EqualsBase(b[j - 1]) {
      pairs := LcsAttained(a, b, i - 1, j - 1);
      pairs := pairs + [(i - 1, j - 1)];
    } else if Lcs(a, b, i, j - 1) < Lcs(a, b, i - 1, j) {
      pairs := LcsAttained(a, b, i - 1, j);
    } else {
      pairs := LcsAttained(a, b, i, j - 1);
    }
  }

  lemma {:induction false} LcsBounds(a: seq<Character>, b: seq<Character>, i: nat, j: nat, pairs: seq<(nat, nat)>)
    requires i <= |a| && j <= |b| && IsCommonSubsequence(a, b, pairs)
    requires forall k :: 0 <= k < |pairs| ==> pairs[k].0 < i && pairs[k].1 < j
    ensures |pairs| <= Lcs(a, b, i, j)
  {
    if pairs == [] {
    } else {
      var last := pairs[|pairs| - 1];
      var front := pairs[..|pairs| - 1];
      if a[i - 1].EqualsBase(b[j - 1]) {
        LcsBounds(a, b, i - 1, j - 1, front);
      } else if last.0 < i - 1 {
        LcsBounds(a, b, i - 1, j, pairs);
      } else {
        assert last.1 < j - 1;
        LcsBounds(a, b, i, j - 1, pairs);
      }
    }
  }

  lemma {:induction false} LcsSymmetric(a: seq<Character>, b: seq<Character>, i: nat, j: nat)
    requires i <= |a| && j <= |b|
    ensures Lcs(a, b, i, j) == Lcs(b, a, j, i)
  {
    if i == 0 || j == 0 {
    } else {
      LcsSymmetric(a, b, i - 1, j - 1);
      LcsSymmetric(a, b, i, j - 1);
      LcsSymmetric(a, b, i - 1, j);
    }
  }

  // The maximum length of a common subsequence.
  ghost predicate IsLongestCommon(a: seq<Character>, b: seq<Character>, length: nat) {
    && (exists pairs: seq<(nat, nat)> :: IsCommonSubsequence(a, b, pairs) && |pairs| == length)
    && (forall pairs: seq<(nat, nat)> :: IsCommonSubsequence(a, b, pairs) ==> |pairs| <= length)
  }

  function LcsLength(a: seq<Character>, b: seq<Character>): nat {
    Lcs(a, b, |a|, |b|)
  }

  lemma LcsIsLongest(a: seq<Character>, b: seq<Character>)
    ensures IsLongestCommon(a, b, LcsLength(a, b))
    ensures LcsLength(a, b) <= |a| && LcsLength(a, b) <= |b|
  {
    var pairs := LcsAttained(a, b, |a|, |b|);
    forall other: seq<(nat, nat)> | IsCommonSubsequence(a, b, other) ensures |other| <= LcsLength(a, b) {
      LcsBounds(a, b, |a|, |b|, other);
    }
    LcsAtMost(a, b, |a|, |b|);
  }

  lemma {:induction false} LcsAtMost(a: seq<Character>, b: seq<Character>, i: nat, j: nat)
    requires i <= |a| && j <= |b|
    ensures Lcs(a, b, i, j) <= i && Lcs(a, b, i, j) <= j
  {
    if i == 0 || j == 0 {
    } else {
      LcsAtMost(a, b, i - 1, j - 1);
      LcsAtMost(a, b, i, j - 1);
      LcsAtMost(a, b, i - 1, j);
    }
  }

  /** LongestCommonSubsequenceLength: two rows of the table, over the longer sequence, find the maximum length. */
  method LongestCommonSubsequenceLength(first: seq<Character>, second: seq<Character>) returns (length: nat)
    ensures length == LcsLength(first, second)
    ensures IsLongestCommon(first, second, length)
  {
    var longer := if |first| > |second| then first else second;
    var shorter := if |first| > |second| then second else first;
    var previous := new nat[|shorter| + 1](_ => 0);
    var current := new nat[|shorter| + 1](_ => 0);
    for i := 0 to |longer|
      invariant forall k :: 0 <= k <= |shorter| ==> previous[k] == current[k] == Lcs(longer, shorter, i, k)
    {
      FillRow(longer, shorter, i, previous, current);
      CopyRow(previous, current);
    }
    length := current[|shorter|];
    LcsSymmetric(first, second, |first|, |second|);
    LcsIsLongest(first, second);
  }

  method CopyRow(previous: array<nat>, current: array<nat>)
    requires previous != current && previous.Length == current.Length > 0 && previous[0] == current[0]
    modifies previous
    ensures forall k :: 0 <= k < previous.Length ==> previous[k] == current[k]
  {
    for j := 0 to current.Length - 1
      invariant forall k :: 0 <= k <= j ==> previous[k] == current[k]
    {
      previous[j + 1] := current[j + 1];
    }
  }

  method FillRow(longer: seq<Character>, shorter: seq<Character>, i: nat, previous: array<nat>, current: array<nat>)
    requires i < |longer| && previous != current && previous.Length == current.Length == |shorter| + 1
    requires forall k :: 0 <= k <= |shorter| ==> previous[k] == Lcs(longer, shorter, i, k)
    requires current[0] == 0
    modifies current
    ensures forall k :: 0 <= k <= |shorter| ==> current[k] == Lcs(longer, shorter, i + 1, k)
  {
    for j := 0 to |shorter|
      invariant forall k :: 0 <= k <= j ==> current[k] == Lcs(longer, shorter, i + 1, k)
    {
      if longer[i].EqualsBase(shorter[j]) {
        current[j + 1] := previous[j] + 1;
      } else {
        current[j + 1] := Max(current[j], previous[j + 1]);
      }
    }
  }

  // ----- Results -----

  datatype RankedResult = RankedResult(
    firstCharSame: bool,
    queryIsCandidatePrefix: bool,
    charMatchIndexSum: nat,
    numWbMatches: nat,
    candidate: Candidate,
    query: Word)

  // The features SetResultFeaturesFromQuery fills in.
  function Rank(candidate: Candidate, query: Word, indexSum: nat, isPrefix: bool): RankedResult {
    if query.IsEmpty() || candidate.word.IsEmpty() then RankedResult(false, isPrefix, indexSum, 0, candidate, query)
    else RankedResult(
           candidate.word.characters[0].EqualsBase(query.characters[0]),
           isPrefix, indexSum,
           LcsLength(query.characters, candidate.wordBoundaryChars),
           candidate, query)
  }

  // The features of a result: whether both words begin with one base, and how many word boundary characters of the
  // candidate the query matches at most, in order; the rest is given.
  ghost predicate IsResultOf(r: RankedResult, candidate: Candidate, query: Word, indexSum: nat, isPrefix: bool) {
    var q, text := query.characters, candidate.word.characters;
    && r.candidate == candidate && r.query == query
    && r.charMatchIndexSum == indexSum && r.queryIsCandidatePrefix == isPrefix
    && (r.firstCharSame <==> q != [] && text != [] && q[0].base == text[0].base)
    && (if q != [] && text != [] then IsLongestCommon(q, candidate.wordBoundaryChars, r.numWbMatches)
        else r.numWbMatches == 0)
  }

  lemma RankIsResult(candidate: Candidate, query: Word, indexSum: nat, isPrefix: bool)
    ensures IsResultOf(Rank(candidate, query, indexSum, isPrefix), candidate, query, indexSum, isPrefix)
  {
    LcsIsLongest(query.characters, candidate.wordBoundaryChars);
  }

  /** The constructor of Result. */
  method ConstructResult(candidate: Candidate, query: Word, indexSum: nat, isPrefix: bool) returns (r: RankedResult)
    ensures r == Rank(candidate, query, indexSum, isPrefix)
    ensures IsResultOf(r, candidate, query, indexSum, isPrefix)
  {
    var firstCharSame, numWbMatches := false, 0;
    if !query.IsEmpty() && !candidate.word.IsEmpty() {
      firstCharSame := candidate.word.characters[0].EqualsBase(query.characters[0]);
      numWbMatches := LongestCommonSubsequenceLength(query.characters, candidate.wordBoundaryChars);
    }
    r := RankedResult(firstCharSame, isPrefix, indexSum, numWbMatches, candidate, query);
    RankIsResult(candidate, query, indexSum, isPrefix);
  }

  function NumWordBoundaryChars(r: RankedResult): nat {
    |r.candidate.wordBoundaryChars|
  }

  // Result::operator<.
  predicate Less(a: RankedResult, b: RankedResult) {
    if a.query.IsEmpty() then LexLess(a.candidate.caseSwappedText, b.candidate.caseSwappedText)
    else if a.firstCharSame != b.firstCharSame then a.firstCharSame
    else if (a.numWbMatches == a.query.Length() || b.numWbMatches == a.query.Length())
            && a.numWbMatches != b.numWbMatches then a.numWbMatches > b.numWbMatches
    else if (a.numWbMatches == a.query.Length() || b.numWbMatches == a.query.Length())
            && NumWordBoundaryChars(a) != NumWordBoundaryChars(b) then NumWordBoundaryChars(a) < NumWordBoundaryChars(b)
    else if a.queryIsCandidatePrefix != b.queryIsCandidatePrefix then a.queryIsCandidatePrefix
    else if a.numWbMatches != b.numWbMatches then a.numWbMatches > b.numWbMatches
    else if NumWordBoundaryChars(a) != NumWordBoundaryChars(b) then NumWordBoundaryChars(a) < NumWordBoundaryChars(b)
    else if a.charMatchIndexSum != b.charMatchIndexSum then a.charMatchIndexSum < b.charMatchIndexSum
    else if a.candidate.word.Length() != b.candidate.word.Length() then
      a.candidate.word.Length() < b.candidate.word.Length()
    else if a.candidate.textIsLowercase != b.candidate.textIsLowercase then a.candidate.textIsLowercase
    else LexLess(a.candidate.caseSwappedText, b.candidate.caseSwappedText)
  }

  // ----- The order is lexicographic in one key -----

  function TrueFirst(b: bool): int {
    if b then 0 else 1
  }

  // As many word boundary characters matched as the query has characters.
  predicate AllMatched(r: RankedResult) {
    r.numWbMatches == |r.query.characters|
  }

  // One key in place of the nested comparisons; fully word-boundary-matched results are told apart up front.
  function RankFeatures(r: RankedResult): seq<int> {
    [ TrueFirst(r.firstCharSame),
      TrueFirst(AllMatched(r)),
      if AllMatched(r) then |r.candidate.wordBoundaryChars| else 0,
      TrueFirst(r.queryIsCandidatePrefix),
      0 - r.numWbMatches as int,
      |r.candidate.wordBoundaryChars|,
      r.charMatchIndexSum,
      |r.candidate.word.characters|,
      TrueFirst(r.candidate.textIsLowercase) ]
  }

  function RankKey(r: RankedResult): seq<int> {
    (if r.query.characters == [] then [] else RankFeatures(r)) + r.candidate.caseSwappedText
  }

  // What ties a set of results together: one query, and no more word boundary matches than it has characters.
  predicate ForQuery(r: RankedResult, query: Word) {
    r.query == query && r.numWbMatches <= |query.characters|
  }

  /** Every result made for a query is so bounded: a common subsequence is no longer than the query. */
  lemma RankForQuery(candidate: Candidate, query: Word, indexSum: nat, isPrefix: bool)
    ensures ForQuery(Rank(candidate, query, indexSum, isPrefix), query)
  {
    LcsIsLongest(query.characters, candidate.wordBoundaryChars);
  }

  // The first difference of two feature lists, or their length.
  function FirstDifference(s: seq<int>, t: seq<int>, k: nat): (d: nat)
    requires |s| == |t| && k <= |s|
    ensures k <= d <= |s|
    ensures s[k..d] == t[k..d]
    ensures d < |s| ==> s[d] != t[d]
    decreases |s| - k
  {
    if k == |s| || s[k] != t[k] then k
    else
      var d := FirstDifference(s, t, k + 1);
      assert s[k..d] == [s[k]] + s[k + 1..d] && t[k..d] == [t[k]] + t[k + 1..d];
      d
  }

  /** Over the results of one query, operator< compares the keys lexicographically. */
  lemma LessComparesKeys(a: RankedResult, b: RankedResult, query: Word)
    requires ForQuery(a, query) && ForQuery(b, query)
    ensures Less(a, b) == LexLess(RankKey(a), RankKey(b))
  {
    var s, t := a.candidate.caseSwappedText, b.candidate.caseSwappedText;
    if query.IsEmpty() {
      assert RankKey(a) == s && RankKey(b) == t;
    } else {
      var f, g := RankFeatures(a), RankFeatures(b);
      var d := FirstDifference(f, g, 0);
      if d < |f| {
        assert (f + s)[..d] == f[0..d] == g[0..d] == (g + t)[..d];
        LexFirstDifference(f + s, g + t, d);
        FeaturesDecide(a, b, query, d);
      } else {
        assert f == f[0..d] == g[0..d] == g;
        LexSkip(f, s, t);
        FeaturesTie(a, b, query);
      }
    }
  }

  lemma FeaturesDecide(a: RankedResult, b: RankedResult, query: Word, d: nat)
    requires ForQuery(a, query) && ForQuery(b, query) && !query.IsEmpty()
    requires d < |RankFeatures(a)| && RankFeatures(a)[d] != RankFeatures(b)[d]
    requires RankFeatures(a)[0..d] == RankFeatures(b)[0..d]
    ensures Less(a, b) == (RankFeatures(a)[d] < RankFeatures(b)[d])
  {
    var f, g := RankFeatures(a), RankFeatures(b);
    assert forall k :: 0 <= k < d ==> f[k] == f[0..d][k] == g[0..d][k] == g[k];
    assert d > 0 ==> f[0] == g[0];
    assert d > 1 ==> f[1] == g[1];
    assert d > 2 ==> f[2] == g[2];
    assert d > 3 ==> f[3] == g[3];
    assert d > 4 ==> f[4] == g[4];
    assert d > 5 ==> f[5] == g[5];
    assert d > 6 ==> f[6] == g[6];
    assert d > 7 ==> f[7] == g[7];
  }

  lemma FeaturesTie(a: RankedResult, b: RankedResult, query: Word)
    requires ForQuery(a, query) && ForQuery(b, query) && !query.IsEmpty()
    requires RankFeatures(a) == RankFeatures(b)
    ensures Less(a, b) == LexLess(a.candidate.caseSwappedText, b.candidate.caseSwappedText)
  {
    var f, g := RankFeatures(a), RankFeatures(b);
    assert f[0] == g[0] && f[1] == g[1] && f[3] == g[3] && f[4] == g[4] && f[5] == g[5];
    assert f[6] == g[6] && f[7] == g[7] && f[8] == g[8];
  }

  // Results that the conditions on the start and on full word boundary matches do not tell apart ...
  predicate SameStart(a: RankedResult, b: RankedResult) {
    && a.firstCharSame == b.firstCharSame && AllMatched(a) == AllMatched(b)
    && (AllMatched(a) ==> |a.candidate.wordBoundaryChars| == |b.candidate.wordBoundaryChars|)
  }

  // ... nor that on the prefix ...
  predicate SamePrefix(a: RankedResult, b: RankedResult) {
    SameStart(a, b) && a.queryIsCandidatePrefix == b.queryIsCandidatePrefix
  }

  // ... nor those on the number of word boundary matches and characters ...
  predicate SameBoundaries(a: RankedResult, b: RankedResult) {
    && SamePrefix(a, b) && a.numWbMatches == b.numWbMatches
    && |a.candidate.wordBoundaryChars| == |b.candidate.wordBoundaryChars|
  }

  // ... nor those on the index sum and the length.
  predicate SameLength(a: RankedResult, b: RankedResult) {
    && SameBoundaries(a, b) && a.charMatchIndexSum == b.charMatchIndexSum
    && |a.candidate.word.characters| == |b.candidate.word.characters|
  }

  /** The ten documented conditions, in their order: each decides where those before it do not. */
  lemma DocumentedOrder(a: RankedResult, b: RankedResult, query: Word)
    requires ForQuery(a, query) && ForQuery(b, query) && query.characters != []
    ensures var c, d := a.candidate, b.candidate;
            && (a.firstCharSame && !b.firstCharSame ==> Less(a, b))
            && (a.firstCharSame == b.firstCharSame && AllMatched(a) && !AllMatched(b) ==> Less(a, b))
            && (a.firstCharSame == b.firstCharSame && AllMatched(a) && AllMatched(b) ==>
                  |c.wordBoundaryChars| < |d.wordBoundaryChars| ==> Less(a, b))
            && (SameStart(a, b) && a.queryIsCandidatePrefix && !b.queryIsCandidatePrefix ==> Less(a, b))
            && (SamePrefix(a, b) && a.numWbMatches > b.numWbMatches ==> Less(a, b))
            && (SamePrefix(a, b) && a.numWbMatches == b.numWbMatches ==>
                  |c.wordBoundaryChars| < |d.wordBoundaryChars| ==> Less(a, b))
            && (SameBoundaries(a, b) && a.charMatchIndexSum < b.charMatchIndexSum ==> Less(a, b))
            && (SameBoundaries(a, b) && a.charMatchIndexSum == b.charMatchIndexSum ==>
                  |c.word.characters| < |d.word.characters| ==> Less(a, b))
            && (SameLength(a, b) && c.textIsLowercase && !d.textIsLowercase ==> Less(a, b))
            && (SameLength(a, b) && c.textIsLowercase == d.textIsLowercase ==>
                  LexLess(c.caseSwappedText, d.caseSwappedText) ==> Less(a, b))
  {
  }

  /** For an empty query only the last one counts. */
  lemma EmptyQueryOrder(a: RankedResult, b: RankedResult)
    requires a.query.characters == []
    ensures Less(a, b) <==> LexLess(a.candidate.caseSwappedText, b.candidate.caseSwappedText)
  {
  }

  /** operator< is a strict weak order over the results of one query; results it ties have equal keys. */
  lemma LessIsStrictWeakOrder(a: RankedResult, b: RankedResult, c: RankedResult, query: Word)
    requires ForQuery(a, query) && ForQuery(b, query) && ForQuery(c, query)
    ensures !Less(a, a)
    ensures Less(a, b) ==> !Less(b, a)
    ensures Less(a, b) && Less(b, c) ==> Less(a, c)
    ensures !Less(a, b) && !Less(b, a) <==> RankKey(a) == RankKey(b)
    ensures !Less(a, b) && !Less(b, c) ==> !Less(a, c)
  {
    LessComparesKeys(a, a, query);
    LessComparesKeys(a, b, query);
    LessComparesKeys(b, a, query);
    LessComparesKeys(b, c, query);
    LessComparesKeys(c, b, query);
    LessComparesKeys(a, c, query);
    KeysOrdered(RankKey(a), RankKey(b), RankKey(c));
  }

  lemma KeysOrdered(s: seq<int>, t: seq<int>, u: seq<int>)
    ensures !LexLess(s, s)
    ensures LexLess(s, t) ==> !LexLess(t, s)
    ensures s == t || LexLess(s, t) || LexLess(t, s)
    ensures LexLess(s, t) && LexLess(t, u) ==> LexLess(s, u)
    ensures !LexLess(s, t) && !LexLess(t, u) ==> !LexLess(s, u)
  {
    LexTotal(s, t);
    LexTotal(t, u);
    LexTotal(s, u);
    if LexLess(s, t) && LexLess(t, u) {
      LexTransitive(s, t, u);
    }
    if LexLess(t, s) && LexLess(u, t) {
      LexTransitive(u, t, s);
    }
  }
}
