/** The greedy subsequence matcher (src/core/Candidate.cpp:78-131). */
module Matching {
  import opened Bytes
  import opened Characters
  import opened CodePoints
  import opened Words
  import opened WordCharacters
  import opened Ranking

  // Candidate positions, strictly increasing, at which the query matches character by character.
  ghost predicate IsEmbedding(query: seq<Character>, text: seq<Character>, positions: seq<nat>) {
    && |positions| == |query|
    && StrictlyIncreasing(positions)
    && forall k :: 0 <= k < |query| ==> positions[k] < |text| && query[k].MatchesSmart(text[positions[k]])
  }

  ghost predicate Embeds(query: seq<Character>, text: seq<Character>) {
    exists positions: seq<nat> :: IsEmbedding(query, text, positions)
  }

  function Sum(positions: seq<nat>): nat {
    if positions == [] then 0 else Sum(positions[..|positions| - 1]) + positions[|positions| - 1]
  }

  // The first position for each query character in turn, from `from` on.
  function Greedy(query: seq<Character>, text: seq<Character>, from: nat): (r: Option<seq<nat>>)
    requires from <= |text|
    ensures r.Some? ==> |r.value| == |query|
    decreases |text| - from
  {
    if query == [] then Some([])
    else if from == |text| then None
    else if query[0].MatchesSmart(text[from]) then
      Place([from], Greedy(query[1..], text, from + 1))
    else Greedy(query, text, from + 1)
  }

  // Smart matching of the query against the candidate, as the result of the least embedding.
  function MatchOf(candidate: Candidate, query: Word): Option<RankedResult> {
    if query.IsEmpty() then Some(Rank(candidate, query, 0, false))
    else match Greedy(query.characters, candidate.word.characters, 0)
      case None => None
      case Some(positions) =>
        Some(Rank(candidate, query, Sum(positions), positions[|positions| - 1] == |positions| - 1))
  }

  method Matched(candidate: Candidate, query: Word, indexSum: nat, isPrefix: bool) returns (r: Option<RankedResult>)
    ensures r == Some(Rank(candidate, query, indexSum, isPrefix))
  {
    var result := ConstructResult(candidate, query, indexSum, isPrefix);
    return Some(result);
  }

  /** QueryMatchResult: None stands for the empty Result, which is no subsequence. */
  method QueryMatchResult(candidate: Candidate, query: Word) returns (r: Option<RankedResult>)
    ensures r == MatchOf(candidate, query)
  {
    if query.IsEmpty() {
      r := Matched(candidate, query, 0, false);
      return;
    }
    var text := candidate.word.characters;
    if candidate.word.Length() < query.Length() {
      GreedyFits(query.characters, text, 0);
      return None;
    }
    var queryIndex, indexSum := 0, 0;
    ghost var placed: seq<nat> := [];
    assert query.characters[0..] == query.characters;
    PlaceNone(Greedy(query.characters, text, 0));
    for candidateIndex := 0 to |text|
      invariant 0 <= queryIndex < query.Length()
      invariant |placed| == queryIndex && indexSum == Sum(placed)
      invariant Greedy(query.characters, text, 0) ==
                Place(placed, Greedy(query.characters[queryIndex..], text, candidateIndex))
    {
      GreedyTurn(query.characters, text, queryIndex, candidateIndex, placed);
      if query.characters[queryIndex].MatchesSmart(text[candidateIndex]) {
        indexSum := indexSum + candidateIndex;
        placed := placed + [candidateIndex];
        if queryIndex + 1 == query.Length() {
          AllPlaced(query.characters, text, candidateIndex + 1, placed);
          r := Matched(candidate, query, indexSum, candidateIndex == queryIndex);
          return;
        }
        queryIndex := queryIndex + 1;
      }
    }
    return None;
  }

  // The positions placed so far, followed by those still to come.
  function Place(placed: seq<nat>, rest: Option<seq<nat>>): Option<seq<nat>> {
    match rest
    case None => None
    case Some(positions) => Some(placed + positions)
  }

  lemma PlaceNone(rest: Option<seq<nat>>)
    ensures Place([], rest) == rest
  {
    assert rest.Some? ==> [] + rest.value == rest.value;
  }

  lemma PlaceOne(placed: seq<nat>, position: nat, rest: Option<seq<nat>>)
    ensures Place(placed, Place([position], rest)) == Place(placed + [position], rest)
    ensures Sum(placed + [position]) == Sum(placed) + position
  {
    assert rest.Some? ==> placed + ([position] + rest.value) == (placed + [position]) + rest.value;
    assert (placed + [position])[..|placed|] == placed;
  }

  // One turn of the loop.
  lemma GreedyTurn(query: seq<Character>, text: seq<Character>, queryIndex: nat, candidateIndex: nat,
                   placed: seq<nat>)
    requires queryIndex < |query| && candidateIndex < |text|
    ensures Place(placed, Greedy(query[queryIndex..], text, candidateIndex)) ==
            if query[queryIndex].MatchesSmart(text[candidateIndex])
            then Place(placed + [candidateIndex], Greedy(query[queryIndex + 1..], text, candidateIndex + 1))
            else Place(placed, Greedy(query[queryIndex..], text, candidateIndex + 1))
    ensures Sum(placed + [candidateIndex]) == Sum(placed) + candidateIndex
  {
    assert query[queryIndex..][1..] == query[queryIndex + 1..];
    PlaceOne(placed, candidateIndex, Greedy(query[queryIndex + 1..], text, candidateIndex + 1));
  }

  // After the last query character there is nothing to place.
  lemma AllPlaced(query: seq<Character>, text: seq<Character>, from: nat, placed: seq<nat>)
    requires from <= |text|
    ensures Place(placed, Greedy(query[|query|..], text, from)) == Some(placed)
  {
    assert query[|query|..] == [] && placed + [] == placed;
  }

  lemma {:induction false} GreedyFits(query: seq<Character>, text: seq<Character>, from: nat)
    requires from <= |text|
    ensures Greedy(query, text, from).Some? ==> |query| <= |text| - from
    decreases |text| - from
  {
    if query == [] || from == |text| {
    } else {
      GreedyFits(query[1..], text, from + 1);
      GreedyFits(query, text, from + 1);
    }
  }

  /** The greedy positions are an embedding, and no embedding is smaller at any position. */
  lemma {:induction false} GreedySound(query: seq<Character>, text: seq<Character>, from: nat)
    requires from <= |text|
    ensures Greedy(query, text, from).Some? ==>
              var positions := Greedy(query, text, from).value;
              IsEmbedding(query, text, positions) && forall k :: 0 <= k < |positions| ==> from <= positions[k]
    decreases |text| - from
  {
    if query == [] || from == |text| {
    } else {
      if query[0].MatchesSmart(text[from]) {
        GreedySound(query[1..], text, from + 1);
      } else {
        GreedySound(query, text, from + 1);
      }
    }
  }

  lemma {:induction false} GreedyLeast(query: seq<Character>, text: seq<Character>, from: nat, other: seq<nat>)
    requires from <= |text| && IsEmbedding(query, text, other)
    requires forall k :: 0 <= k < |other| ==> from <= other[k]
    ensures Greedy(query, text, from).Some?
    ensures forall k :: 0 <= k < |query| ==> Greedy(query, text, from).value[k] <= other[k]
    decreases |text| - from
  {
    if query == [] {
    } else {
      if query[0].MatchesSmart(text[from]) {
        var rest := other[1..];
        assert forall k :: 0 <= k < |rest| ==> rest[k] == other[k + 1] && other[0] < other[k + 1];
        GreedyLeast(query[1..], text, from + 1, rest);
      } else {
        assert other[0] != from;
        assert forall k :: 0 < k < |other| ==> other[0] < other[k];
        GreedyLeast(query, text, from + 1, other);
      }
    }
  }

  /** The matcher succeeds exactly when some embedding exists. */
  lemma MatchIffEmbeds(candidate: Candidate, query: Word)
    ensures MatchOf(candidate, query).Some? <==> Embeds(query.characters, candidate.word.characters)
  {
    var q, text := query.characters, candidate.word.characters;
    GreedySound(q, text, 0);
    if positions: seq<nat> :| IsEmbedding(q, text, positions) {
      GreedyLeast(q, text, 0, positions);
    }
    if q == [] {
      assert IsEmbedding(q, text, []);
    }
  }

  // Candidate positions, strictly increasing, that meet the table of smart matching at every query character.
  ghost predicate IsTableEmbedding(query: seq<Character>, text: seq<Character>, positions: seq<nat>) {
    && |positions| == |query|
    && (forall i, j :: 0 <= i < j < |positions| ==> positions[i] < positions[j])
    && forall k :: 0 <= k < |query| ==> positions[k] < |text| && MatchesByTable(query[k], text[positions[k]])
  }

  ghost predicate AreBuilt(u: Unicode, characters: seq<Character>) {
    forall c :: c in characters ==> IsBuiltCharacter(u, c)
  }

  /** Between words, an embedding is one by the table, and puts every uppercase query character on an uppercase one. */
  lemma EmbeddingByTable(u: Unicode, query: seq<Character>, text: seq<Character>, positions: seq<nat>)
    requires Sorts(u.sortByClass) && NormalClosed(u.table) && AreBuilt(u, query) && AreBuilt(u, text)
    ensures IsEmbedding(query, text, positions) <==> IsTableEmbedding(query, text, positions)
    ensures IsEmbedding(query, text, positions) ==>
              forall k :: 0 <= k < |query| && query[k].isUppercase ==> text[positions[k]].isUppercase
  {
    forall k, p | 0 <= k < |query| && 0 <= p < |text|
      ensures query[k].MatchesSmart(text[p]) <==> MatchesByTable(query[k], text[p])
    {
      assert query[k] in query && text[p] in text;
      SmartMatchIsTable(u, query[k], text[p]);
    }
  }

  /** So between words the matcher succeeds exactly when positions by the table exist. */
  lemma MatchIffTable(u: Unicode, candidate: Candidate, query: Word)
    requires Sorts(u.sortByClass) && NormalClosed(u.table)
    requires AreBuilt(u, query.characters) && AreBuilt(u, candidate.word.characters)
    ensures MatchOf(candidate, query).Some? <==>
            exists positions: seq<nat> :: IsTableEmbedding(query.characters, candidate.word.characters, positions)
  {
    MatchIffEmbeds(candidate, query);
    forall positions: seq<nat>
      ensures IsEmbedding(query.characters, candidate.word.characters, positions)
              <==> IsTableEmbedding(query.characters, candidate.word.characters, positions)
    {
      EmbeddingByTable(u, query.characters, candidate.word.characters, positions);
    }
  }

  /** Its index sum is the least of all embeddings, and is attained. */
  lemma MatchSumLeast(candidate: Candidate, query: Word)
    requires MatchOf(candidate, query).Some?
    ensures var sum, q, text :=
              MatchOf(candidate, query).value.charMatchIndexSum, query.characters, candidate.word.characters;
            && (exists positions: seq<nat> :: IsEmbedding(q, text, positions) && Sum(positions) == sum)
            && (forall positions: seq<nat> :: IsEmbedding(q, text, positions) ==> sum <= Sum(positions))
  {
    var q, text := query.characters, candidate.word.characters;
    if q == [] {
      assert IsEmbedding(q, text, []) && Sum([]) == 0;
    } else {
      GreedySound(q, text, 0);
      var least := Greedy(q, text, 0).value;
      assert IsEmbedding(q, text, least) && Sum(least) == MatchOf(candidate, query).value.charMatchIndexSum;
      forall positions: seq<nat> | IsEmbedding(q, text, positions) ensures Sum(least) <= Sum(positions) {
        GreedyLeast(q, text, 0, positions);
        SumMonotone(least, positions);
      }
    }
  }

  lemma {:induction false} SumMonotone(a: seq<nat>, b: seq<nat>)
    requires |a| == |b| && forall k :: 0 <= k < |a| ==> a[k] <= b[k]
    ensures Sum(a) <= Sum(b)
  {
    if a == [] {
    } else {
      SumMonotone(a[..|a| - 1], b[..|b| - 1]);
    }
  }

  lemma {:induction false} IncreasingAtLeastIndex(positions: seq<nat>, k: nat)
    requires StrictlyIncreasing(positions) && k < |positions|
    ensures k <= positions[k]
  {
    if k == 0 {
    } else {
      IncreasingAtLeastIndex(positions, k - 1);
    }
  }

  function Triangle(m: nat): nat {
    if m == 0 then 0 else Triangle(m - 1) + m - 1
  }

  lemma {:induction false} TriangleFormula(m: nat)
    ensures 2 * Triangle(m) == m * (m - 1)
  {
    if m == 0 {
    } else {
      TriangleFormula(m - 1);
    }
  }

  lemma {:induction false} SumOfIncreasing(positions: seq<nat>)
    requires StrictlyIncreasing(positions)
    ensures Triangle(|positions|) <= Sum(positions)
    ensures Sum(positions) == Triangle(|positions|) <==>
            forall k :: 0 <= k < |positions| ==> positions[k] == k
  {
    var m := |positions|;
    if m == 0 {
    } else {
      SumOfIncreasing(positions[..m - 1]);
      IncreasingAtLeastIndex(positions, m - 1);
    }
  }

  lemma LastAtIndex(positions: seq<nat>)
    requires StrictlyIncreasing(positions) && positions != []
    ensures positions[|positions| - 1] == |positions| - 1 <==>
            forall k :: 0 <= k < |positions| ==> positions[k] == k
  {
    if positions[|positions| - 1] == |positions| - 1 {
      forall k | 0 <= k < |positions| ensures positions[k] == k {
        IncreasingAtLeastIndex(positions, k);
        GapsAtLeastOne(positions, k, |positions| - 1);
      }
    }
  }

  lemma {:induction false} GapsAtLeastOne(positions: seq<nat>, k: nat, l: nat)
    requires StrictlyIncreasing(positions) && k <= l < |positions|
    ensures l - k <= positions[l] - positions[k]
    decreases l
  {
    if k == l {
    } else {
      GapsAtLeastOne(positions, k, l - 1);
    }
  }

  ghost predicate MatchesPointwise(query: seq<Character>, text: seq<Character>) {
    |query| <= |text| && forall k :: 0 <= k < |query| ==> query[k].MatchesSmart(text[k])
  }

  lemma PointwiseEmbeds(query: seq<Character>, text: seq<Character>) returns (positions: seq<nat>)
    requires MatchesPointwise(query, text)
    ensures IsEmbedding(query, text, positions)
    ensures forall k :: 0 <= k < |query| ==> positions[k] == k
  {
    positions := seq(|query|, k => k);
  }

  lemma FirstMatchPointwise(query: seq<Character>, text: seq<Character>, positions: seq<nat>)
    requires IsEmbedding(query, text, positions)
    requires forall k :: 0 <= k < |query| ==> positions[k] == k
    ensures MatchesPointwise(query, text)
  {
    assert |query| > 0 ==> positions[|query| - 1] == |query| - 1;
    forall k | 0 <= k < |query| ensures k < |text| && query[k].MatchesSmart(text[k]) {
      assert positions[k] == k;
    }
  }

  lemma PointwiseIffFirst(query: seq<Character>, text: seq<Character>)
    requires Greedy(query, text, 0).Some?
    ensures MatchesPointwise(query, text) <==>
            forall k :: 0 <= k < |query| ==> Greedy(query, text, 0).value[k] == k
  {
    GreedySound(query, text, 0);
    var least := Greedy(query, text, 0).value;
    if MatchesPointwise(query, text) {
      var first := PointwiseEmbeds(query, text);
      GreedyLeast(query, text, 0, first);
      forall k | 0 <= k < |least| ensures least[k] == k {
        assert least[k] <= first[k];
        IncreasingAtLeastIndex(least, k);
      }
    }
    if forall k :: 0 <= k < |query| ==> least[k] == k {
      FirstMatchPointwise(query, text, least);
    }
  }

  /** For a non-empty query of length m, the sum is at least m(m-1)/2; it is that, exactly when the prefix
      flag is set, exactly when the first m characters of the candidate match pointwise. */
  lemma PrefixFlag(candidate: Candidate, query: Word)
    requires MatchOf(candidate, query).Some? && !query.IsEmpty()
    ensures var r, m := MatchOf(candidate, query).value, query.Length();
            && m * (m - 1) <= 2 * r.charMatchIndexSum
            && (r.queryIsCandidatePrefix <==> 2 * r.charMatchIndexSum == m * (m - 1))
            && (r.queryIsCandidatePrefix <==> MatchesPointwise(query.characters, candidate.word.characters))
  {
    var q, text := query.characters, candidate.word.characters;
    GreedySound(q, text, 0);
    var least := Greedy(q, text, 0).value;
    TriangleFormula(|least|);
    SumOfIncreasing(least);
    LastAtIndex(least);
    PointwiseIffFirst(q, text);
  }
}
