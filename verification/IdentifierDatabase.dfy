/** The identifier database (src/core/IdentifierDatabase.h, src/core/IdentifierDatabase.cpp). */
module Database {
  import opened Bytes
  import opened CodePoints
  import opened Characters
  import opened Words
  import opened WordCharacters
  import opened Ranking
  import opened Matching
  import opened Repositories
  import opened Sorting
  import Prefilter

  // filetype -> (filepath -> candidates)
  type FiletypeCandidateMap = map<string, map<string, seq<Candidate>>>

  // The same shape, as it comes from outside: texts in place of candidates.
  type FiletypeIdentifierMap = map<string, map<string, seq<ByteString>>>

  function Named(identifierMap: FiletypeIdentifierMap): set<(string, string)> {
    set ft, fp | ft in identifierMap && fp in identifierMap[ft] :: (ft, fp)
  }

  function Files(filetype: string, filepaths: set<string>): set<(string, string)> {
    set fp | fp in filepaths :: (filetype, fp)
  }

  function Slot(m: FiletypeCandidateMap, filetype: string, filepath: string): seq<Candidate> {
    if filetype in m && filepath in m[filetype] then m[filetype][filepath] else []
  }

  function WithSlot(m: FiletypeCandidateMap, filetype: string, filepath: string, candidates: seq<Candidate>)
    : FiletypeCandidateMap
  {
    m[filetype := (if filetype in m then m[filetype] else map[])[filepath := candidates]]
  }

  lemma SlotOfWithSlot(m: FiletypeCandidateMap, filetype: string, filepath: string, candidates: seq<Candidate>,
                       ft: string, fp: string)
    ensures Slot(WithSlot(m, filetype, filepath, candidates), ft, fp) ==
            if (ft, fp) == (filetype, filepath) then candidates else Slot(m, ft, fp)
  {
  }

  lemma WithSlotTwice(m: FiletypeCandidateMap, filetype: string, filepath: string,
                      first: seq<Candidate>, second: seq<Candidate>)
    ensures WithSlot(WithSlot(m, filetype, filepath, first), filetype, filepath, second) ==
            WithSlot(m, filetype, filepath, second)
  {
    var paths := if filetype in m then m[filetype] else map[];
    assert paths[filepath := first][filepath := second] == paths[filepath := second];
  }

  // A stored candidate: at most 80 bytes, and what construction makes of its text.
  predicate IsBuilt(u: Unicode, c: Candidate) {
    |c.word.text| <= 80 && BuildCandidate(u, c.word.text) == Ok(c)
  }

  // The text of a candidate made of an identifier: the identifier, or nothing if it is over 80 bytes.
  ghost predicate IsClipped(c: Candidate, identifier: ByteString) {
    c.word.text == if |identifier| <= 80 then identifier else []
  }

  ghost predicate AreClipped(candidates: seq<Candidate>, identifiers: seq<ByteString>) {
    |candidates| == |identifiers| && forall i :: 0 <= i < |identifiers| ==> IsClipped(candidates[i], identifiers[i])
  }

  lemma FreshIsBuilt(u: Unicode, text: ByteString, c: Candidate)
    requires |text| <= 80 && CandidateBuilder(u)(text) == Ok(c)
    ensures IsBuilt(u, c) && c.word.text == text
  {
    assert BuildWord(u, text) == Ok(c.word);
  }

  ghost predicate AllBuilt(u: Unicode, m: FiletypeCandidateMap) {
    forall ft, fp, c :: ft in m && fp in m[ft] && c in m[ft][fp] ==> IsBuilt(u, c)
  }

  lemma AllBuiltWithSlot(u: Unicode, m: FiletypeCandidateMap, filetype: string, filepath: string,
                         candidates: seq<Candidate>)
    requires AllBuilt(u, m) && forall c :: c in candidates ==> IsBuilt(u, c)
    ensures AllBuilt(u, WithSlot(m, filetype, filepath, candidates))
  {
  }

  lemma StoredBuilt(u: Unicode, m: FiletypeCandidateMap, filetype: string)
    requires AllBuilt(u, m)
    ensures forall c :: c in Stored(m, filetype) ==> IsBuilt(u, c)
  {
  }

  lemma SlotBuilt(u: Unicode, m: FiletypeCandidateMap, filetype: string, filepath: string)
    requires AllBuilt(u, m)
    ensures forall c :: c in Slot(m, filetype, filepath) ==> IsBuilt(u, c)
  {
  }

  predicate HasText(candidates: seq<Candidate>, text: ByteString) {
    exists i :: 0 <= i < |candidates| && candidates[i].word.text == text
  }

  function AddOnce(candidates: seq<Candidate>, candidate: Candidate): seq<Candidate> {
    if HasText(candidates, candidate.word.text) then candidates else candidates + [candidate]
  }

  // What adding an identifier does to a slot: it keeps what is there, in order, and then has the clipped text, which it
  // appends only if it was not there.
  ghost predicate IsAddedTo(before: seq<Candidate>, after: seq<Candidate>, identifier: ByteString) {
    var text: ByteString := if |identifier| <= 80 then identifier else [];
    && before <= after && |after| <= |before| + 1
    && (forall t :: IsTextOf(after, t) <==> IsTextOf(before, t) || t == text)
    && (IsTextOf(before, text) ==> after == before)
  }

  ghost predicate IsTextOf(candidates: seq<Candidate>, text: ByteString) {
    exists c :: c in candidates && c.word.text == text
  }

  lemma AddOnceAdds(before: seq<Candidate>, c: Candidate, identifier: ByteString)
    requires IsClipped(c, identifier)
    ensures IsAddedTo(before, AddOnce(before, c), identifier)
  {
    var after := AddOnce(before, c);
    forall t: ByteString
      ensures HasText(before, t) <==> IsTextOf(before, t)
    {
      assert forall k :: 0 <= k < |before| ==> before[k] in before;
    }
    assert forall d :: d in after <==> d in before || (d == c && !HasText(before, c.word.text));
  }

  /** Adding is idempotent and never makes a text occur twice. */
  lemma AddOnceIdempotent(candidates: seq<Candidate>, candidate: Candidate)
    ensures AddOnce(AddOnce(candidates, candidate), candidate) == AddOnce(candidates, candidate)
    ensures HasText(AddOnce(candidates, candidate), candidate.word.text)
    ensures (forall i, j :: 0 <= i < j < |candidates| ==> candidates[i].word.text != candidates[j].word.text) ==>
            var r := AddOnce(candidates, candidate);
            forall i, j :: 0 <= i < j < |r| ==> r[i].word.text != r[j].word.text
  {
    if !HasText(candidates, candidate.word.text) {
      var r := candidates + [candidate];
      assert r[|candidates|].word.text == candidate.word.text;
      assert HasText(r, candidate.word.text);
    }
  }

  // ----- What a query finds -----

  function Stored(m: FiletypeCandidateMap, filetype: string): set<Candidate> {
    if filetype !in m then {}
    else CandidatesIn(m[filetype], m[filetype].Keys)
  }

  function Members(candidates: seq<Candidate>): set<Candidate> {
    set c | c in candidates
  }

  lemma MembersGrow(visited: set<Candidate>, candidates: seq<Candidate>, i: nat)
    requires i < |candidates|
    ensures visited + Members(candidates[..i]) + {candidates[i]} == visited + Members(candidates[..i + 1])
  {
    assert candidates[..i + 1] == candidates[..i] + [candidates[i]];
  }

  function CandidatesIn(paths: map<string, seq<Candidate>>, done: set<string>): set<Candidate> {
    set fp, c | fp in paths && fp in done && c in paths[fp] :: c
  }

  lemma CandidatesGrow(paths: map<string, seq<Candidate>>, done: set<string>, filepath: string)
    requires filepath in paths
    ensures CandidatesIn(paths, done + {filepath}) == CandidatesIn(paths, done) + Members(paths[filepath])
  {
  }

  lemma StoredInSlots(m: FiletypeCandidateMap, filetype: string, c: Candidate)
    ensures c in Stored(m, filetype) <==> exists fp :: c in Slot(m, filetype, fp)
  {
    if filetype in m {
      forall fp ensures c in Slot(m, filetype, fp) <==> fp in m[filetype] && c in m[filetype][fp] {
      }
    }
  }

  // A candidate the loop keeps: not empty, past the prefilter, and matched.
  predicate Survives(c: Candidate, query: Word) {
    !c.word.IsEmpty() && c.word.ContainsBytes(query) && MatchOf(c, query).Some?
  }

  ghost function HitsOf(candidates: set<Candidate>, query: Word): set<RankedResult> {
    set c | c in candidates && Survives(c, query) :: MatchOf(c, query).value
  }

  ghost predicate IsMatch(c: Candidate, query: Word) {
    !c.word.IsEmpty() && Embeds(query.characters, c.word.characters)
  }

  // The same without the prefilter: the non-empty candidates the query embeds in.
  ghost function MatchesOf(candidates: set<Candidate>, query: Word): set<RankedResult> {
    set c | c in candidates && IsMatch(c, query) :: RankedMatch(c, query)
  }

  ghost function LeastSum(c: Candidate, query: Word): (sum: nat)
    requires Embeds(query.characters, c.word.characters)
    ensures exists positions: seq<nat> ::
              IsEmbedding(query.characters, c.word.characters, positions) && Sum(positions) == sum
    ensures forall positions: seq<nat> ::
              IsEmbedding(query.characters, c.word.characters, positions) ==> sum <= Sum(positions)
  {
    MatchIffEmbeds(c, query);
    MatchSumLeast(c, query);
    MatchOf(c, query).value.charMatchIndexSum
  }

  ghost predicate IsPrefixMatch(c: Candidate, query: Word) {
    !query.IsEmpty() && MatchesPointwise(query.characters, c.word.characters)
  }

  // A match, ranked.
  ghost function RankedMatch(c: Candidate, query: Word): (r: RankedResult)
    requires IsMatch(c, query)
    ensures r.candidate == c
  {
    Rank(c, query, LeastSum(c, query), IsPrefixMatch(c, query))
  }

  /** A match is the ranked result of the least index sum and of the pointwise prefix test. */
  lemma MatchIsRank(c: Candidate, query: Word)
    requires Embeds(query.characters, c.word.characters)
    ensures MatchOf(c, query) == Some(Rank(c, query, LeastSum(c, query), IsPrefixMatch(c, query)))
  {
    MatchIffEmbeds(c, query);
    if !query.IsEmpty() {
      PrefixFlag(c, query);
    }
  }

  // Between the query and every candidate, folding respects the base: the prefilter has nothing to drop.
  ghost predicate NothingToDrop(candidates: set<Candidate>, query: Word) {
    forall c :: c in candidates ==> Prefilter.FoldingRespects(query.characters, c.word.characters)
  }

  /** Then the prefilter is invisible: filtering first changes no answer. */
  lemma PrefilterInvisible(u: Unicode, candidates: set<Candidate>, text: ByteString)
    requires Sorts(u.sortByClass) && NormalClosed(u.table) && BuildWord(u, text).Ok?
    requires forall c :: c in candidates ==> IsBuilt(u, c)
    requires NothingToDrop(candidates, BuildWord(u, text).value)
    ensures HitsOf(candidates, BuildWord(u, text).value) == MatchesOf(candidates, BuildWord(u, text).value)
  {
    var query := BuildWord(u, text).value;
    forall c | c in candidates
      ensures Survives(c, query) <==> IsMatch(c, query)
      ensures Survives(c, query) ==> MatchOf(c, query).value == RankedMatch(c, query)
    {
      MatchIffEmbeds(c, query);
      assert BuildWord(u, c.word.text) == Ok(c.word);
      Prefilter.PrefilterSound(u, text, c.word.text);
      if Survives(c, query) {
        MatchIsRank(c, query);
      }
    }
  }

  // The characters of built words.
  lemma CharactersBuilt(u: Unicode, text: ByteString)
    requires BuildWord(u, text).Ok?
    ensures AreBuilt(u, BuildWord(u, text).value.characters)
  {
    forall c | c in BuildWord(u, text).value.characters ensures IsBuiltCharacter(u, c) {
      assert BuildWord(u, text).Ok?;
    }
  }

  /** A stored candidate matches a query exactly when it is not empty and has positions by the table. */
  lemma MatchByTable(u: Unicode, c: Candidate, text: ByteString)
    requires Sorts(u.sortByClass) && NormalClosed(u.table) && IsBuilt(u, c) && BuildWord(u, text).Ok?
    ensures var query := BuildWord(u, text).value;
            IsMatch(c, query) <==>
            && c.word.characters != []
            && exists positions: seq<nat> :: IsTableEmbedding(query.characters, c.word.characters, positions)
  {
    var query := BuildWord(u, text).value;
    CharactersBuilt(u, text);
    assert BuildWord(u, c.word.text) == Ok(c.word);
    CharactersBuilt(u, c.word.text);
    MatchIffEmbeds(c, query);
    MatchIffTable(u, c, query);
  }

  /** A stored candidate is kept exactly when it is not empty, its bases have every byte the bases of the query have,
      and the query embeds in it. */
  lemma KeptExactly(u: Unicode, c: Candidate, text: ByteString)
    requires Sorts(u.sortByClass) && IsBuilt(u, c) && BuildWord(u, text).Ok?
    ensures var q, t := BuildWord(u, text).value.characters, c.word.characters;
            Survives(c, BuildWord(u, text).value) <==> t != [] && Embeds(q, t) && BasesHaveBytes(t, q)
  {
    assert BuildWord(u, c.word.text) == Ok(c.word);
    MatchIffEmbeds(c, BuildWord(u, text).value);
    BytesContained(c.word.characters, BuildWord(u, text).value.characters);
  }

  // The bases of the text have every byte that the bases of the query have.
  ghost predicate BasesHaveBytes(text: seq<Character>, query: seq<Character>) {
    forall a, b :: a in query && b in a.base ==> exists d :: d in text && b in d.base
  }

  lemma BytesContained(text: seq<Character>, query: seq<Character>)
    ensures BytesPresent(text) * BytesPresent(query) == BytesPresent(query) <==> BasesHaveBytes(text, query)
  {
    if BytesPresent(text) * BytesPresent(query) == BytesPresent(query) {
      forall a, b | a in query && b in a.base ensures exists d :: d in text && b in d.base {
        assert b in BytesPresent(query);
        assert b in BytesPresent(text);
      }
    }
  }

  /** There is nothing to drop among texts whose code points, once normalised, fold within their kind ... */
  lemma StableTextsDropNothing(u: Unicode, candidates: set<Candidate>, text: ByteString)
    requires Sorts(u.sortByClass) && NormalClosed(u.table) && BuildWord(u, text).Ok?
    requires forall c :: c in candidates ==> IsBuilt(u, c) && Prefilter.NormalFoldStable(u.table, c.word.text)
    requires Prefilter.NormalFoldStable(u.table, text)
    ensures NothingToDrop(candidates, BuildWord(u, text).value)
  {
    forall c | c in candidates
      ensures Prefilter.FoldingRespects(BuildWord(u, text).value.characters, c.word.characters)
    {
      assert BuildWord(u, c.word.text) == Ok(c.word);
      Prefilter.StableTextsRespect(u, text, c.word.text);
    }
  }

  /** ... and so among any texts, over a table whose fully decomposed rows do. */
  lemma StableTablesDropNothing(u: Unicode, candidates: set<Candidate>, text: ByteString)
    requires Sorts(u.sortByClass) && NormalClosed(u.table) && Prefilter.TableFoldsWithinKind(u.table)
    requires BuildWord(u, text).Ok? && forall c :: c in candidates ==> IsBuilt(u, c)
    ensures NothingToDrop(candidates, BuildWord(u, text).value)
  {
    Prefilter.TableMakesTextsStable(u.table, text);
    forall c | c in candidates ensures Prefilter.NormalFoldStable(u.table, c.word.text) {
      Prefilter.TableMakesTextsStable(u.table, c.word.text);
    }
    StableTextsDropNothing(u, candidates, text);
  }

  /** Candidates are told apart by their texts: no two hits have the same text. */
  lemma HitsDistinctTexts(u: Unicode, candidates: set<Candidate>, query: Word, a: RankedResult, b: RankedResult)
    requires forall c :: c in candidates ==> IsBuilt(u, c)
    requires a in HitsOf(candidates, query) && b in HitsOf(candidates, query)
    requires a.candidate.word.text == b.candidate.word.text
    ensures a == b
  {
    assert BuildCandidate(u, a.candidate.word.text) == Ok(a.candidate);
    assert BuildCandidate(u, b.candidate.word.text) == Ok(b.candidate);
  }

  // The best `requested` of a set of results (all of them when it is 0 or too large), each once, in order.
  ghost predicate IsBestOf(hits: set<RankedResult>, requested: nat, answer: seq<RankedResult>) {
    && |answer| == KeptCount(requested, |hits|)
    && (forall i, j :: 0 <= i < j < |answer| ==> answer[i] != answer[j] && !Less(answer[j], answer[i]))
    && (forall r :: r in answer ==> r in hits)
    && (forall r, s :: r in answer && s in hits && s !in answer ==> !Less(s, r))
  }

  /** When nothing is cut off, the answer holds every hit. */
  lemma BestOfAll(hits: set<RankedResult>, requested: nat, answer: seq<RankedResult>)
    requires IsBestOf(hits, requested, answer) && (requested == 0 || |hits| <= requested)
    ensures forall r :: r in answer <==> r in hits
  {
    var found := set r | r in answer;
    DistinctSize(answer, found);
    if found != hits {
      assert found <= hits;
      var missing :| missing in hits && missing !in found;
      assert found <= hits - {missing};
      SubsetSize(found, hits - {missing});
    }
  }

  // In the texts of the answer none is repeated.
  ghost predicate NoTextTwice(answer: seq<RankedResult>) {
    forall i, j :: 0 <= i < j < |answer| ==> answer[i].candidate.word.text != answer[j].candidate.word.text
  }

  lemma TextsDistinct(u: Unicode, candidates: set<Candidate>, query: Word, requested: nat, answer: seq<RankedResult>)
    requires forall c :: c in candidates ==> IsBuilt(u, c)
    requires IsBestOf(MatchesOf(candidates, query), requested, answer)
    ensures NoTextTwice(answer)
  {
    forall i, j | 0 <= i < j < |answer| ensures answer[i].candidate.word.text != answer[j].candidate.word.text {
      if answer[i].candidate.word.text == answer[j].candidate.word.text {
        assert answer[i] in answer && answer[j] in answer;
        MatchesDistinctTexts(u, candidates, query, answer[i], answer[j]);
      }
    }
  }

  lemma MatchesDistinctTexts(u: Unicode, candidates: set<Candidate>, query: Word, a: RankedResult, b: RankedResult)
    requires forall c :: c in candidates ==> IsBuilt(u, c)
    requires a in MatchesOf(candidates, query) && b in MatchesOf(candidates, query)
    requires a.candidate.word.text == b.candidate.word.text
    ensures a == b
  {
    assert IsBuilt(u, a.candidate) && IsBuilt(u, b.candidate);
  }

  lemma TextsAreAll(candidates: set<Candidate>, query: Word, answer: seq<RankedResult>)
    requires forall r :: r in answer <==> r in MatchesOf(candidates, query)
    ensures (set r | r in answer :: r.candidate.word.text)
            == (set c | c in candidates && IsMatch(c, query) :: c.word.text)
  {
    forall c | c in candidates && IsMatch(c, query)
      ensures c.word.text in set r | r in answer :: r.candidate.word.text
    {
      assert RankedMatch(c, query) in answer;
    }
  }

  /** No text is returned twice, and when nothing is cut off the texts of the answer are exactly those of the
      non-empty candidates the query embeds in. */
  lemma EachTextOnce(u: Unicode, candidates: set<Candidate>, query: Word, requested: nat, answer: seq<RankedResult>)
    requires forall c :: c in candidates ==> IsBuilt(u, c)
    requires IsBestOf(MatchesOf(candidates, query), requested, answer)
    ensures NoTextTwice(answer)
    ensures requested == 0 || |MatchesOf(candidates, query)| <= requested ==>
              (set r | r in answer :: r.candidate.word.text)
              == (set c | c in candidates && IsMatch(c, query) :: c.word.text)
  {
    TextsDistinct(u, candidates, query, requested, answer);
    if requested == 0 || |MatchesOf(candidates, query)| <= requested {
      BestOfAll(MatchesOf(candidates, query), requested, answer);
      TextsAreAll(candidates, query, answer);
    }
  }

  lemma {:induction false} SubsetSize<T>(a: set<T>, b: set<T>)
    requires a <= b
    ensures |a| <= |b|
  {
    if a == {} {
    } else {
      var x :| x in a;
      SubsetSize(a - {x}, b - {x});
    }
  }

  ghost predicate Distinct<T>(s: seq<T>) {
    forall i, j :: 0 <= i < j < |s| ==> s[i] != s[j]
  }

  lemma {:induction false} DistinctSize<T>(s: seq<T>, elements: set<T>)
    requires Distinct(s) && forall x :: x in s <==> x in elements
    ensures |s| == |elements|
  {
    if s == [] {
      assert elements == {};
    } else {
      var last := s[|s| - 1];
      DistinctSize(s[..|s| - 1], elements - {last});
    }
  }

  lemma {:induction false} DistinctCounts<T>(s: seq<T>)
    requires Distinct(s)
    ensures forall x :: multiset(s)[x] <= 1
  {
    if s == [] {
    } else {
      var front, last := s[..|s| - 1], s[|s| - 1];
      assert s == front + [last];
      DistinctCounts(front);
      assert last !in front;
    }
  }

  lemma PermutedDistinct<T>(s: seq<T>, t: seq<T>)
    requires Distinct(s) && multiset(s) == multiset(t)
    ensures Distinct(t)
    ensures forall x :: x in t <==> x in s
  {
    DistinctCounts(s);
    forall i, j | 0 <= i < j < |t| ensures t[i] != t[j] {
      assert t == t[..i] + [t[i]] + t[i + 1..j] + [t[j]] + t[j + 1..];
      assert multiset(t) == multiset(t[..i]) + multiset([t[i]]) + multiset(t[i + 1..j]) + multiset([t[j]])
                            + multiset(t[j + 1..]);
      assert multiset(t)[t[i]] <= 1;
    }
    forall x ensures x in t <==> x in s {
      assert x in multiset(t) <==> x in multiset(s);
    }
  }

  /** A partial sort of the hits, each listed once, keeps the best of them. */
  lemma PartialSortIsBest(hits: set<RankedResult>, results: seq<RankedResult>, requested: nat,
                          arranged: seq<RankedResult>)
    requires Distinct(results) && forall r :: r in results <==> r in hits
    requires IsPartialSort(Less, results, requested, arranged)
    ensures IsBestOf(hits, requested, arranged[..KeptCount(requested, |results|)])
  {
    DistinctSize(results, hits);
    PermutedDistinct(results, arranged);
    var size := KeptCount(requested, |results|);
    var answer := arranged[..size];
    assert forall k :: 0 <= k < size ==> answer[k] == arranged[k];
    forall r, s | r in answer && s in hits && s !in answer ensures !Less(s, r) {
      var i :| 0 <= i < size && arranged[i] == r;
      assert s in arranged;
      var j :| 0 <= j < |arranged| && arranged[j] == s;
    }
  }

  lemma ResultsOrdered(results: seq<RankedResult>, query: Word)
    requires forall r :: r in results ==> ForQuery(r, query)
    ensures StrictWeakOrderOn(Less, results)
  {
    forall x, y | x in results && y in results && Less(x, y) ensures !Less(y, x) {
      LessIsStrictWeakOrder(x, y, y, query);
    }
    forall x, y, z | x in results && y in results && z in results && !Less(x, y) && !Less(y, z)
      ensures !Less(x, z)
    {
      LessIsStrictWeakOrder(x, y, z, query);
    }
  }

  lemma HitsGrow(candidates: set<Candidate>, c: Candidate, query: Word)
    requires c !in candidates
    ensures HitsOf(candidates + {c}, query) ==
            HitsOf(candidates, query) + if Survives(c, query) then {MatchOf(c, query).value} else {}
    ensures Survives(c, query) ==> MatchOf(c, query).value !in HitsOf(candidates, query)
  {
    assert forall d :: Survives(d, query) ==> MatchOf(d, query).value.candidate == d;
  }

  ghost predicate IsCandidateTable(u: Unicode, candidates: Repository<Candidate>)
    reads candidates
  {
    candidates.Valid() && candidates.build == CandidateBuilder(u) && candidates.clips
  }

  // Whatever the candidates looked up are made of is in the tables.
  ghost predicate AllHaveWords(u: Unicode, codePoints: set<ByteString>, characters: set<ByteString>,
                               texts: set<ByteString>) {
    forall text :: text in texts ==> HasWord(u, codePoints, characters, text)
  }

  lemma WordsKept(u: Unicode, codePoints: set<ByteString>, moreCodePoints: set<ByteString>,
                  characters: set<ByteString>, moreCharacters: set<ByteString>, texts: set<ByteString>)
    requires codePoints <= moreCodePoints && characters <= moreCharacters
    requires AllHaveWords(u, codePoints, characters, texts)
    ensures AllHaveWords(u, moreCodePoints, moreCharacters, texts)
  {
    forall text | text in texts ensures HasWord(u, moreCodePoints, moreCharacters, text) {
      assert HasWord(u, codePoints, characters, text);
    }
  }

  // The entries of the three memo tables at some moment.
  datatype Entries = Entries(
    codePoints: map<ByteString, Interned?<CodePoint>>,
    characters: map<ByteString, Interned?<Character>>,
    candidates: map<ByteString, Interned?<Candidate>>)

  lemma TextsGrow(visited: set<Candidate>, candidate: Candidate)
    ensures (set c | c in visited + {candidate} :: c.word.text)
            == (set c | c in visited :: c.word.text) + {candidate.word.text}
  {
  }

  // The hits of a query, each once.
  ghost predicate Lists(results: seq<RankedResult>, hits: set<RankedResult>, query: Word) {
    Distinct(results) && (forall r :: r in results <==> r in hits) && (forall r :: r in results ==> ForQuery(r, query))
  }

  lemma ListsOneMore(results: seq<RankedResult>, hits: set<RankedResult>, hit: RankedResult, query: Word)
    requires Lists(results, hits, query) && hit !in hits && ForQuery(hit, query)
    ensures Lists(results + [hit], hits + {hit}, query)
  {
  }

  ghost predicate StartsWithBase(c: Candidate, query: seq<Character>)
    requires query != []
  {
    c.word.characters != [] && c.word.characters[0].base == query[0].base
  }

  ghost predicate SameStartFirst(answer: seq<RankedResult>, query: seq<Character>) {
    query != [] ==>
      forall i, j :: 0 <= i < j < |answer| && StartsWithBase(answer[j].candidate, query) ==>
                       StartsWithBase(answer[i].candidate, query)
  }

  // A hit tells whether its candidate starts with the base of the query.
  lemma HitStart(candidates: set<Candidate>, query: Word, r: RankedResult)
    requires r in HitsOf(candidates, query) && query.characters != []
    ensures r.query == query && (r.firstCharSame <==> StartsWithBase(r.candidate, query.characters))
  {
    var c :| c in candidates && Survives(c, query) && MatchOf(c, query).value == r;
    RankIsResult(c, query, r.charMatchIndexSum, r.queryIsCandidatePrefix);
  }

  lemma BestStartSame(candidates: set<Candidate>, query: Word, maxResults: nat, answer: seq<RankedResult>)
    requires IsBestOf(HitsOf(candidates, query), maxResults, answer)
    ensures SameStartFirst(answer, query.characters)
  {
    if query.characters != [] {
      forall i, j | 0 <= i < j < |answer| && StartsWithBase(answer[j].candidate, query.characters)
        ensures StartsWithBase(answer[i].candidate, query.characters)
      {
        assert answer[i] in answer && answer[j] in answer;
        HitStart(candidates, query, answer[i]);
        HitStart(candidates, query, answer[j]);
        assert !Less(answer[j], answer[i]);
      }
    }
  }

  // The partial sort of the results of a query.
  method BestOf(results: seq<RankedResult>, ghost candidates: set<Candidate>, ghost query: Word, maxResults: nat)
    returns (best: seq<RankedResult>)
    requires Lists(results, HitsOf(candidates, query), query)
    ensures IsBestOf(HitsOf(candidates, query), maxResults, best)
    ensures |best| == (var found := |HitsOf(candidates, query)|;
                       if 0 < maxResults < found then maxResults else found)
    ensures SameStartFirst(best, query.characters)
  {
    ResultsOrdered(results, query);
    var elements := new RankedResult[|results|](i requires 0 <= i < |results| => results[i]);
    assert elements[..] == results;
    var size := PartialSort(Less, elements, maxResults);
    PartialSortIsBest(HitsOf(candidates, query), results, maxResults, elements[..]);
    assert elements[..][..size] == elements[..size];
    best := elements[..size];
    BestStartSame(candidates, query, maxResults, best);
  }

  lemma StoredInvisible(u: Unicode, m: FiletypeCandidateMap, filetype: string, text: ByteString)
    requires Sorts(u.sortByClass) && AllBuilt(u, m) && BuildWord(u, text).Ok?
    ensures NormalClosed(u.table) && NothingToDrop(Stored(m, filetype), BuildWord(u, text).value) ==>
              HitsOf(Stored(m, filetype), BuildWord(u, text).value)
              == MatchesOf(Stored(m, filetype), BuildWord(u, text).value)
  {
    if NormalClosed(u.table) && NothingToDrop(Stored(m, filetype), BuildWord(u, text).value) {
      StoredBuilt(u, m, filetype);
      PrefilterInvisible(u, Stored(m, filetype), text);
    }
  }

  class IdentifierDatabase {
    const unicode: Unicode
    const codePointRepository: Repository<CodePoint>
    const characterRepository: Repository<Character>
    const candidateRepository: Repository<Candidate>
    var filetypeCandidateMap: FiletypeCandidateMap

    // The tables of code points and characters hold whatever these texts are made of.
    ghost predicate HasWords(texts: set<ByteString>)
      reads codePointRepository, characterRepository
    {
      && AreTables(unicode, codePointRepository, characterRepository)
      && AllHaveWords(unicode, codePointRepository.elementHolder.Keys, characterRepository.elementHolder.Keys, texts)
    }

    ghost predicate Valid()
      reads this, codePointRepository, characterRepository, candidateRepository
    {
      && IsCandidateTable(unicode, candidateRepository) && HasWords(candidateRepository.elementHolder.Keys)
      && AllBuilt(unicode, filetypeCandidateMap)
    }

    constructor (u: Unicode, codePoints: Repository<CodePoint>, characters: Repository<Character>,
                 candidates: Repository<Candidate>)
      requires AreTables(u, codePoints, characters) && IsCandidateTable(u, candidates)
      requires AllHaveWords(u, codePoints.elementHolder.Keys, characters.elementHolder.Keys,
                            candidates.elementHolder.Keys)
      ensures Valid() && filetypeCandidateMap == map[] && unicode == u
      ensures candidateRepository == candidates
    {
      unicode := u;
      codePointRepository := codePoints;
      characterRepository := characters;
      candidateRepository := candidates;
      filetypeCandidateMap := map[];
    }

    ghost function InternedNow(): Entries
      reads codePointRepository, characterRepository, candidateRepository
    {
      Entries(codePointRepository.elementHolder, characterRepository.elementHolder, candidateRepository.elementHolder)
    }

    // What the three tables keep of a moment before: every entry.
    ghost predicate Keeps(before: Entries)
      reads codePointRepository, characterRepository, candidateRepository
    {
      && codePointRepository.Extends(before.codePoints, codePointRepository.elementHolder)
      && characterRepository.Extends(before.characters, characterRepository.elementHolder)
      && candidateRepository.Extends(before.candidates, candidateRepository.elementHolder)
    }

    // The texts that making these candidates looks up: all of them, or up to the first that does not decode.
    function LookedUp(identifiers: seq<ByteString>): set<ByteString> {
      var keys := candidateRepository.Keys(identifiers);
      Texts(keys[..Attempted(CandidateBuilder(unicode), keys)])
    }

    // The candidates made of a list of identifiers, clipped to 80 bytes each.
    function Built(identifiers: seq<ByteString>): Result<seq<Candidate>> {
      Traverse(CandidateBuilder(unicode), candidateRepository.Keys(identifiers))
    }

    lemma BuiltAt(identifiers: seq<ByteString>, i: nat)
      requires Built(identifiers).Ok? && candidateRepository.clips && i < |identifiers|
      ensures |Built(identifiers).value| == |identifiers|
      ensures var c := Built(identifiers).value[i]; IsBuilt(unicode, c) && IsClipped(c, identifiers[i])
    {
      var keys := candidateRepository.Keys(identifiers);
      TraverseOk(CandidateBuilder(unicode), keys);
      FreshIsBuilt(unicode, keys[i], Built(identifiers).value[i]);
    }

    lemma BuiltAreBuilt(identifiers: seq<ByteString>)
      requires Built(identifiers).Ok? && candidateRepository.clips
      ensures AreClipped(Built(identifiers).value, identifiers)
      ensures forall c :: c in Built(identifiers).value ==> IsBuilt(unicode, c)
    {
      TraverseOk(CandidateBuilder(unicode), candidateRepository.Keys(identifiers));
      var candidates := Built(identifiers).value;
      forall i | 0 <= i < |identifiers|
        ensures IsBuilt(unicode, candidates[i]) && IsClipped(candidates[i], identifiers[i])
      {
        BuiltAt(identifiers, i);
      }
    }

    lemma GotClipped(before: map<ByteString, Interned?<Candidate>>, elements: seq<ByteString>,
                     objects: seq<Interned<Candidate>>)
      requires IsCandidateTable(unicode, candidateRepository)
      requires candidateRepository.Got(before, elements, Ok(objects))
      ensures AreClipped(Values(objects), elements)
    {
      BuiltAreBuilt(elements);
    }

    // Repository<Candidate>
    method GetCandidate(key: ByteString) returns (element: Interned?<Candidate>)
      requires Valid()
      modifies codePointRepository, characterRepository, candidateRepository
      ensures candidateRepository.GotOne(old(candidateRepository.elementHolder), key, element)
      ensures Valid() && Keeps(old(InternedNow()))
    {
      ghost var before := candidateRepository.elementHolder;
      element := candidateRepository.GetValueElseInsert(key);
      if element == null {
        element := FillEntry(key, before.Keys);
        candidateRepository.OneMade(before, key, element);
      } else {
        candidateRepository.OneKept(before, key);
      }
    }

    // Constructs the candidate of a null entry; if that throws, the entry stays null.
    method FillEntry(key: ByteString, ghost texts: set<ByteString>) returns (element: Interned?<Candidate>)
      requires HasWords(texts) && candidateRepository.build == CandidateBuilder(unicode)
      modifies codePointRepository, characterRepository, candidateRepository
      ensures candidateRepository.Agrees(key, element)
      ensures element == null ==> candidateRepository.elementHolder == old(candidateRepository.elementHolder)
      ensures element != null ==>
                candidateRepository.elementHolder == old(candidateRepository.elementHolder)[key := element]
      ensures HasWords(texts + {key}) && TablesGrow(codePointRepository, characterRepository)
    {
      var built := ConstructCandidate(unicode, codePointRepository, characterRepository, key);
      WordsKept(unicode, old(codePointRepository.elementHolder.Keys), codePointRepository.elementHolder.Keys,
                old(characterRepository.elementHolder.Keys), characterRepository.elementHolder.Keys, texts);
      if built.Ok? {
        element := candidateRepository.Keep(key, built.value);
      } else {
        element := null;
      }
    }

    method GetCandidates(elements: seq<ByteString>) returns (r: Result<seq<Interned<Candidate>>>)
      requires Valid()
      modifies codePointRepository, characterRepository, candidateRepository
      ensures candidateRepository.Got(old(candidateRepository.elementHolder), elements, r)
      // Object i has the text of element i, clipped.
      ensures r.Ok? ==> AreClipped(Values(r.value), elements)
      ensures Valid() && Keeps(old(InternedNow()))
    {
      ghost var initial := candidateRepository.elementHolder;
      var objects: seq<Interned<Candidate>> := [];
      for i := 0 to |elements|
        invariant Valid() && Keeps(old(InternedNow()))
        invariant candidateRepository.GotSoFar(initial, candidateRepository.elementHolder,
                                               candidateRepository.Keys(elements)[..i], objects)
      {
        ghost var before := candidateRepository.elementHolder;
        var element := GetCandidate(candidateRepository.Key(elements[i]));
        if element == null {
          candidateRepository.StopsAt(initial, before, elements, i, objects);
          return Err(candidateRepository.build(candidateRepository.Key(elements[i])).error);
        }
        candidateRepository.GoesOn(initial, before, elements, i, objects, element);
        objects := objects + [element];
      }
      candidateRepository.Ends(initial, elements, objects);
      GotClipped(initial, elements, objects);
      return Ok(objects);
    }

    // map::operator[] twice: makes the slot if it is not there.
    method GetCandidateSet(filetype: string, filepath: string)
      modifies this
      ensures var before := old(filetypeCandidateMap);
              filetypeCandidateMap == WithSlot(before, filetype, filepath, Slot(before, filetype, filepath))
    {
      if filetype !in filetypeCandidateMap {
        filetypeCandidateMap := filetypeCandidateMap[filetype := map[]];
      }
      if filepath !in filetypeCandidateMap[filetype] {
        filetypeCandidateMap := filetypeCandidateMap[filetype := filetypeCandidateMap[filetype][filepath := []]];
      }
      assert filetypeCandidateMap[filetype] ==
             (if filetype in old(filetypeCandidateMap) then old(filetypeCandidateMap)[filetype] else map[])
               [filepath := Slot(old(filetypeCandidateMap), filetype, filepath)];
    }

    // Assigns through the reference GetCandidateSet returned.
    method SetCandidateSet(filetype: string, filepath: string, candidates: seq<Candidate>)
      requires filetype in filetypeCandidateMap && filepath in filetypeCandidateMap[filetype]
      modifies this
      ensures filetypeCandidateMap == WithSlot(old(filetypeCandidateMap), filetype, filepath, candidates)
    {
      filetypeCandidateMap := filetypeCandidateMap[filetype := filetypeCandidateMap[filetype][filepath := candidates]];
    }

    /** RecreateIdentifiers for one slot: its contents become the clipped list, in order; if some text does not
        decode, the old contents stay. */
    method RecreateIdentifiers(newCandidates: seq<ByteString>, filetype: string, filepath: string)
      returns (r: Result<()>)
      requires Valid()
      modifies this, codePointRepository, characterRepository, candidateRepository
      ensures Valid() && Keeps(old(InternedNow()))
      ensures candidateRepository.elementHolder.Keys ==
              old(candidateRepository.elementHolder.Keys) + LookedUp(newCandidates)
      // The slot has a candidate for every identifier, in order, with its text clipped.
      ensures r.Ok? ==> AreClipped(Slot(filetypeCandidateMap, filetype, filepath), newCandidates)
      ensures var before := old(filetypeCandidateMap);
              match Built(newCandidates)
              case Ok(candidates) =>
                r == Ok(()) && filetypeCandidateMap == WithSlot(before, filetype, filepath, candidates)
              case Err(e) =>
                r == Err(e)
                && filetypeCandidateMap == WithSlot(before, filetype, filepath, Slot(before, filetype, filepath))
    {
      ghost var before := filetypeCandidateMap;
      GetCandidateSet(filetype, filepath);
      SlotBuilt(unicode, before, filetype, filepath);
      AllBuiltWithSlot(unicode, before, filetype, filepath, Slot(before, filetype, filepath));
      var pointers := GetCandidates(newCandidates);
      if pointers.Err? {
        return Err(pointers.error);
      }
      var candidates := Values(pointers.value);
      BuiltAreBuilt(newCandidates);
      AllBuiltWithSlot(unicode, before, filetype, filepath, candidates);
      WithSlotTwice(before, filetype, filepath, Slot(before, filetype, filepath), candidates);
      SetCandidateSet(filetype, filepath, candidates);
      SlotOfWithSlot(before, filetype, filepath, candidates, filetype, filepath);
      return Ok(());
    }

    // Exactly the slots in `done` have been recreated from the map.
    ghost predicate Recreated(before: FiletypeCandidateMap, after: FiletypeCandidateMap,
                              identifierMap: FiletypeIdentifierMap, done: set<(string, string)>) {
      && done <= Named(identifierMap)
      && (forall ft, fp :: (ft, fp) in done ==>
            var built := Built(identifierMap[ft][fp]);
            built.Ok? && Slot(after, ft, fp) == built.value)
      && (forall ft, fp :: (ft, fp) !in done ==> Slot(after, ft, fp) == Slot(before, ft, fp))
    }

    // A text of some slot still to be recreated does not decode.
    ghost predicate StoppedAt(identifierMap: FiletypeIdentifierMap, done: set<(string, string)>, error: DecodeError) {
      exists ft, fp :: (ft, fp) in Named(identifierMap) - done && Built(identifierMap[ft][fp]) == Err(error)
    }

    // One turn of the inner loop.
    method RecreateFile(identifierMap: FiletypeIdentifierMap, filetype: string, filepath: string,
                        ghost before: FiletypeCandidateMap, ghost done: set<(string, string)>, ghost entries: Entries)
      returns (r: Result<()>)
      requires Valid() && Keeps(entries) && Recreated(before, filetypeCandidateMap, identifierMap, done)
      requires filetype in identifierMap && filepath in identifierMap[filetype] && (filetype, filepath) !in done
      modifies this, codePointRepository, characterRepository, candidateRepository
      ensures Valid() && Keeps(entries)
      ensures r.Ok? ==> Recreated(before, filetypeCandidateMap, identifierMap, done + {(filetype, filepath)})
      ensures r.Err? ==> Recreated(before, filetypeCandidateMap, identifierMap, done)
      ensures r.Err? ==> StoppedAt(identifierMap, done, r.error)
    {
      ghost var current := filetypeCandidateMap;
      assert (filetype, filepath) in Named(identifierMap) - done;
      r := RecreateIdentifiers(identifierMap[filetype][filepath], filetype, filepath);
      RecreatedOneMore(before, current, filetypeCandidateMap, identifierMap, done, filetype, filepath);
    }

    // The inner loop: the files of one filetype.
    method RecreateFiles(identifierMap: FiletypeIdentifierMap, filetype: string, ghost before: FiletypeCandidateMap,
                         ghost done: set<(string, string)>, ghost entries: Entries)
      returns (r: Result<()>, ghost done': set<(string, string)>)
      requires Valid() && Keeps(entries) && filetype in identifierMap
      requires Recreated(before, filetypeCandidateMap, identifierMap, done)
      requires forall fp :: (filetype, fp) !in done
      modifies this, codePointRepository, characterRepository, candidateRepository
      ensures Valid() && Keeps(entries) && Recreated(before, filetypeCandidateMap, identifierMap, done')
      ensures r.Ok? ==> done' == done + Files(filetype, identifierMap[filetype].Keys)
      ensures r.Err? ==> StoppedAt(identifierMap, done', r.error)
    {
      done' := done;
      var files := identifierMap[filetype].Keys;
      while files != {}
        invariant files <= identifierMap[filetype].Keys && Valid() && Keeps(entries)
        invariant Recreated(before, filetypeCandidateMap, identifierMap, done')
        invariant forall ft, fp :: (ft, fp) in done' <==>
                    (ft, fp) in done || (ft == filetype && fp in identifierMap[filetype] && fp !in files)
        decreases |files|
      {
        var filepath :| filepath in files;
        r := RecreateFile(identifierMap, filetype, filepath, before, done', entries);
        if r.Err? {
          return;
        }
        done' := done' + {(filetype, filepath)};
        files := files - {filepath};
      }
      assert done' == done + Files(filetype, identifierMap[filetype].Keys);
      r := Ok(());
    }

    /** RecreateIdentifiers for a whole map, in whatever order it is walked: every named slot is recreated and no
        other changes; a text that does not decode stops the walk between two slots. */
    method RecreateAllIdentifiers(identifierMap: FiletypeIdentifierMap) returns (r: Result<()>)
      requires Valid()
      modifies this, codePointRepository, characterRepository, candidateRepository
      ensures Valid() && Keeps(old(InternedNow()))
      ensures r.Ok? ==> forall ft, fp :: ft in identifierMap && fp in identifierMap[ft] ==>
                AreClipped(Slot(filetypeCandidateMap, ft, fp), identifierMap[ft][fp])
      ensures r.Ok? ==> Recreated(old(filetypeCandidateMap), filetypeCandidateMap, identifierMap, Named(identifierMap))
      ensures r.Err? ==> exists done: set<(string, string)> ::
                Recreated(old(filetypeCandidateMap), filetypeCandidateMap, identifierMap, done)
                && StoppedAt(identifierMap, done, r.error)
    {
      ghost var done: set<(string, string)> := {};
      var filetypes := identifierMap.Keys;
      while filetypes != {}
        invariant filetypes <= identifierMap.Keys && Valid() && Keeps(old(InternedNow()))
        invariant Recreated(old(filetypeCandidateMap), filetypeCandidateMap, identifierMap, done)
        invariant forall ft, fp :: (ft, fp) in done <==> (ft, fp) in Named(identifierMap) && ft !in filetypes
        decreases |filetypes|
      {
        var filetype :| filetype in filetypes;
        r, done := RecreateFiles(identifierMap, filetype, old(filetypeCandidateMap), done, old(InternedNow()));
        if r.Err? {
          return;
        }
        filetypes := filetypes - {filetype};
      }
      assert done == Named(identifierMap);
      RecreatedClipped(old(filetypeCandidateMap), filetypeCandidateMap, identifierMap);
      r := Ok(());
    }

    lemma RecreatedClipped(before: FiletypeCandidateMap, after: FiletypeCandidateMap,
                           identifierMap: FiletypeIdentifierMap)
      requires candidateRepository.clips && Recreated(before, after, identifierMap, Named(identifierMap))
      ensures forall ft, fp :: ft in identifierMap && fp in identifierMap[ft] ==>
                AreClipped(Slot(after, ft, fp), identifierMap[ft][fp])
    {
      forall ft, fp | ft in identifierMap && fp in identifierMap[ft]
        ensures AreClipped(Slot(after, ft, fp), identifierMap[ft][fp])
      {
        assert (ft, fp) in Named(identifierMap);
        BuiltAreBuilt(identifierMap[ft][fp]);
      }
    }

    lemma RecreatedOneMore(before: FiletypeCandidateMap, current: FiletypeCandidateMap, after: FiletypeCandidateMap,
                           identifierMap: FiletypeIdentifierMap, done: set<(string, string)>,
                           filetype: string, filepath: string)
      requires Recreated(before, current, identifierMap, done) && (filetype, filepath) in Named(identifierMap) - done
      requires var built := Built(identifierMap[filetype][filepath]);
               after == WithSlot(current, filetype, filepath,
                                 if built.Ok? then built.value else Slot(current, filetype, filepath))
      ensures Recreated(before, after, identifierMap,
                        if Built(identifierMap[filetype][filepath]).Ok? then done + {(filetype, filepath)} else done)
    {
      var built := Built(identifierMap[filetype][filepath]);
      var contents := if built.Ok? then built.value else Slot(current, filetype, filepath);
      forall ft, fp
        ensures Slot(after, ft, fp) == if (ft, fp) == (filetype, filepath) then contents else Slot(current, ft, fp)
      {
        SlotOfWithSlot(current, filetype, filepath, contents, ft, fp);
      }
    }

    /** AddSingleIdentifier: the clipped text is appended unless the slot has it; no change if it does not decode. */
    method AddSingleIdentifier(newCandidate: ByteString, filetype: string, filepath: string) returns (r: Result<()>)
      requires Valid()
      modifies this, codePointRepository, characterRepository, candidateRepository
      ensures Valid() && Keeps(old(InternedNow()))
      ensures candidateRepository.elementHolder.Keys ==
              old(candidateRepository.elementHolder.Keys) + {candidateRepository.Key(newCandidate)}
      ensures r.Ok? ==>
                IsAddedTo(Slot(old(filetypeCandidateMap), filetype, filepath),
                          Slot(filetypeCandidateMap, filetype, filepath), newCandidate)
      ensures match BuildCandidate(unicode, candidateRepository.Key(newCandidate))
              case Ok(candidate) =>
                r == Ok(()) && filetypeCandidateMap ==
                  WithSlot(old(filetypeCandidateMap), filetype, filepath,
                           AddOnce(Slot(old(filetypeCandidateMap), filetype, filepath), candidate))
              case Err(e) => r == Err(e) && filetypeCandidateMap == old(filetypeCandidateMap)
    {
      var interned := GetOneElement(newCandidate);
      if interned.Err? {
        return Err(interned.error);
      }
      AddCandidate(interned.value, filetype, filepath);
      ghost var before := Slot(old(filetypeCandidateMap), filetype, filepath);
      AddOnceAdds(before, interned.value, newCandidate);
      ghost var after := AddOnce(before, interned.value);
      SlotOfWithSlot(old(filetypeCandidateMap), filetype, filepath, after, filetype, filepath);
      return Ok(());
    }

    // Appends the candidate to its slot unless the slot has one of its text.
    method AddCandidate(candidate: Candidate, filetype: string, filepath: string)
      requires AllBuilt(unicode, filetypeCandidateMap) && IsBuilt(unicode, candidate)
      modifies this
      ensures AllBuilt(unicode, filetypeCandidateMap)
      ensures filetypeCandidateMap ==
              WithSlot(old(filetypeCandidateMap), filetype, filepath,
                       AddOnce(Slot(old(filetypeCandidateMap), filetype, filepath), candidate))
    {
      ghost var before := filetypeCandidateMap;
      GetCandidateSet(filetype, filepath);
      SlotBuilt(unicode, before, filetype, filepath);
      var current := filetypeCandidateMap[filetype][filepath];
      var found := FindText(current, candidate.word.text);
      if !found {
        SetCandidateSet(filetype, filepath, current + [candidate]);
      }
      WithSlotTwice(before, filetype, filepath, current, current + [candidate]);
      AllBuiltWithSlot(unicode, before, filetype, filepath, AddOnce(current, candidate));
    }

    method GetOneElement(newCandidate: ByteString) returns (r: Result<Candidate>)
      requires Valid()
      modifies codePointRepository, characterRepository, candidateRepository
      ensures Valid() && Keeps(old(InternedNow()))
      ensures candidateRepository.elementHolder.Keys ==
              old(candidateRepository.elementHolder.Keys) + {candidateRepository.Key(newCandidate)}
      ensures r == BuildCandidate(unicode, candidateRepository.Key(newCandidate))
      ensures r.Ok? ==> IsBuilt(unicode, r.value) && IsClipped(r.value, newCandidate)
    {
      var pointers := GetCandidates([newCandidate]);
      assert candidateRepository.Keys([newCandidate]) == [] + [candidateRepository.Key(newCandidate)];
      TraverseSnoc(CandidateBuilder(unicode), [], candidateRepository.Key(newCandidate));
      if pointers.Err? {
        return Err(pointers.error);
      }
      assert Values(pointers.value)[0] == pointers.value[0].value;
      return Ok(pointers.value[0].value);
    }

    // std::find_if over the texts.
    static method FindText(candidates: seq<Candidate>, text: ByteString) returns (found: bool)
      ensures found == HasText(candidates, text)
    {
      for i := 0 to |candidates|
        invariant !HasText(candidates[..i], text)
      {
        if candidates[i].word.text == text {
          return true;
        }
      }
      assert candidates[..|candidates|] == candidates;
      return false;
    }

    /** ResultsForQueryAndType, whatever the order the maps are walked in: the best of the hits, each text once. */
    method ResultsForQueryAndType(query: ByteString, filetype: string, maxResults: nat)
      returns (r: Result<seq<RankedResult>>)
      requires Valid()
      modifies codePointRepository, characterRepository
      ensures Valid() && Keeps(old(InternedNow()))
      ensures filetype !in filetypeCandidateMap ==> r == Ok([])
      ensures filetype in filetypeCandidateMap ==>
                match BuildWord(unicode, query)
                case Err(e) => r == Err(e)
                case Ok(word) =>
                  r.Ok? && IsBestOf(HitsOf(Stored(filetypeCandidateMap, filetype), word), maxResults, r.value)
      // Exactly as many as asked for, or all of them.
      ensures filetype in filetypeCandidateMap && r.Ok? ==>
                var hits := HitsOf(Stored(filetypeCandidateMap, filetype), BuildWord(unicode, query).value);
                |r.value| == if 0 < maxResults < |hits| then maxResults else |hits|
      // No candidate that starts otherwise stands before one that starts with the base of the query.
      ensures filetype in filetypeCandidateMap && r.Ok? ==>
                SameStartFirst(r.value, BuildWord(unicode, query).value.characters)
      // Where there is nothing to drop, the prefilter does not show.
      ensures filetype in filetypeCandidateMap && r.Ok? && NormalClosed(unicode.table)
              && NothingToDrop(Stored(filetypeCandidateMap, filetype), BuildWord(unicode, query).value) ==>
                IsBestOf(MatchesOf(Stored(filetypeCandidateMap, filetype), BuildWord(unicode, query).value), maxResults,
                         r.value)
    {
      if filetype !in filetypeCandidateMap {
        return Ok([]);
      }
      var word := ConstructWord(unicode, codePointRepository, characterRepository, query);
      WordsKept(unicode, old(codePointRepository.elementHolder.Keys), codePointRepository.elementHolder.Keys,
                old(characterRepository.elementHolder.Keys), characterRepository.elementHolder.Keys,
                candidateRepository.elementHolder.Keys);
      if word.Err? {
        return Err(word.error);
      }
      var results := CollectResults(word.value, filetype);
      var best := BestOf(results, Stored(filetypeCandidateMap, filetype), word.value, maxResults);
      StoredInvisible(unicode, filetypeCandidateMap, filetype, query);
      return Ok(best);
    }

    method CollectResults(query: Word, filetype: string) returns (results: seq<RankedResult>)
      requires filetype in filetypeCandidateMap && AllBuilt(unicode, filetypeCandidateMap)
      ensures Lists(results, HitsOf(Stored(filetypeCandidateMap, filetype), query), query)
    {
      var paths := filetypeCandidateMap[filetype];
      var seen: set<ByteString> := {};
      results := [];
      ghost var visited: set<Candidate> := {};
      var remaining := paths.Keys;
      while remaining != {}
        invariant remaining <= paths.Keys
        invariant visited == CandidatesIn(paths, paths.Keys - remaining)
        invariant Collected(query, visited, seen, results)
        decreases |remaining|
      {
        var filepath :| filepath in remaining;
        forall c | c in paths[filepath] ensures IsBuilt(unicode, c) {
        }
        seen, results := CollectFrom(query, paths[filepath], visited, seen, results);
        CandidatesGrow(paths, paths.Keys - remaining, filepath);
        visited := visited + Members(paths[filepath]);
        assert paths.Keys - remaining + {filepath} == paths.Keys - (remaining - {filepath});
        remaining := remaining - {filepath};
      }
      assert paths.Keys - {} == paths.Keys;
    }

    // The loop over the candidates of one file.
    method CollectFrom(query: Word, candidates: seq<Candidate>, ghost visited: set<Candidate>, seen: set<ByteString>,
                       results: seq<RankedResult>)
      returns (seen': set<ByteString>, results': seq<RankedResult>)
      requires Collected(query, visited, seen, results) && forall c :: c in candidates ==> IsBuilt(unicode, c)
      ensures Collected(query, visited + Members(candidates), seen', results')
    {
      seen', results' := seen, results;
      ghost var before := visited;
      assert visited + Members([]) == visited;
      for i := 0 to |candidates|
        invariant before == visited + Members(candidates[..i])
        invariant Collected(query, before, seen', results')
      {
        seen', results' := Consider(query, candidates[i], before, seen', results');
        before := before + {candidates[i]};
        MembersGrow(visited, candidates, i);
      }
      assert candidates[..|candidates|] == candidates;
    }

    // One turn of the loop over candidates.
    method Consider(query: Word, candidate: Candidate, ghost visited: set<Candidate>, seen: set<ByteString>,
                    results: seq<RankedResult>)
      returns (seen': set<ByteString>, results': seq<RankedResult>)
      requires Collected(query, visited, seen, results) && IsBuilt(unicode, candidate)
      ensures Collected(query, visited + {candidate}, seen', results')
    {
      seen', results' := seen, results;
      if candidate.word.text in seen {
        // Candidates with one text are equal: this one was visited before.
        assert visited + {candidate} == visited;
        return;
      }
      CollectedGrow(query, visited, seen, results, candidate);
      seen' := seen + {candidate.word.text};
      if candidate.word.IsEmpty() || !candidate.word.ContainsBytes(query) {
        return;
      }
      var result := QueryMatchResult(candidate, query);
      if result.Some? {
        results' := results + [result.value];
      }
    }

    lemma CollectedGrow(query: Word, visited: set<Candidate>, seen: set<ByteString>, results: seq<RankedResult>,
                        candidate: Candidate)
      requires Collected(query, visited, seen, results) && IsBuilt(unicode, candidate)
      requires candidate.word.text !in seen
      ensures Collected(query, visited + {candidate}, seen + {candidate.word.text},
                        if Survives(candidate, query) then results + [MatchOf(candidate, query).value] else results)
    {
      TextsGrow(visited, candidate);
      HitsGrow(visited, candidate, query);
      if Survives(candidate, query) {
        MatchForQuery(candidate, query);
        ListsOneMore(results, HitsOf(visited, query), MatchOf(candidate, query).value, query);
      } else {
        assert HitsOf(visited, query) + {} == HitsOf(visited, query);
      }
    }

    // The state of the loop: the texts seen and the hits found, each once, are those of the visited candidates.
    ghost predicate Collected(query: Word, visited: set<Candidate>, seen: set<ByteString>, results: seq<RankedResult>) {
      && (forall c :: c in visited ==> IsBuilt(unicode, c))
      && seen == (set c | c in visited :: c.word.text)
      && Lists(results, HitsOf(visited, query), query)
    }
  }

  lemma MatchForQuery(candidate: Candidate, query: Word)
    requires MatchOf(candidate, query).Some?
    ensures ForQuery(MatchOf(candidate, query).value, query)
  {
    var r := MatchOf(candidate, query).value;
    RankForQuery(candidate, query, r.charMatchIndexSum, r.queryIsCandidatePrefix);
  }
}
