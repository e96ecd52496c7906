/** The byte-set prefilter (src/core/Word.h:61-65, src/core/Word.cpp:280-286) against smart matching. */
module Prefilter {
  import opened Bytes
  import opened CodePoints
  import opened Characters
  import opened Segmentation
  import opened Words
  import opened WordCharacters
  import opened Matching
  import Utf8

  function BytesOf(text: ByteString): set<byte> {
    set b | b in text
  }

  lemma EmbeddingKeepsBytes(query: seq<Character>, text: seq<Character>, positions: seq<nat>)
    requires IsEmbedding(query, text, positions)
    requires forall a, b :: a in query && b in text && a.MatchesSmart(b) ==> BytesOf(a.base) <= BytesOf(b.base)
    ensures BytesPresent(query) <= BytesPresent(text)
  {
    forall b | b in BytesPresent(query) ensures b in BytesPresent(text) {
      var c :| c in query && b in c.base;
      var k :| 0 <= k < |query| && query[k] == c;
      var other := text[positions[k]];
      assert other in text && b in BytesOf(other.base);
    }
  }

  // ----- Exactly when the prefilter drops no match -----

  // Case folding matches no query character to a text character that lacks some of its base bytes.
  ghost predicate FoldingRespects(query: seq<Character>, text: seq<Character>) {
    forall a, b :: a in query && b in text && !a.isUppercase && a.EqualsIgnoreCase(b)
                   ==> BytesOf(a.base) <= BytesOf(b.base)
  }

  lemma MatchKeepsBytes(u: Unicode, a: Character, b: Character)
    requires Sorts(u.sortByClass) && NormalClosed(u.table)
    requires IsBuiltCharacter(u, a) && IsBuiltCharacter(u, b) && a.MatchesSmart(b)
    requires !a.isUppercase && a.EqualsIgnoreCase(b) ==> BytesOf(a.base) <= BytesOf(b.base)
    ensures BytesOf(a.base) <= BytesOf(b.base)
  {
    if a.normal == b.normal {
      NormalDeterminesCharacter(u, a, b);
    }
  }

  /** No match is dropped between two words between which folding respects the base. */
  lemma PrefilterSound(u: Unicode, query: ByteString, text: ByteString)
    requires Sorts(u.sortByClass) && NormalClosed(u.table)
    requires BuildWord(u, query).Ok? && BuildWord(u, text).Ok?
    requires FoldingRespects(BuildWord(u, query).value.characters, BuildWord(u, text).value.characters)
    ensures var q, t := BuildWord(u, query).value, BuildWord(u, text).value;
            Embeds(q.characters, t.characters) ==> t.ContainsBytes(q)
  {
    var q, t := BuildWord(u, query).value, BuildWord(u, text).value;
    if positions: seq<nat> :| IsEmbedding(q.characters, t.characters, positions) {
      forall a, b | a in q.characters && b in t.characters && a.MatchesSmart(b)
        ensures BytesOf(a.base) <= BytesOf(b.base)
      {
        assert IsBuiltCharacter(u, a) && IsBuiltCharacter(u, b);
        MatchKeepsBytes(u, a, b);
      }
      EmbeddingKeepsBytes(q.characters, t.characters, positions);
    }
  }

  // A text whose code points are one cluster makes a word of one character.
  lemma OneClusterWord(u: Unicode, text: ByteString, cluster: seq<CodePoint>, c: Character)
    requires CodePointsOf(u.table, text) == Ok(cluster) && Clusters(cluster) == [cluster]
    requires BuildCharacter(u, NormalText(cluster)) == Ok(c)
    ensures BuildWord(u, text) == Ok(Word(text, [c], BytesPresent([c])))
  {
    assert ClusterTexts([cluster]) == [] + [NormalText(cluster)];
    TraverseSnoc(CharacterBuilder(u), [], NormalText(cluster));
    assert [] + [c] == [c];
  }

  lemma LookupStretch(table: seq<Row>, pieces: seq<ByteString>, b: nat, e: nat)
    requires b <= e <= |pieces|
    ensures LookupEach(table, pieces[b..e]) == LookupEach(table, pieces)[b..e]
  {
  }

  // A stretch of a text's code points, as a text of its own.
  lemma StretchText(table: seq<Row>, text: ByteString, b: nat, e: nat) returns (part: ByteString)
    requires CodePointsOf(table, text).Ok? && b <= e <= |CodePointsOf(table, text).value|
    ensures CodePointsOf(table, part) == Ok(CodePointsOf(table, text).value[b..e])
  {
    var pieces := Utf8.Split(text).value;
    Utf8.SplitCharacterised(text, pieces);
    var stretch := pieces[b..e];
    assert Utf8.AllShaped(stretch) by {
      assert forall i :: 0 <= i < |stretch| ==> stretch[i] == pieces[b + i];
    }
    part := Flatten(stretch);
    Utf8.SplitCharacterised(part, stretch);
    LookupStretch(table, pieces, b, e);
  }

  lemma ClusterAlone(u: Unicode, text: ByteString, k: nat) returns (part: ByteString)
    requires CodePointsOf(u.table, text).Ok? && k < |Clusters(CodePointsOf(u.table, text).value)|
    ensures CodePointsOf(u.table, part) == Ok(Clusters(CodePointsOf(u.table, text).value)[k])
  {
    var cps := CodePointsOf(u.table, text).value;
    var b, e := PartIsStretch(cps, BoundaryMarks(cps, |cps|), |cps|, k);
    part := StretchText(u.table, text, b, e);
  }

  /** Every character of a word is the only character of some word. */
  lemma CharacterAlone(u: Unicode, c: Character) returns (part: ByteString)
    requires IsBuiltCharacter(u, c)
    ensures BuildWord(u, part) == Ok(Word(part, [c], BytesPresent([c])))
  {
    var text: ByteString :| BuildWord(u, text).Ok? && c in BuildWord(u, text).value.characters;
    var k :| 0 <= k < |BuildWord(u, text).value.characters| && BuildWord(u, text).value.characters[k] == c;
    CharacterOfCluster(u, text, k);
    ClusterIsWhole(CodePointsOf(u.table, text).value, k);
    part := ClusterAlone(u, text, k);
    OneClusterWord(u, part, Clusters(CodePointsOf(u.table, text).value)[k], c);
  }

  // If the query embeds in the text, the prefilter lets the text pass.
  ghost predicate KeepsMatch(u: Unicode, query: ByteString, text: ByteString) {
    BuildWord(u, query).Ok? && BuildWord(u, text).Ok? ==>
      var q, t := BuildWord(u, query).value, BuildWord(u, text).value;
      Embeds(q.characters, t.characters) ==> t.ContainsBytes(q)
  }

  // Case folding identifies no characters of which one has base bytes that the other lacks.
  ghost predicate FoldingRespectsBase(u: Unicode) {
    forall a, b :: IsBuiltCharacter(u, a) && IsBuiltCharacter(u, b) && !a.isUppercase && a.EqualsIgnoreCase(b)
                   ==> BytesOf(a.base) <= BytesOf(b.base)
  }

  lemma OneEmbeds(a: Character, b: Character)
    requires a.MatchesSmart(b)
    ensures Embeds([a], [b])
  {
    assert IsEmbedding([a], [b], [0]);
  }

  lemma OneCharacterBytes(c: Character)
    ensures BytesPresent([c]) == BytesOf(c.base)
  {
  }

  lemma KeptMatchRespects(u: Unicode, a: Character, b: Character)
    requires forall query: ByteString, text: ByteString :: KeepsMatch(u, query, text)
    requires IsBuiltCharacter(u, a) && IsBuiltCharacter(u, b) && !a.isUppercase && a.EqualsIgnoreCase(b)
    ensures BytesOf(a.base) <= BytesOf(b.base)
  {
    var query := CharacterAlone(u, a);
    var text := CharacterAlone(u, b);
    assert KeepsMatch(u, query, text);
    OneEmbeds(a, b);
    OneCharacterBytes(a);
    OneCharacterBytes(b);
  }

  /** The prefilter drops no match, whatever the query and the text, exactly when folding respects the base among
      all characters words can have. */
  lemma PrefilterExact(u: Unicode)
    requires Sorts(u.sortByClass) && NormalClosed(u.table)
    ensures (forall query: ByteString, text: ByteString :: KeepsMatch(u, query, text)) <==> FoldingRespectsBase(u)
  {
    if FoldingRespectsBase(u) {
      forall query: ByteString, text: ByteString ensures KeepsMatch(u, query, text) {
        if BuildWord(u, query).Ok? && BuildWord(u, text).Ok? {
          assert forall c :: c in BuildWord(u, query).value.characters ==> IsBuiltCharacter(u, c);
          assert forall c :: c in BuildWord(u, text).value.characters ==> IsBuiltCharacter(u, c);
          PrefilterSound(u, query, text);
        }
      }
    }
    if forall query: ByteString, text: ByteString :: KeepsMatch(u, query, text) {
      forall a, b | IsBuiltCharacter(u, a) && IsBuiltCharacter(u, b) && !a.isUppercase && a.EqualsIgnoreCase(b)
        ensures BytesOf(a.base) <= BytesOf(b.base)
      {
        KeptMatchRespects(u, a, b);
      }
    }
  }

  // ----- A condition on texts, and one on the Unicode table -----

  // Folding turns marks into marks only, and other code points into no marks.
  predicate FoldKeepsKind(table: seq<Row>, cp: CodePoint) {
    var pieces := Utf8.Split(cp.foldedCase);
    pieces.Ok? && forall i :: 0 <= i < |pieces.value| ==> IsMark(Lookup(table, pieces.value[i])) == IsMark(cp)
  }

  // A text all of whose code points, after normalisation, are so folded.
  predicate FoldStable(table: seq<Row>, text: ByteString) {
    var pieces := Utf8.Split(text);
    pieces.Ok? && forall i :: 0 <= i < |pieces.value| ==> FoldKeepsKind(table, Lookup(table, pieces.value[i]))
  }

  predicate NormalFoldStable(table: seq<Row>, text: ByteString) {
    var normal := NormalizeInput(table, text);
    normal.Ok? ==> FoldStable(table, normal.value)
  }

  predicate AllKeepKind(table: seq<Row>, cps: seq<CodePoint>) {
    forall i :: 0 <= i < |cps| ==> FoldKeepsKind(table, cps[i])
  }

  // What is left of folded pieces without the marks.
  function WithoutMarks(table: seq<Row>, pieces: seq<ByteString>): ByteString {
    if pieces == [] then []
    else (if IsMark(Lookup(table, pieces[0])) then [] else pieces[0]) + WithoutMarks(table, pieces[1..])
  }

  lemma {:induction false} WithoutMarksConcat(table: seq<Row>, a: seq<ByteString>, b: seq<ByteString>)
    ensures WithoutMarks(table, a + b) == WithoutMarks(table, a) + WithoutMarks(table, b)
  {
    if a == [] {
      assert a + b == b;
    } else {
      assert (a + b)[0] == a[0] && (a + b)[1..] == a[1..] + b;
      WithoutMarksConcat(table, a[1..], b);
    }
  }

  lemma {:induction false} WithoutMarksUniform(table: seq<Row>, pieces: seq<ByteString>, marks: bool)
    requires forall i :: 0 <= i < |pieces| ==> IsMark(Lookup(table, pieces[i])) == marks
    ensures WithoutMarks(table, pieces) == if marks then [] else Flatten(pieces)
  {
    if pieces == [] {
    } else {
      WithoutMarksUniform(table, pieces[1..], marks);
    }
  }

  /** Under that condition the base is a function of the folded text alone. */
  lemma {:induction false} BaseFromFolded(table: seq<Row>, cps: seq<CodePoint>)
    requires AllKeepKind(table, cps)
    ensures Utf8.Split(FoldedText(cps)).Ok?
    ensures BaseText(cps) == WithoutMarks(table, Utf8.Split(FoldedText(cps)).value)
  {
    if cps == [] {
    } else {
      var front, last := cps[..|cps| - 1], cps[|cps| - 1];
      BaseFromFolded(table, front);
      Utf8.SplitConcat(FoldedText(front), last.foldedCase);
      var pieces := Utf8.Split(last.foldedCase).value;
      WithoutMarksConcat(table, Utf8.Split(FoldedText(front)).value, pieces);
      WithoutMarksUniform(table, pieces, IsMark(last));
      Utf8.SplitCharacterised(last.foldedCase, pieces);
    }
  }

  // A character made of code points for which the condition holds.
  ghost predicate IsStable(table: seq<Row>, c: Character) {
    exists cps :: c == Assemble(cps) && AllKeepKind(table, cps)
  }

  // Case folding identifies only such characters whose bases are equal.
  lemma StableFoldKeepsBase(table: seq<Row>, a: Character, b: Character)
    requires IsStable(table, a) && IsStable(table, b) && a.EqualsIgnoreCase(b)
    ensures a.base == b.base
  {
    var s :| a == Assemble(s) && AllKeepKind(table, s);
    var t :| b == Assemble(t) && AllKeepKind(table, t);
    BaseFromFolded(table, s);
    BaseFromFolded(table, t);
  }

  lemma CharacterStable(u: Unicode, text: ByteString)
    requires Sorts(u.sortByClass) && InNormalForm(u.table, text) && FoldStable(u.table, text)
    ensures BuildCharacter(u, text).Ok? && IsStable(u.table, BuildCharacter(u, text).value)
  {
    var cps := BuiltInOrder(u, text);
    forall i | 0 <= i < |cps| ensures FoldKeepsKind(u.table, cps[i]) {
      assert cps[i] in CodePointsOf(u.table, text).value;
    }
  }

  lemma FoldStableConcat(table: seq<Row>, a: ByteString, b: ByteString)
    requires Utf8.Split(a).Ok? && Utf8.Split(b).Ok? && FoldStable(table, a + b)
    ensures FoldStable(table, a) && FoldStable(table, b)
  {
    Utf8.SplitConcat(a, b);
    var front, back := Utf8.Split(a).value, Utf8.Split(b).value;
    PiecesStable(table, front, front + back, 0);
    PiecesStable(table, back, front + back, |front|);
  }

  lemma PiecesStable(table: seq<Row>, pieces: seq<ByteString>, all: seq<ByteString>, offset: nat)
    requires offset + |pieces| <= |all| && pieces == all[offset..offset + |pieces|]
    requires forall i :: 0 <= i < |all| ==> FoldKeepsKind(table, Lookup(table, all[i]))
    ensures forall i :: 0 <= i < |pieces| ==> FoldKeepsKind(table, Lookup(table, pieces[i]))
  {
    forall i | 0 <= i < |pieces| ensures FoldKeepsKind(table, Lookup(table, pieces[i])) {
      assert pieces[i] == all[offset + i];
    }
  }

  lemma {:induction false} PartsSplit(parts: seq<ByteString>)
    requires forall i :: 0 <= i < |parts| ==> Utf8.Split(parts[i]).Ok?
    ensures Utf8.Split(Flatten(parts)).Ok?
  {
    if parts == [] {
    } else {
      PartsSplit(parts[1..]);
      Utf8.SplitConcat(parts[0], Flatten(parts[1..]));
    }
  }

  lemma {:induction false} FoldStableParts(table: seq<Row>, parts: seq<ByteString>, k: nat)
    requires k < |parts| && FoldStable(table, Flatten(parts))
    requires forall i :: 0 <= i < |parts| ==> Utf8.Split(parts[i]).Ok?
    ensures FoldStable(table, parts[k])
  {
    PartsSplit(parts[1..]);
    FoldStableConcat(table, parts[0], Flatten(parts[1..]));
    if k == 0 {
    } else {
      FoldStableParts(table, parts[1..], k - 1);
    }
  }

  lemma WordStable(u: Unicode, text: ByteString)
    requires Sorts(u.sortByClass) && NormalClosed(u.table) && BuildWord(u, text).Ok?
    requires NormalFoldStable(u.table, text)
    ensures forall c :: c in BuildWord(u, text).value.characters ==> IsStable(u.table, c)
  {
    var cps := CodePointsOf(u.table, text).value;
    var texts := ClusterTexts(Clusters(cps));
    TraverseOk(CharacterBuilder(u), texts);
    ClusterTextsJoin(cps);
    forall k | 0 <= k < |texts| ensures InNormalForm(u.table, texts[k]) {
      CharacterTextsNormal(u, text, k);
    }
    var characters := BuildWord(u, text).value.characters;
    forall c | c in characters ensures IsStable(u.table, c) {
      var k :| 0 <= k < |characters| && characters[k] == c;
      FoldStableParts(u.table, texts, k);
      CharacterStable(u, texts[k]);
      assert CharacterBuilder(u)(texts[k]) == Ok(c);
    }
  }

  /** Between texts whose normalised code points fold within their kind, folding respects the base. */
  lemma StableTextsRespect(u: Unicode, query: ByteString, text: ByteString)
    requires Sorts(u.sortByClass) && NormalClosed(u.table)
    requires BuildWord(u, query).Ok? && BuildWord(u, text).Ok?
    requires NormalFoldStable(u.table, query) && NormalFoldStable(u.table, text)
    ensures FoldingRespects(BuildWord(u, query).value.characters, BuildWord(u, text).value.characters)
  {
    WordStable(u, query);
    WordStable(u, text);
    forall a, b | a in BuildWord(u, query).value.characters && b in BuildWord(u, text).value.characters
                  && a.EqualsIgnoreCase(b)
      ensures a.base == b.base
    {
      StableFoldKeepsBase(u.table, a, b);
    }
  }

  // The condition for a whole table: its fully decomposed rows fold within their kind.
  predicate TableFoldsWithinKind(table: seq<Row>) {
    forall i :: 0 <= i < |table| && table[i].codePoint.normal == table[i].original
                ==> FoldKeepsKind(table, table[i].codePoint)
  }

  /** Over such a table every text is fold-stable. */
  lemma TableMakesTextsStable(table: seq<Row>, text: ByteString)
    requires NormalClosed(table) && TableFoldsWithinKind(table)
    ensures NormalFoldStable(table, text)
  {
    if NormalizeInput(table, text).Ok? {
      var normal := NormalizeInput(table, text).value;
      CodePointsFromTable(table, text);
      NormalTextInNormalForm(table, CodePointsOf(table, text).value);
      var pieces := Utf8.Split(normal).value;
      Utf8.SplitCharacterised(normal, pieces);
      forall i | 0 <= i < |pieces| ensures FoldKeepsKind(table, Lookup(table, pieces[i])) {
        LookupInTable(table, pieces[i]);
        if Lookup(table, pieces[i]) == DefaultCodePoint(pieces[i]) {
          Flatten1(pieces[i]);
          assert Utf8.Shaped(pieces[i]);
          Utf8.SplitCharacterised(pieces[i], [pieces[i]]);
        }
      }
    }
  }

  // ----- The shipped table does not meet the condition -----

  // U+0345, an extending mark, folds to U+03B9, a letter (entries 753 and 858 of src/core/UnicodeTable.inc).
  const YPOGEGRAMMENI: ByteString := [0xCD, 0x85]
  const IOTA: ByteString := [0xCE, 0xB9]

  function IotaTable(): seq<Row> {
    [ Row(YPOGEGRAMMENI, CodePoint(YPOGEGRAMMENI, IOTA, [0xCE, 0x99], false, false, false, EXTEND, 240)),
      Row(IOTA, CodePoint(IOTA, IOTA, [0xCE, 0x99], true, false, false, OTHER, 0)) ]
  }

  lemma OneCodePoint(u: Unicode, text: ByteString)
    requires Sorts(u.sortByClass) && Utf8.Shaped(text)
    ensures var c := Lookup(u.table, text);
            CodePointsOf(u.table, text) == Ok([c]) && BuildCharacter(u, text) == Ok(Assemble([c]))
  {
    var c := Lookup(u.table, text);
    Flatten1(text);
    Utf8.SplitCharacterised(text, [text]);
    assert LookupEach(u.table, [text]) == [c];
    CanonicalOrderCorrect(u.sortByClass, [c]);
    var r := CanonicalOrder(u.sortByClass, [c]);
    assert r[0] in multiset(r);
    assert r == [c];
  }

  lemma OneCharacterWord(u: Unicode, text: ByteString)
    requires Sorts(u.sortByClass) && Utf8.Shaped(text) && Lookup(u.table, text).normal == text
    ensures var c := Assemble([Lookup(u.table, text)]);
            BuildWord(u, text) == Ok(Word(text, [c], BytesPresent([c])))
  {
    var c := Lookup(u.table, text);
    OneCodePoint(u, text);
    NormalTextOne(c);
    assert Clusters([c]) == [[c]];
    OneClusterWord(u, text, [c], Assemble([c]));
  }

  lemma FoldedOnlyIsDropped(a: Character, b: Character)
    requires !a.isUppercase && a.EqualsIgnoreCase(b) && a.base != [] && b.base == []
    ensures Embeds([a], [b])
    ensures BytesPresent([b]) * BytesPresent([a]) != BytesPresent([a])
  {
    OneEmbeds(a, b);
    OneCharacterBytes(a);
    OneCharacterBytes(b);
    assert a.base[0] in BytesOf(a.base) && BytesOf(b.base) == {};
  }

  /** Whatever the rest of the table, a mark that folds to a lowercase letter is lost: the letter, as a query,
      embeds in the mark, as a candidate, yet the prefilter rejects the candidate. */
  lemma MarkFoldingAwayIsDropped(u: Unicode, mark: ByteString, letter: ByteString)
    requires Sorts(u.sortByClass) && Utf8.Shaped(mark) && Utf8.Shaped(letter)
    requires var x := Lookup(u.table, mark); IsMark(x) && x.normal == mark && x.foldedCase == letter
    requires var p := Lookup(u.table, letter);
             !IsMark(p) && !p.isUppercase && p.normal == letter && p.foldedCase == letter
    ensures BuildWord(u, letter).Ok? && BuildWord(u, mark).Ok?
    ensures var q, t := BuildWord(u, letter).value, BuildWord(u, mark).value;
            Embeds(q.characters, t.characters) && !t.ContainsBytes(q)
  {
    OneCharacterWord(u, letter);
    OneCharacterWord(u, mark);
    AssembleOne(Lookup(u.table, letter));
    AssembleOne(Lookup(u.table, mark));
    FoldedOnlyIsDropped(Assemble([Lookup(u.table, letter)]), Assemble([Lookup(u.table, mark)]));
  }

  /** So the prefilter does drop a match over the two table entries of U+0345 and U+03B9. */
  lemma IotaIsDropped(u: Unicode)
    requires Sorts(u.sortByClass) && u.table == IotaTable()
    ensures BuildWord(u, IOTA).Ok? && BuildWord(u, YPOGEGRAMMENI).Ok?
    ensures var q, t := BuildWord(u, IOTA).value, BuildWord(u, YPOGEGRAMMENI).value;
            Embeds(q.characters, t.characters) && !t.ContainsBytes(q)
  {
    var table := u.table;
    assert table[1..][0] == table[1];
    assert Lookup(table, YPOGEGRAMMENI) == table[0].codePoint;
    assert YPOGEGRAMMENI[0] != IOTA[0];
    assert Lookup(table, IOTA) == Lookup(table[1..], IOTA) == table[1].codePoint;
    MarkFoldingAwayIsDropped(u, YPOGEGRAMMENI, IOTA);
  }
}
