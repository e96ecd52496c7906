/** Words and candidates (src/core/Word.h, src/core/Word.cpp:272-295, src/core/Candidate.cpp:23-75). */
module Words {
  import opened Bytes
  import opened CodePoints
  import opened Characters
  import opened Segmentation
  import opened Repositories
  import Utf8

  datatype Word = Word(text: ByteString, characters: seq<Character>, bytesPresent: set<byte>) {
    function Length(): nat {
      |characters|
    }

    predicate IsEmpty() {
      characters == []
    }

    predicate ContainsBytes(other: Word) {
      bytesPresent * other.bytesPresent == other.bytesPresent
    }
  }

  // The bytes of the bases of the characters.
  function BytesPresent(characters: seq<Character>): set<byte> {
    set c, b | c in characters && b in c.base :: b
  }

  function CharacterBuilder(u: Unicode): ByteString -> Result<Character> {
    (text: ByteString) => BuildCharacter(u, text)
  }

  function BuildWord(u: Unicode, text: ByteString): Result<Word> {
    var cps :- CodePointsOf(u.table, text);
    var characters :- Traverse(CharacterBuilder(u), ClusterTexts(Clusters(cps)));
    Ok(Word(text, characters, BytesPresent(characters)))
  }

  lemma BytesPresentSnoc(characters: seq<Character>, last: Character)
    ensures BytesPresent(characters + [last]) == BytesPresent(characters) + set b | b in last.base
  {
    assert forall c :: c in characters + [last] <==> c in characters || c == last;
  }

  method ComputeBytesPresent(characters: seq<Character>) returns (bytesPresent: set<byte>)
    ensures bytesPresent == BytesPresent(characters)
  {
    bytesPresent := {};
    for i := 0 to |characters|
      invariant bytesPresent == BytesPresent(characters[..i])
    {
      var base := characters[i].base;
      assert characters[..i + 1] == characters[..i] + [characters[i]];
      for j := 0 to |base|
        invariant bytesPresent == BytesPresent(characters[..i]) + set b | b in base[..j]
      {
        bytesPresent := bytesPresent + {base[j]};
      }
      assert base[..|base|] == base;
      BytesPresentSnoc(characters[..i], characters[i]);
    }
    assert characters[..|characters|] == characters;
  }

  // ----- Construction through the memo tables -----

  // Memo tables of characters and code points; the code points of every character looked up are in theirs.
  ghost predicate AreTables(u: Unicode, codePoints: Repository<CodePoint>, characters: Repository<Character>)
    reads codePoints, characters
  {
    && TableSorted(u.table) && Sorts(u.sortByClass) && IsCodePointTable(u.table, codePoints)
    && characters.Valid() && characters.build == CharacterBuilder(u) && !characters.clips
    && AllHavePieces(codePoints.elementHolder.Keys, characters.elementHolder.Keys)
  }

  ghost predicate AllHavePieces(keys: set<ByteString>, texts: set<ByteString>) {
    forall text :: text in texts ==> HasPieces(keys, text)
  }

  lemma PiecesKept(keys: set<ByteString>, more: set<ByteString>, texts: set<ByteString>)
    requires keys <= more && AllHavePieces(keys, texts)
    ensures AllHavePieces(more, texts)
  {
    forall text | text in texts ensures HasPieces(more, text) {
      assert HasPieces(keys, text);
    }
  }

  // What both tables keep of a moment before: every entry.
  twostate predicate TablesGrow(codePoints: Repository<CodePoint>, characters: Repository<Character>)
    reads codePoints, characters
  {
    && codePoints.Extends(old(codePoints.elementHolder), codePoints.elementHolder)
    && characters.Extends(old(characters.elementHolder), characters.elementHolder)
  }

  function CharacterTexts(u: Unicode, text: ByteString): seq<ByteString>
    requires CodePointsOf(u.table, text).Ok?
  {
    ClusterTexts(Clusters(CodePointsOf(u.table, text).value))
  }

  // If the text makes a word, its code points and its characters are among the keys of the tables.
  ghost predicate HasWord(u: Unicode, codePoints: set<ByteString>, characters: set<ByteString>, text: ByteString) {
    HasPieces(codePoints, text) && (BuildWord(u, text).Ok? ==> Texts(CharacterTexts(u, text)) <= characters)
  }

  // Repository<Character>
  method GetCharacter(u: Unicode, codePoints: Repository<CodePoint>, characters: Repository<Character>, key: ByteString)
    returns (element: Interned?<Character>)
    requires AreTables(u, codePoints, characters)
    modifies codePoints, characters
    ensures characters.GotOne(old(characters.elementHolder), key, element)
    ensures AreTables(u, codePoints, characters) && TablesGrow(codePoints, characters)
  {
    ghost var before := characters.elementHolder;
    element := characters.GetValueElseInsert(key);
    if element == null {
      element := FillEntry(u, codePoints, characters, key, before.Keys);
      characters.OneMade(before, key, element);
    } else {
      characters.OneKept(before, key);
    }
  }

  // Constructs the character of a null entry; if that throws, the entry stays null.
  method FillEntry(u: Unicode, codePoints: Repository<CodePoint>, characters: Repository<Character>, key: ByteString,
                   ghost texts: set<ByteString>)
    returns (element: Interned?<Character>)
    requires TableSorted(u.table) && Sorts(u.sortByClass) && IsCodePointTable(u.table, codePoints)
    requires AllHavePieces(codePoints.elementHolder.Keys, texts) && characters.build == CharacterBuilder(u)
    modifies codePoints, characters
    ensures characters.Agrees(key, element)
    ensures element == null ==> characters.elementHolder == old(characters.elementHolder)
    ensures element != null ==> characters.elementHolder == old(characters.elementHolder)[key := element]
    ensures IsCodePointTable(u.table, codePoints) && AllHavePieces(codePoints.elementHolder.Keys, texts + {key})
    ensures codePoints.Extends(old(codePoints.elementHolder), codePoints.elementHolder)
  {
    var built := ConstructCharacter(u, codePoints, key);
    PiecesKept(old(codePoints.elementHolder.Keys), codePoints.elementHolder.Keys, texts);
    if built.Ok? {
      element := characters.Keep(key, built.value);
    } else {
      element := null;
    }
  }

  method GetCharacters(u: Unicode, codePoints: Repository<CodePoint>, characters: Repository<Character>,
                       elements: seq<ByteString>)
    returns (r: Result<seq<Interned<Character>>>)
    requires AreTables(u, codePoints, characters)
    modifies codePoints, characters
    ensures characters.Got(old(characters.elementHolder), elements, r)
    ensures AreTables(u, codePoints, characters) && TablesGrow(codePoints, characters)
  {
    ghost var initial := characters.elementHolder;
    var objects: seq<Interned<Character>> := [];
    for i := 0 to |elements|
      invariant AreTables(u, codePoints, characters) && TablesGrow(codePoints, characters)
      invariant characters.GotSoFar(initial, characters.elementHolder, characters.Keys(elements)[..i], objects)
    {
      ghost var before := characters.elementHolder;
      var element := GetCharacter(u, codePoints, characters, characters.Key(elements[i]));
      if element == null {
        characters.StopsAt(initial, before, elements, i, objects);
        return Err(characters.build(characters.Key(elements[i])).error);
      }
      characters.GoesOn(initial, before, elements, i, objects, element);
      objects := objects + [element];
    }
    characters.Ends(initial, elements, objects);
    return Ok(objects);
  }

  // What a word says of its text: it has the text, a character for every cluster, and the bytes of their bases.
  ghost predicate IsWordOf(u: Unicode, text: ByteString, w: Word) {
    && w.text == text && CodePointsOf(u.table, text).Ok?
    && HasCharactersOf(u, Clusters(CodePointsOf(u.table, text).value), w.characters)
    && forall b :: b in w.bytesPresent <==> exists c :: c in w.characters && b in c.base
  }

  ghost predicate HasCharactersOf(u: Unicode, clusters: seq<seq<CodePoint>>, characters: seq<Character>) {
    && |characters| == |clusters|
    && forall k :: 0 <= k < |clusters| ==> IsCharacterOf(u, NormalText(clusters[k]), characters[k])
  }

  lemma BuiltIsWord(u: Unicode, text: ByteString)
    requires Sorts(u.sortByClass) && BuildWord(u, text).Ok?
    ensures IsWordOf(u, text, BuildWord(u, text).value)
  {
    var clusters := Clusters(CodePointsOf(u.table, text).value);
    var texts := ClusterTexts(clusters);
    TraverseOk(CharacterBuilder(u), texts);
    var characters := BuildWord(u, text).value.characters;
    forall k | 0 <= k < |clusters| ensures IsCharacterOf(u, NormalText(clusters[k]), characters[k]) {
      assert CharacterBuilder(u)(texts[k]) == Ok(characters[k]);
      BuiltIsCharacter(u, texts[k]);
    }
  }

  /** The constructor of Word, with its characters and code points taken from the memo tables: it builds what fresh
      construction would, and leaves in the tables all that it is made of. */
  method ConstructWord(u: Unicode, codePoints: Repository<CodePoint>, characters: Repository<Character>,
                       text: ByteString)
    returns (r: Result<Word>)
    requires AreTables(u, codePoints, characters)
    modifies codePoints, characters
    ensures r == BuildWord(u, text)
    ensures AreTables(u, codePoints, characters) && TablesGrow(codePoints, characters)
    ensures HasWord(u, codePoints.elementHolder.Keys, characters.elementHolder.Keys, text)
  {
    var cps := BreakIntoCodePoints(u.table, codePoints, text);
    if cps.Err? {
      return Err(cps.error);
    }
    var texts := BreakCodePointsIntoCharacters(cps.value);
    assert characters.Keys(texts) == texts;
    TraverseAttempts(CharacterBuilder(u), texts);
    var built := GetCharacters(u, codePoints, characters, texts);
    if built.Err? {
      return Err(built.error);
    }
    var sequence := Values(built.value);
    var bytesPresent := ComputeBytesPresent(sequence);
    return Ok(Word(text, sequence, bytesPresent));
  }

  // ----- What normalisation gives -----

  lemma ClustersFromTable(table: seq<Row>, cps: seq<CodePoint>, k: nat)
    requires FromTable(table, cps) && k < |Clusters(cps)|
    ensures FromTable(table, Clusters(cps)[k])
  {
    ClustersCutAtBoundaries(cps);
    PartOfFlatten(Clusters(cps), k);
    var cluster := Clusters(cps)[k];
    forall i | 0 <= i < |cluster| ensures IsLookup(table, cluster[i]) {
      assert cluster[i] in cps;
    }
  }

  lemma {:induction false} PartOfFlatten<T>(parts: seq<seq<T>>, k: nat)
    requires k < |parts|
    ensures forall x :: x in parts[k] ==> x in Flatten(parts)
  {
    if k == 0 {
    } else {
      PartOfFlatten(parts[1..], k - 1);
    }
  }

  /** The text of every character Word builds is its own normal form: the assertion of CanonicalDecompose holds. */
  lemma CharacterTextsNormal(u: Unicode, text: ByteString, k: nat)
    requires NormalClosed(u.table) && CodePointsOf(u.table, text).Ok?
    requires k < |Clusters(CodePointsOf(u.table, text).value)|
    ensures var clusterText := ClusterTexts(Clusters(CodePointsOf(u.table, text).value))[k];
            InNormalForm(u.table, clusterText) && NormalizeInput(u.table, clusterText) == Ok(clusterText)
  {
    var cps := CodePointsOf(u.table, text).value;
    CodePointsFromTable(u.table, text);
    ClustersFromTable(u.table, cps, k);
    NormalTextInNormalForm(u.table, Clusters(cps)[k]);
    NormalFormFixed(u.table, NormalText(Clusters(cps)[k]));
  }

  /** A word can be built of exactly the texts that split into code points, for the same reason otherwise. */
  lemma WordBuilds(u: Unicode, text: ByteString)
    requires NormalClosed(u.table)
    ensures BuildWord(u, text).Ok? <==> Utf8.Split(text).Ok?
    ensures Utf8.Split(text).Err? ==> BuildWord(u, text) == Err(Utf8.Split(text).error)
  {
    if Utf8.Split(text).Ok? {
      var texts := ClusterTexts(Clusters(CodePointsOf(u.table, text).value));
      forall k | 0 <= k < |texts| ensures BuildCharacter(u, texts[k]).Ok? {
        CharacterTextsNormal(u, text, k);
      }
      TraverseOk(CharacterBuilder(u), texts);
    }
  }

  // ----- Candidates -----

  datatype Candidate = Candidate(
    word: Word,
    caseSwappedText: ByteString,
    wordBoundaryChars: seq<Character>,
    textIsLowercase: bool)

  function CaseSwapped(characters: seq<Character>): ByteString {
    if characters == [] then []
    else CaseSwapped(characters[..|characters| - 1]) + characters[|characters| - 1].swappedCase
  }

  // A first character that is no punctuation; an uppercase one after one that is not; a letter after punctuation.
  predicate IsWordBoundary(characters: seq<Character>, i: nat)
    requires i < |characters|
  {
    if i == 0 then !characters[0].isPunctuation
    else
      || (!characters[i - 1].isUppercase && characters[i].isUppercase)
      || (characters[i - 1].isPunctuation && characters[i].isLetter)
  }

  function WordBoundaryChars(characters: seq<Character>): (chars: seq<Character>)
    ensures |chars| <= |characters|
  {
    if characters == [] then []
    else
      var last := |characters| - 1;
      WordBoundaryChars(characters[..last]) + if IsWordBoundary(characters, last) then [characters[last]] else []
  }

  function BuildCandidate(u: Unicode, text: ByteString): Result<Candidate> {
    var word :- BuildWord(u, text);
    Ok(Candidate(word, CaseSwapped(word.characters), WordBoundaryChars(word.characters),
                 forall i :: 0 <= i < |word.characters| ==> !word.characters[i].isUppercase))
  }

  function CandidateBuilder(u: Unicode): ByteString -> Result<Candidate> {
    (text: ByteString) => BuildCandidate(u, text)
  }

  function SwappedOf(c: Character): ByteString {
    c.swappedCase
  }

  lemma {:induction false} CaseSwappedJoins(characters: seq<Character>)
    ensures Joins(CaseSwapped(characters), characters, SwappedOf)
  {
    if characters == [] {
      JoinsNothing(SwappedOf);
    } else {
      var front, last := characters[..|characters| - 1], characters[|characters| - 1];
      CaseSwappedJoins(front);
      JoinsSnoc(CaseSwapped(front), front, SwappedOf, last);
      assert characters == front + [last];
    }
  }

  method ComputeCaseSwappedText(characters: seq<Character>) returns (text: ByteString)
    ensures text == CaseSwapped(characters)
    ensures Joins(text, characters, SwappedOf)
  {
    text := [];
    for i := 0 to |characters|
      invariant text == CaseSwapped(characters[..i])
    {
      assert characters[..i + 1][..i] == characters[..i];
      text := text + characters[i].swappedCase;
    }
    assert characters[..|characters|] == characters;
    CaseSwappedJoins(characters);
  }

  predicate StrictlyIncreasing(positions: seq<nat>) {
    forall i, j :: 0 <= i < j < |positions| ==> positions[i] < positions[j]
  }

  // The word boundary positions.
  function BoundaryPositions(characters: seq<Character>): seq<nat> {
    if characters == [] then []
    else
      var last := |characters| - 1;
      BoundaryPositions(characters[..last]) + if IsWordBoundary(characters, last) then [last] else []
  }

  lemma {:induction false} BoundaryPositionsIncrease(characters: seq<Character>)
    ensures StrictlyIncreasing(BoundaryPositions(characters))
    ensures forall k :: 0 <= k < |BoundaryPositions(characters)| ==> BoundaryPositions(characters)[k] < |characters|
  {
    if characters == [] {
    } else {
      BoundaryPositionsIncrease(characters[..|characters| - 1]);
    }
  }

  lemma {:induction false} BoundaryPositionsExact(characters: seq<Character>, i: nat)
    requires i < |characters|
    ensures i in BoundaryPositions(characters) <==> IsWordBoundary(characters, i)
  {
    var front := characters[..|characters| - 1];
    if i == |characters| - 1 {
      BoundaryPositionsIncrease(front);
    } else {
      BoundaryPositionsExact(front, i);
      assert IsWordBoundary(front, i) == IsWordBoundary(characters, i);
    }
  }

  lemma {:induction false} CharsAtPositions(characters: seq<Character>)
    ensures |WordBoundaryChars(characters)| == |BoundaryPositions(characters)|
    ensures forall k :: 0 <= k < |BoundaryPositions(characters)| ==>
              && BoundaryPositions(characters)[k] < |characters|
              && WordBoundaryChars(characters)[k] == characters[BoundaryPositions(characters)[k]]
  {
    if characters == [] {
    } else {
      CharsAtPositions(characters[..|characters| - 1]);
    }
  }

  // The word boundaries: a first character that is no punctuation, an uppercase character after one that is not, a
  // letter after punctuation.
  ghost predicate AreBoundaries(characters: seq<Character>, positions: seq<nat>) {
    && StrictlyIncreasing(positions)
    && forall i: nat :: i < |characters| ==>
         (i in positions <==>
          || (i == 0 && !characters[0].isPunctuation)
          || (i > 0 && !characters[i - 1].isUppercase && characters[i].isUppercase)
          || (i > 0 && characters[i - 1].isPunctuation && characters[i].isLetter))
  }

  ghost predicate AreAt(characters: seq<Character>, positions: seq<nat>, chars: seq<Character>) {
    && |positions| == |chars|
    && forall k :: 0 <= k < |chars| ==> positions[k] < |characters| && chars[k] == characters[positions[k]]
  }

  // The characters at the word boundaries, all of them, in order.
  ghost predicate AreBoundaryChars(characters: seq<Character>, chars: seq<Character>) {
    exists positions: seq<nat> :: AreBoundaries(characters, positions) && AreAt(characters, positions, chars)
  }

  lemma BoundaryPositionsAreBoundaries(characters: seq<Character>)
    ensures AreBoundaries(characters, BoundaryPositions(characters))
  {
    BoundaryPositionsIncrease(characters);
    forall i: nat | i < |characters|
      ensures i in BoundaryPositions(characters) <==>
              || (i == 0 && !characters[0].isPunctuation)
              || (i > 0 && !characters[i - 1].isUppercase && characters[i].isUppercase)
              || (i > 0 && characters[i - 1].isPunctuation && characters[i].isLetter)
    {
      BoundaryPositionsExact(characters, i);
    }
  }

  /** The word boundary characters are those at the word boundary positions, all of them, in order. */
  lemma WordBoundaryCharsExact(characters: seq<Character>)
    ensures AreBoundaryChars(characters, WordBoundaryChars(characters))
  {
    BoundaryPositionsAreBoundaries(characters);
    CharsAtPositions(characters);
    assert AreAt(characters, BoundaryPositions(characters), WordBoundaryChars(characters));
  }

  method ComputeWordBoundaryChars(characters: seq<Character>) returns (chars: seq<Character>)
    ensures chars == WordBoundaryChars(characters)
    ensures AreBoundaryChars(characters, chars)
  {
    WordBoundaryCharsExact(characters);
    chars := [];
    if |characters| == 0 {
      return;
    }
    if !characters[0].isPunctuation {
      chars := chars + [characters[0]];
    }
    assert characters[..1][..0] == [];
    for i := 1 to |characters|
      invariant chars == WordBoundaryChars(characters[..i])
    {
      assert characters[..i + 1][..i] == characters[..i];
      var previous, character := characters[i - 1], characters[i];
      if (!previous.isUppercase && character.isUppercase) || (previous.isPunctuation && character.isLetter) {
        chars := chars + [character];
      }
    }
    assert characters[..|characters|] == characters;
  }

  method ComputeTextIsLowercase(characters: seq<Character>) returns (textIsLowercase: bool)
    ensures textIsLowercase <==> forall i :: 0 <= i < |characters| ==> !characters[i].isUppercase
  {
    for i := 0 to |characters|
      invariant forall j :: 0 <= j < i ==> !characters[j].isUppercase
    {
      if characters[i].isUppercase {
        return false;
      }
    }
    return true;
  }

  // What a candidate says of its text, beyond its word.
  ghost predicate IsCandidateOf(u: Unicode, text: ByteString, c: Candidate) {
    && IsWordOf(u, text, c.word)
    && Joins(c.caseSwappedText, c.word.characters, SwappedOf)
    && AreBoundaryChars(c.word.characters, c.wordBoundaryChars)
    && (c.textIsLowercase <==> HasNoUppercase(c.word.characters))
  }

  ghost predicate HasNoUppercase(characters: seq<Character>) {
    forall ch :: ch in characters ==> !ch.isUppercase
  }

  lemma BuiltIsCandidate(u: Unicode, text: ByteString)
    requires Sorts(u.sortByClass) && BuildCandidate(u, text).Ok?
    ensures IsCandidateOf(u, text, BuildCandidate(u, text).value)
  {
    BuiltIsWord(u, text);
    var characters := BuildWord(u, text).value.characters;
    CaseSwappedJoins(characters);
    WordBoundaryCharsExact(characters);
    LowercaseByMembers(characters);
  }

  lemma LowercaseByMembers(characters: seq<Character>)
    ensures (forall i :: 0 <= i < |characters| ==> !characters[i].isUppercase) <==> HasNoUppercase(characters)
  {
    assert forall i :: 0 <= i < |characters| ==> characters[i] in characters;
  }

  /** The constructor of Candidate. */
  method ConstructCandidate(u: Unicode, codePoints: Repository<CodePoint>, characters: Repository<Character>,
                            text: ByteString)
    returns (r: Result<Candidate>)
    requires AreTables(u, codePoints, characters)
    modifies codePoints, characters
    ensures r == BuildCandidate(u, text)
    ensures AreTables(u, codePoints, characters) && TablesGrow(codePoints, characters)
    ensures HasWord(u, codePoints.elementHolder.Keys, characters.elementHolder.Keys, text)
  {
    var word := ConstructWord(u, codePoints, characters, text);
    if word.Err? {
      return Err(word.error);
    }
    var swapped := ComputeCaseSwappedText(word.value.characters);
    var boundary := ComputeWordBoundaryChars(word.value.characters);
    var lowercase := ComputeTextIsLowercase(word.value.characters);
    return Ok(Candidate(word.value, swapped, boundary, lowercase));
  }
}
