/** The characters words have, and what smart matching means between them (src/core/Character.h:75-97). */
module WordCharacters {
  import opened Bytes
  import opened CodePoints
  import opened Characters
  import opened Segmentation
  import opened Words
  import Utf8

  // Some word has this character.
  ghost predicate IsBuiltCharacter(u: Unicode, c: Character) {
    exists text: ByteString :: BuildWord(u, text).Ok? && c in BuildWord(u, text).value.characters
  }

  // Code points that the table finds again under their own normal form.
  predicate SelfNormal(table: seq<Row>, cps: seq<CodePoint>) {
    forall i :: 0 <= i < |cps| ==> Utf8.Shaped(cps[i].normal) && Lookup(table, cps[i].normal) == cps[i]
  }

  function Normals(cps: seq<CodePoint>): (normals: seq<ByteString>)
    ensures |normals| == |cps|
  {
    seq(|cps|, i requires 0 <= i < |cps| => cps[i].normal)
  }

  lemma {:induction false} NormalTextFlattens(cps: seq<CodePoint>)
    ensures NormalText(cps) == Flatten(Normals(cps))
  {
    if cps == [] {
    } else {
      assert Normals(cps)[1..] == Normals(cps[1..]);
      NormalTextFlattens(cps[1..]);
    }
  }

  /** Fully decomposed code points can be read back from their normal text. */
  lemma NormalTextDetermines(table: seq<Row>, a: seq<CodePoint>, b: seq<CodePoint>)
    requires SelfNormal(table, a) && SelfNormal(table, b) && NormalText(a) == NormalText(b)
    ensures a == b
  {
    NormalTextFlattens(a);
    NormalTextFlattens(b);
    Utf8.SplitCharacterised(NormalText(a), Normals(a));
    Utf8.SplitCharacterised(NormalText(b), Normals(b));
    assert Normals(a) == Normals(b);
    forall i | 0 <= i < |a| ensures a[i] == b[i] {
      assert Normals(a)[i] == Normals(b)[i];
    }
  }

  lemma LookedUpSelfNormal(table: seq<Row>, text: ByteString)
    requires InNormalForm(table, text)
    ensures CodePointsOf(table, text).Ok? && SelfNormal(table, CodePointsOf(table, text).value)
  {
    var pieces := Utf8.Split(text).value;
    Utf8.SplitCharacterised(text, pieces);
    forall i | 0 <= i < |pieces|
      ensures Utf8.Shaped(Lookup(table, pieces[i]).normal)
      ensures Lookup(table, Lookup(table, pieces[i]).normal) == Lookup(table, pieces[i])
    {
      assert Utf8.Shaped(pieces[i]);
    }
  }

  lemma OrderingAddsNothing(sort: seq<CodePoint> -> seq<CodePoint>, cps: seq<CodePoint>)
    requires Sorts(sort)
    ensures forall cp :: cp in CanonicalOrder(sort, cps) ==> cp in cps
  {
    CanonicalOrderCorrect(sort, cps);
    forall cp | cp in CanonicalOrder(sort, cps) ensures cp in cps {
      assert cp in multiset(CanonicalOrder(sort, cps));
    }
  }

  // What a character is made of, given its text in normal form.
  lemma BuiltInOrder(u: Unicode, text: ByteString) returns (cps: seq<CodePoint>)
    requires Sorts(u.sortByClass) && InNormalForm(u.table, text)
    ensures BuildCharacter(u, text) == Ok(Assemble(cps)) && SelfNormal(u.table, cps)
    ensures forall cp :: cp in cps ==> cp in CodePointsOf(u.table, text).value
  {
    LookedUpSelfNormal(u.table, text);
    var found := CodePointsOf(u.table, text).value;
    OrderingAddsNothing(u.sortByClass, found);
    cps := CanonicalOrder(u.sortByClass, found);
    forall i | 0 <= i < |cps| ensures Utf8.Shaped(cps[i].normal) && Lookup(u.table, cps[i].normal) == cps[i] {
      assert cps[i] in found;
    }
  }

  // Character k of a word, and the cluster text it is built from.
  lemma CharacterOfCluster(u: Unicode, text: ByteString, k: nat)
    requires BuildWord(u, text).Ok? && k < |BuildWord(u, text).value.characters|
    ensures k < |Clusters(CodePointsOf(u.table, text).value)|
    ensures var cluster := Clusters(CodePointsOf(u.table, text).value)[k];
            BuildCharacter(u, NormalText(cluster)) == Ok(BuildWord(u, text).value.characters[k])
  {
    var texts := ClusterTexts(Clusters(CodePointsOf(u.table, text).value));
    TraverseOk(CharacterBuilder(u), texts);
    assert CharacterBuilder(u)(texts[k]) == Ok(BuildWord(u, text).value.characters[k]);
  }

  /** Every character of a word is made of fully decomposed code points. */
  lemma BuiltOfSelfNormal(u: Unicode, c: Character) returns (cps: seq<CodePoint>)
    requires Sorts(u.sortByClass) && NormalClosed(u.table) && IsBuiltCharacter(u, c)
    ensures c == Assemble(cps) && SelfNormal(u.table, cps)
  {
    var text: ByteString :| BuildWord(u, text).Ok? && c in BuildWord(u, text).value.characters;
    var k :| 0 <= k < |BuildWord(u, text).value.characters| && BuildWord(u, text).value.characters[k] == c;
    CharacterOfCluster(u, text, k);
    CharacterTextsNormal(u, text, k);
    cps := BuiltInOrder(u, NormalText(Clusters(CodePointsOf(u.table, text).value)[k]));
  }

  /** So characters with one normal text are one character. */
  lemma NormalDeterminesCharacter(u: Unicode, a: Character, b: Character)
    requires Sorts(u.sortByClass) && NormalClosed(u.table)
    requires IsBuiltCharacter(u, a) && IsBuiltCharacter(u, b) && a.normal == b.normal
    ensures a == b
  {
    var s := BuiltOfSelfNormal(u, a);
    var t := BuiltOfSelfNormal(u, b);
    NormalTextDetermines(u.table, s, t);
  }

  // ----- Smart matching -----

  // A character without marks ignores the marks of the other, a lowercase one its case.
  predicate MatchesByTable(a: Character, b: Character) {
    match (a.isBase, a.isUppercase)
    case (true, false) => a.base == b.base || a.foldedCase == b.foldedCase
    case (true, true) => a == b || (a.base == b.base && b.isUppercase)
    case (false, false) => a.foldedCase == b.foldedCase
    case (false, true) => a == b
  }

  /** Between characters of words, MatchesSmart is that table. */
  lemma SmartMatchIsTable(u: Unicode, a: Character, b: Character)
    requires Sorts(u.sortByClass) && NormalClosed(u.table)
    requires IsBuiltCharacter(u, a) && IsBuiltCharacter(u, b)
    ensures a.MatchesSmart(b) <==> MatchesByTable(a, b)
  {
    if a.normal == b.normal {
      NormalDeterminesCharacter(u, a, b);
    }
  }

  lemma AssembleOne(c: CodePoint)
    ensures Assemble([c]).normal == c.normal && Assemble([c]).foldedCase == c.foldedCase
    ensures Assemble([c]).base == if IsMark(c) then [] else c.foldedCase
    ensures Assemble([c]).isUppercase == c.isUppercase && Assemble([c]).isBase == !IsMark(c)
  {
    AssembleSnoc([], c);
    assert [] + [c] == [c];
  }

  lemma AssembleTwo(c: CodePoint, mark: CodePoint)
    requires !IsMark(c) && IsMark(mark)
    ensures var d := Assemble([c, mark]);
            && d.normal == c.normal + mark.normal && d.foldedCase == c.foldedCase + mark.foldedCase
            && d.base == c.foldedCase && !d.isBase && d.isUppercase == (c.isUppercase || mark.isUppercase)
  {
    AssembleOne(c);
    AssembleSnoc([c], mark);
    assert [c] + [mark] == [c, mark];
  }

  // A letter in both cases and a mark, like e, E and the acute accent.
  ghost predicate AreLetterAndMark(lower: CodePoint, upper: CodePoint, mark: CodePoint) {
    && !IsMark(lower) && !IsMark(upper) && IsMark(mark)
    && !lower.isUppercase && upper.isUppercase && !mark.isUppercase
    && lower.foldedCase == upper.foldedCase && mark.foldedCase != [] && mark.normal != []
    && lower.normal != upper.normal
    && lower.normal != upper.normal + mark.normal && upper.normal != lower.normal + mark.normal
  }

  /** The documented examples, for any such letter and mark: lowercase plain matches all four; uppercase plain matches
      uppercase plain and marked; lowercase marked matches both marked; uppercase marked matches itself alone. */
  lemma DocumentedMatches(lower: CodePoint, upper: CodePoint, mark: CodePoint, a: Character, b: Character)
    requires AreLetterAndMark(lower, upper, mark)
    requires a in {Assemble([lower]), Assemble([upper]), Assemble([lower, mark]), Assemble([upper, mark])}
    requires b in {Assemble([lower]), Assemble([upper]), Assemble([lower, mark]), Assemble([upper, mark])}
    ensures var lowerPlain, upperPlain, lowerMarked, upperMarked :=
              Assemble([lower]), Assemble([upper]), Assemble([lower, mark]), Assemble([upper, mark]);
            a.MatchesSmart(b) <==>
            || a == lowerPlain
            || (a == upperPlain && b in {upperPlain, upperMarked})
            || (a == lowerMarked && b in {lowerMarked, upperMarked})
            || (a == upperMarked && b == upperMarked)
  {
    AssembleOne(lower);
    AssembleOne(upper);
    AssembleTwo(lower, mark);
    AssembleTwo(upper, mark);
    SameEnding(lower.normal, upper.normal, mark.normal);
  }

  lemma SameEnding(a: ByteString, b: ByteString, ending: ByteString)
    ensures a + ending == b + ending ==> a == b
  {
    assert (a + ending)[..|a|] == a && (b + ending)[..|b|] == b;
  }
}
