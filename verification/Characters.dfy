/** Characters: normalisation, canonical ordering and matching (src/core/Character.cpp, src/core/Character.h). */
module Characters {
  import opened Bytes
  import opened CodePoints
  import opened Repositories
  import Utf8

  datatype Character = Character(
    normal: ByteString,
    base: ByteString,
    foldedCase: ByteString,
    swappedCase: ByteString,
    isBase: bool,
    isLetter: bool,
    isPunctuation: bool,
    isUppercase: bool)
  {
    predicate EqualsBase(other: Character) {
      base == other.base
    }

    predicate EqualsIgnoreCase(other: Character) {
      foldedCase == other.foldedCase
    }

    // Smart base matching on top of smart case matching.
    predicate MatchesSmart(other: Character) {
      || (isBase && EqualsBase(other) && (!isUppercase || other.isUppercase))
      || (!isUppercase && EqualsIgnoreCase(other))
      || normal == other.normal
    }
  }

  // ----- Canonical ordering -----

  // Where the first code point from `from` on stands whose class is zero (or, if not `zero`, is not).
  function FindClass(cps: seq<CodePoint>, from: nat, zero: bool): (k: nat)
    requires from <= |cps|
    ensures from <= k <= |cps|
    ensures forall i :: from <= i < k ==> (cps[i].combiningClass == 0) != zero
    ensures k < |cps| ==> (cps[k].combiningClass == 0) == zero
    decreases |cps| - from
  {
    if from == |cps| || (cps[from].combiningClass == 0) == zero then from else FindClass(cps, from + 1, zero)
  }

  predicate ClassesAscend(cps: seq<CodePoint>) {
    forall i, j :: 0 <= i < j < |cps| ==> cps[i].combiningClass <= cps[j].combiningClass
  }

  // The contract of std::sort: nothing is said of the order of equal elements.
  ghost predicate Sorts(sort: seq<CodePoint> -> seq<CodePoint>) {
    forall s: seq<CodePoint> :: IsSortOf(s, sort(s))
  }

  ghost predicate IsSortOf(s: seq<CodePoint>, r: seq<CodePoint>) {
    |r| == |s| && multiset(r) == multiset(s) && ClassesAscend(r)
  }

  // The code points from `from` on, with every run of non-zero classes sorted.
  function OrderFrom(sort: seq<CodePoint> -> seq<CodePoint>, cps: seq<CodePoint>, from: nat): seq<CodePoint>
    requires from <= |cps|
    decreases |cps| - from
  {
    var start := FindClass(cps, from, false);
    if start == |cps| then cps[from..]
    else
      var end := FindClass(cps, start, true);
      cps[from..start] + sort(cps[start..end]) + OrderFrom(sort, cps, end)
  }

  function CanonicalOrder(sort: seq<CodePoint> -> seq<CodePoint>, cps: seq<CodePoint>): seq<CodePoint> {
    OrderFrom(sort, cps, 0)
  }

  // std::find_if over the combining classes.
  method FindIf(cps: array<CodePoint>, from: nat, zero: bool) returns (k: nat)
    requires from <= cps.Length
    ensures k == FindClass(cps[..], from, zero)
  {
    k := from;
    while k < cps.Length && (cps[k].combiningClass == 0) != zero
      invariant from <= k <= cps.Length
      invariant FindClass(cps[..], from, zero) == FindClass(cps[..], k, zero)
    {
      k := k + 1;
    }
  }

  // std::sort of the range [start, end).
  method SortRange(sort: seq<CodePoint> -> seq<CodePoint>, cps: array<CodePoint>, start: nat, end: nat)
    requires start <= end <= cps.Length && Sorts(sort)
    modifies cps
    ensures cps[..start] == old(cps[..start]) && cps[end..] == old(cps[end..])
    ensures cps[start..end] == sort(old(cps[start..end]))
  {
    var sorted := sort(cps[start..end]);
    forall i | start <= i < end {
      cps[i] := sorted[i - start];
    }
  }

  lemma {:induction false} FindClassSuffix(cps: seq<CodePoint>, other: seq<CodePoint>, from: nat, zero: bool)
    requires from <= |cps| == |other| && forall i :: from <= i < |cps| ==> cps[i] == other[i]
    ensures FindClass(cps, from, zero) == FindClass(other, from, zero)
    decreases |cps| - from
  {
    if from == |cps| {
    } else {
      FindClassSuffix(cps, other, from + 1, zero);
    }
  }

  // What is ordered from some position on does not depend on what is before it.
  lemma {:induction false} OrderFromSuffix(sort: seq<CodePoint> -> seq<CodePoint>, cps: seq<CodePoint>,
                                           other: seq<CodePoint>, from: nat)
    requires from <= |cps| == |other| && forall i :: from <= i < |cps| ==> cps[i] == other[i]
    ensures OrderFrom(sort, cps, from) == OrderFrom(sort, other, from)
    decreases |cps| - from
  {
    var start := FindClass(cps, from, false);
    FindClassSuffix(cps, other, from, false);
    if start == |cps| {
      assert cps[from..] == other[from..];
    } else {
      var end := FindClass(cps, start, true);
      FindClassSuffix(cps, other, start, true);
      assert cps[from..start] == other[from..start] && cps[start..end] == other[start..end];
      OrderFromSuffix(sort, cps, other, end);
    }
  }

  // One turn of the loop; the last turn, which finds nothing to sort, is no exception.
  lemma OrderFromUnfolds(sort: seq<CodePoint> -> seq<CodePoint>, cps: seq<CodePoint>, from: nat, start: nat, end: nat)
    requires Sorts(sort) && from <= |cps|
    requires start == FindClass(cps, from, false) && end == FindClass(cps, start, true)
    ensures OrderFrom(sort, cps, from) == cps[from..start] + sort(cps[start..end]) + OrderFrom(sort, cps, end)
  {
    if start == |cps| {
      assert IsSortOf(cps[start..end], sort(cps[start..end]));
      assert OrderFrom(sort, cps, end) == [] && sort(cps[start..end]) == [];
      assert cps[from..start] == cps[from..];
    }
  }

  /** CanonicalSort, in place: sorts every run of code points of non-zero class. */
  method CanonicalSort(sort: seq<CodePoint> -> seq<CodePoint>, cps: array<CodePoint>)
    requires Sorts(sort)
    modifies cps
    ensures cps[..] == CanonicalOrder(sort, old(cps[..]))
  {
    var start := 0;
    while start != cps.Length
      invariant 0 <= start <= cps.Length
      invariant cps[..start] + OrderFrom(sort, cps[..], start) == CanonicalOrder(sort, old(cps[..]))
      decreases cps.Length - start
    {
      start := SortNextRun(sort, cps, start);
    }
    assert OrderFrom(sort, cps[..], start) == [];
    assert cps[..start] == cps[..];
  }

  // One turn of the loop: the start position strictly advances.
  method SortNextRun(sort: seq<CodePoint> -> seq<CodePoint>, cps: array<CodePoint>, from: nat) returns (end: nat)
    requires Sorts(sort) && from < cps.Length
    modifies cps
    ensures from < end <= cps.Length
    ensures cps[..end] + OrderFrom(sort, cps[..], end) == old(cps[..from] + OrderFrom(sort, cps[..], from))
  {
    ghost var before := cps[..];
    var start := FindIf(cps, from, false);
    end := FindIf(cps, start, true);
    OrderFromUnfolds(sort, before, from, start, end);
    SortRange(sort, cps, start, end);
    OrderFromSameSuffix(sort, before, cps[..], end);
    JoinTurn(before, cps[..], from, start, end, OrderFrom(sort, before, end));
  }

  lemma OrderFromSameSuffix(sort: seq<CodePoint> -> seq<CodePoint>, before: seq<CodePoint>, after: seq<CodePoint>,
                            end: nat)
    requires end <= |before| == |after| && after[end..] == before[end..]
    ensures OrderFrom(sort, after, end) == OrderFrom(sort, before, end)
  {
    forall i | end <= i < |after| ensures after[i] == before[i] {
      assert after[i] == after[end..][i - end] == before[end..][i - end] == before[i];
    }
    OrderFromSuffix(sort, before, after, end);
  }

  lemma JoinTurn<T>(before: seq<T>, after: seq<T>, from: nat, start: nat, end: nat, rest: seq<T>)
    requires from <= start <= end <= |before| == |after| && after[..start] == before[..start]
    ensures after[..end] + rest == before[..from] + (before[from..start] + after[start..end] + rest)
  {
    assert after[..end] == after[..start] + after[start..end];
    assert before[..start] == before[..from] + before[from..start];
  }

  // No code point leaves the stretch between two code points of class zero.
  ghost predicate PermutesRuns(cps: seq<CodePoint>, r: seq<CodePoint>) {
    && |r| == |cps| && multiset(r) == multiset(cps)
    && forall i :: 0 <= i < |cps| && cps[i].combiningClass == 0 ==> multiset(r[..i]) == multiset(cps[..i])
  }

  ghost predicate KeepsStarters(cps: seq<CodePoint>, r: seq<CodePoint>) {
    && |r| == |cps|
    && (forall i :: 0 <= i < |cps| ==> (r[i].combiningClass == 0) == (cps[i].combiningClass == 0))
    && (forall i :: 0 <= i < |cps| && cps[i].combiningClass == 0 ==> r[i] == cps[i])
  }

  ghost predicate RunsAscend(r: seq<CodePoint>) {
    forall i, j :: 0 <= i < j < |r| && j == i + 1 && r[i].combiningClass != 0 && r[j].combiningClass != 0
                   ==> r[i].combiningClass <= r[j].combiningClass
  }

  // What ordering does to a sequence: a permutation that keeps every code point of class zero in place,
  // lets none cross it, and leaves each run of non-zero classes ascending.
  ghost predicate Ordered(cps: seq<CodePoint>, r: seq<CodePoint>) {
    PermutesRuns(cps, r) && KeepsStarters(cps, r) && RunsAscend(r)
  }

  lemma PermutesConcat(a: seq<CodePoint>, r: seq<CodePoint>, b: seq<CodePoint>, s: seq<CodePoint>)
    requires PermutesRuns(a, r) && PermutesRuns(b, s)
    ensures PermutesRuns(a + b, r + s)
  {
    forall i | 0 <= i < |a + b| && (a + b)[i].combiningClass == 0
      ensures multiset((r + s)[..i]) == multiset((a + b)[..i])
    {
      if i < |a| {
        assert (r + s)[..i] == r[..i] && (a + b)[..i] == a[..i];
      } else {
        assert (r + s)[..i] == r + s[..i - |a|] && (a + b)[..i] == a + b[..i - |a|];
      }
    }
  }

  lemma OrderedConcat(a: seq<CodePoint>, r: seq<CodePoint>, b: seq<CodePoint>, s: seq<CodePoint>)
    requires Ordered(a, r) && Ordered(b, s)
    requires a == [] || b == [] || a[|a| - 1].combiningClass == 0 || b[0].combiningClass == 0
    ensures Ordered(a + b, r + s)
  {
    PermutesConcat(a, r, b, s);
    KeepsConcat(a, r, b, s);
    assert |r| == |a| && |s| == |b|;
    assert r != [] ==> (r[|r| - 1].combiningClass == 0) == (a[|a| - 1].combiningClass == 0);
    assert s != [] ==> (s[0].combiningClass == 0) == (b[0].combiningClass == 0);
    AscendConcat(r, s);
  }

  lemma KeepsConcat(a: seq<CodePoint>, r: seq<CodePoint>, b: seq<CodePoint>, s: seq<CodePoint>)
    requires KeepsStarters(a, r) && KeepsStarters(b, s)
    ensures KeepsStarters(a + b, r + s)
  {
  }

  lemma AscendConcat(r: seq<CodePoint>, s: seq<CodePoint>)
    requires RunsAscend(r) && RunsAscend(s)
    requires r == [] || s == [] || r[|r| - 1].combiningClass == 0 || s[0].combiningClass == 0
    ensures RunsAscend(r + s)
  {
  }

  lemma OrderedRun(sort: seq<CodePoint> -> seq<CodePoint>, run: seq<CodePoint>)
    requires Sorts(sort) && forall i :: 0 <= i < |run| ==> run[i].combiningClass != 0
    ensures Ordered(run, sort(run))
  {
    var r := sort(run);
    forall i | 0 <= i < |r| ensures r[i].combiningClass != 0 {
      assert r[i] in multiset(r);
      assert r[i] in run;
    }
  }

  lemma OrderedZeros(zeros: seq<CodePoint>)
    requires forall i :: 0 <= i < |zeros| ==> zeros[i].combiningClass == 0
    ensures Ordered(zeros, zeros)
  {
  }

  lemma {:induction false} OrderFromCorrect(sort: seq<CodePoint> -> seq<CodePoint>, cps: seq<CodePoint>, from: nat)
    requires Sorts(sort) && from <= |cps|
    ensures Ordered(cps[from..], OrderFrom(sort, cps, from))
    decreases |cps| - from
  {
    var start := FindClass(cps, from, false);
    if start == |cps| {
      OrderedZeros(cps[from..]);
    } else {
      var end := FindClass(cps, start, true);
      OrderFromCorrect(sort, cps, end);
      OrderedParts(sort, cps, from, start, end, OrderFrom(sort, cps, end));
    }
  }

  lemma OrderedParts(sort: seq<CodePoint> -> seq<CodePoint>, cps: seq<CodePoint>, from: nat, start: nat, end: nat,
                     ordered: seq<CodePoint>)
    requires Sorts(sort) && from <= start <= end <= |cps| && Ordered(cps[end..], ordered)
    requires forall i :: from <= i < start ==> cps[i].combiningClass == 0
    requires forall i :: start <= i < end ==> cps[i].combiningClass != 0
    requires end < |cps| ==> cps[end].combiningClass == 0
    ensures Ordered(cps[from..], cps[from..start] + sort(cps[start..end]) + ordered)
  {
    ThreeParts(cps, from, start, end);
    OrderedStretches(sort, cps[from..start], cps[start..end], cps[end..], ordered);
  }

  lemma ThreeParts<T>(s: seq<T>, from: nat, start: nat, end: nat)
    requires from <= start <= end <= |s|
    ensures s[from..] == s[from..start] + s[start..end] + s[end..]
  {
  }

  lemma OrderedStretches(sort: seq<CodePoint> -> seq<CodePoint>, zeros: seq<CodePoint>, run: seq<CodePoint>,
                         rest: seq<CodePoint>, ordered: seq<CodePoint>)
    requires Sorts(sort) && Ordered(rest, ordered)
    requires forall i :: 0 <= i < |zeros| ==> zeros[i].combiningClass == 0
    requires forall i :: 0 <= i < |run| ==> run[i].combiningClass != 0
    requires rest == [] || rest[0].combiningClass == 0
    ensures Ordered(zeros + run + rest, zeros + sort(run) + ordered)
  {
    OrderedZeros(zeros);
    OrderedRun(sort, run);
    OrderedJoin(zeros, run, sort(run), rest, ordered);
  }

  lemma OrderedJoin(zeros: seq<CodePoint>, run: seq<CodePoint>, sorted: seq<CodePoint>, rest: seq<CodePoint>,
                    ordered: seq<CodePoint>)
    requires Ordered(zeros, zeros) && Ordered(run, sorted) && Ordered(rest, ordered)
    requires zeros == [] || zeros[|zeros| - 1].combiningClass == 0
    requires rest == [] || rest[0].combiningClass == 0
    ensures Ordered(zeros + run + rest, zeros + sorted + ordered)
  {
    OrderedConcat(zeros, zeros, run, sorted);
    OrderedConcat(zeros + run, zeros + sorted, rest, ordered);
  }

  /** The ordering of a whole sequence does just that. */
  lemma CanonicalOrderCorrect(sort: seq<CodePoint> -> seq<CodePoint>, cps: seq<CodePoint>)
    requires Sorts(sort)
    ensures Ordered(cps, CanonicalOrder(sort, cps))
  {
    OrderFromCorrect(sort, cps, 0);
    assert cps[0..] == cps;
  }

  // ----- Building a character -----

  // The break properties whose code points the constructor keeps out of the base.
  predicate IsMark(cp: CodePoint) {
    cp.breakProperty == PREPEND || cp.breakProperty == EXTEND || cp.breakProperty == SPACINGMARK
  }

  function FoldedText(cps: seq<CodePoint>): ByteString {
    if cps == [] then [] else FoldedText(cps[..|cps| - 1]) + cps[|cps| - 1].foldedCase
  }

  function SwappedText(cps: seq<CodePoint>): ByteString {
    if cps == [] then [] else SwappedText(cps[..|cps| - 1]) + cps[|cps| - 1].swappedCase
  }

  function BaseText(cps: seq<CodePoint>): ByteString {
    if cps == [] then []
    else
      var last := cps[|cps| - 1];
      BaseText(cps[..|cps| - 1]) + if IsMark(last) then [] else last.foldedCase
  }

  function Assemble(cps: seq<CodePoint>): Character {
    Character(NormalText(cps), BaseText(cps), FoldedText(cps), SwappedText(cps),
              forall i :: 0 <= i < |cps| ==> !IsMark(cps[i]),
              exists i :: 0 <= i < |cps| && cps[i].isLetter,
              exists i :: 0 <= i < |cps| && cps[i].isPunctuation,
              exists i :: 0 <= i < |cps| && cps[i].isUppercase)
  }

  function BuildCharacter(u: Unicode, text: ByteString): Result<Character> {
    var cps :- CodePointsOf(u.table, text);
    Ok(Assemble(CanonicalOrder(u.sortByClass, cps)))
  }

  lemma AssembleSnoc(cps: seq<CodePoint>, cp: CodePoint)
    ensures var c, d := Assemble(cps), Assemble(cps + [cp]);
            && d.normal == c.normal + cp.normal
            && d.base == c.base + (if IsMark(cp) then [] else cp.foldedCase)
            && d.foldedCase == c.foldedCase + cp.foldedCase
            && d.swappedCase == c.swappedCase + cp.swappedCase
            && d.isBase == (c.isBase && !IsMark(cp))
            && d.isLetter == (c.isLetter || cp.isLetter)
            && d.isPunctuation == (c.isPunctuation || cp.isPunctuation)
            && d.isUppercase == (c.isUppercase || cp.isUppercase)
  {
    var all := cps + [cp];
    assert all[..|all| - 1] == cps && all[|cps|] == cp;
    assert forall i :: 0 <= i < |cps| ==> all[i] == cps[i];
    NormalTextSnoc(cps, cp);
  }

  function NormalPart(cp: CodePoint): ByteString {
    cp.normal
  }

  function FoldedPart(cp: CodePoint): ByteString {
    cp.foldedCase
  }

  function SwappedPart(cp: CodePoint): ByteString {
    cp.swappedCase
  }

  function BasePart(cp: CodePoint): ByteString {
    match cp.breakProperty
    case PREPEND | EXTEND | SPACINGMARK => []
    case _ => cp.foldedCase
  }

  // What the fields of a character say of the code points it is made of, in canonical order.
  ghost predicate IsMadeOf(c: Character, cps: seq<CodePoint>) {
    HasTextsOf(c, cps) && HasFlagsOf(c, cps)
  }

  ghost predicate HasTextsOf(c: Character, cps: seq<CodePoint>) {
    && Joins(c.normal, cps, NormalPart) && Joins(c.foldedCase, cps, FoldedPart)
    && Joins(c.swappedCase, cps, SwappedPart) && Joins(c.base, cps, BasePart)
  }

  ghost predicate HasFlagsOf(c: Character, cps: seq<CodePoint>) {
    && (c.isBase <==> forall cp :: cp in cps ==>
          cp.breakProperty != PREPEND && cp.breakProperty != EXTEND && cp.breakProperty != SPACINGMARK)
    && (c.isLetter <==> exists cp :: cp in cps && cp.isLetter)
    && (c.isPunctuation <==> exists cp :: cp in cps && cp.isPunctuation)
    && (c.isUppercase <==> exists cp :: cp in cps && cp.isUppercase)
  }

  /** A character is made of the code points it is assembled from; of none, it is an empty base character. */
  lemma AssembleIsMadeOf(cps: seq<CodePoint>)
    ensures IsMadeOf(Assemble(cps), cps)
    ensures cps == [] ==> Assemble(cps) == Character([], [], [], [], true, false, false, false)
  {
    NormalJoins(cps);
    FoldedJoins(cps);
    SwappedJoins(cps);
    BaseJoins(cps);
    AssembleFlags(cps);
  }

  lemma AssembleFlags(cps: seq<CodePoint>)
    ensures HasFlagsOf(Assemble(cps), cps)
  {
    assert forall i :: 0 <= i < |cps| ==> cps[i] in cps;
  }

  lemma {:induction false} NormalJoins(cps: seq<CodePoint>)
    ensures Joins(NormalText(cps), cps, NormalPart)
  {
    if cps == [] {
      JoinsNothing(NormalPart);
    } else {
      var front, last := cps[..|cps| - 1], cps[|cps| - 1];
      NormalJoins(front);
      JoinsSnoc(NormalText(front), front, NormalPart, last);
      assert cps == front + [last];
      NormalTextSnoc(front, last);
    }
  }

  lemma {:induction false} FoldedJoins(cps: seq<CodePoint>)
    ensures Joins(FoldedText(cps), cps, FoldedPart)
  {
    if cps == [] {
      JoinsNothing(FoldedPart);
    } else {
      var front, last := cps[..|cps| - 1], cps[|cps| - 1];
      FoldedJoins(front);
      JoinsSnoc(FoldedText(front), front, FoldedPart, last);
      assert cps == front + [last];
    }
  }

  lemma {:induction false} SwappedJoins(cps: seq<CodePoint>)
    ensures Joins(SwappedText(cps), cps, SwappedPart)
  {
    if cps == [] {
      JoinsNothing(SwappedPart);
    } else {
      var front, last := cps[..|cps| - 1], cps[|cps| - 1];
      SwappedJoins(front);
      JoinsSnoc(SwappedText(front), front, SwappedPart, last);
      assert cps == front + [last];
    }
  }

  lemma {:induction false} BaseJoins(cps: seq<CodePoint>)
    ensures Joins(BaseText(cps), cps, BasePart)
  {
    if cps == [] {
      JoinsNothing(BasePart);
    } else {
      var front, last := cps[..|cps| - 1], cps[|cps| - 1];
      BaseJoins(front);
      JoinsSnoc(BaseText(front), front, BasePart, last);
      assert cps == front + [last];
    }
  }

  // The character is made of the code points of the text, in a canonical order.
  ghost predicate IsCharacterOf(u: Unicode, text: ByteString, c: Character) {
    && CodePointsOf(u.table, text).Ok?
    && exists ordered: seq<CodePoint> :: Ordered(CodePointsOf(u.table, text).value, ordered) && IsMadeOf(c, ordered)
  }

  lemma BuiltIsCharacter(u: Unicode, text: ByteString)
    requires Sorts(u.sortByClass) && BuildCharacter(u, text).Ok?
    ensures IsCharacterOf(u, text, BuildCharacter(u, text).value)
  {
    var cps := CodePointsOf(u.table, text).value;
    CanonicalOrderCorrect(u.sortByClass, cps);
    AssembleIsMadeOf(CanonicalOrder(u.sortByClass, cps));
  }

  /** The constructor of Character. */
  method ConstructCharacter(u: Unicode, codePoints: Repository<CodePoint>, text: ByteString)
    returns (r: Result<Character>)
    requires TableSorted(u.table) && Sorts(u.sortByClass) && IsCodePointTable(u.table, codePoints)
    modifies codePoints
    ensures r == BuildCharacter(u, text)
    ensures r.Ok? ==> IsCharacterOf(u, text, r.value)
    ensures IsCodePointTable(u.table, codePoints) && HasPieces(codePoints.elementHolder.Keys, text)
    ensures codePoints.Extends(old(codePoints.elementHolder), codePoints.elementHolder)
  {
    var broken := BreakIntoCodePoints(u.table, codePoints, text);
    if broken.Err? {
      return Err(broken.error);
    }
    var cps := new CodePoint[|broken.value|](i requires 0 <= i < |broken.value| => broken.value[i]);
    assert cps[..] == broken.value;
    CanonicalSort(u.sortByClass, cps);
    var character := AssembleCharacter(cps[..]);
    BuiltIsCharacter(u, text);
    return Ok(character);
  }

  method AssembleCharacter(cps: seq<CodePoint>) returns (character: Character)
    ensures character == Assemble(cps)
    ensures IsMadeOf(character, cps)
  {
    var normal, base, folded, swapped: ByteString := [], [], [], [];
    var isBase, isLetter, isPunctuation, isUppercase := true, false, false, false;
    for i := 0 to |cps|
      invariant Character(normal, base, folded, swapped, isBase, isLetter, isPunctuation, isUppercase)
                == Assemble(cps[..i])
    {
      assert cps[..i + 1] == cps[..i] + [cps[i]];
      AssembleSnoc(cps[..i], cps[i]);
      normal := normal + cps[i].normal;
      folded := folded + cps[i].foldedCase;
      swapped := swapped + cps[i].swappedCase;
      isLetter := isLetter || cps[i].isLetter;
      isPunctuation := isPunctuation || cps[i].isPunctuation;
      isUppercase := isUppercase || cps[i].isUppercase;
      match cps[i].breakProperty {
        case PREPEND | EXTEND | SPACINGMARK => isBase := false;
        case _ => base := base + cps[i].foldedCase;
      }
    }
    assert cps[..|cps|] == cps;
    character := Character(normal, base, folded, swapped, isBase, isLetter, isPunctuation, isUppercase);
    AssembleIsMadeOf(cps);
  }

  // ----- Normal form -----

  function NormalizeInput(table: seq<Row>, text: ByteString): Result<ByteString> {
    var cps :- CodePointsOf(table, text);
    Ok(NormalText(cps))
  }

  method JoinNormals(cps: seq<CodePoint>) returns (normal: ByteString)
    ensures normal == NormalText(cps)
  {
    normal := [];
    for i := 0 to |cps|
      invariant normal == NormalText(cps[..i])
    {
      assert cps[..i + 1] == cps[..i] + [cps[i]];
      NormalTextSnoc(cps[..i], cps[i]);
      normal := normal + cps[i].normal;
    }
    assert cps[..|cps|] == cps;
  }

  method ComputeNormalizeInput(table: seq<Row>, codePoints: Repository<CodePoint>, text: ByteString)
    returns (r: Result<ByteString>)
    requires TableSorted(table) && IsCodePointTable(table, codePoints)
    modifies codePoints
    ensures r == NormalizeInput(table, text)
    // The normal strings of the code points, joined; or the error of the split.
    ensures match Utf8.Split(text)
            case Ok(pieces) => r.Ok? && Joins(r.value, LookupEach(table, pieces), NormalPart)
            case Err(e) => r == Err(e)
    ensures IsCodePointTable(table, codePoints) && HasPieces(codePoints.elementHolder.Keys, text)
    ensures codePoints.Extends(old(codePoints.elementHolder), codePoints.elementHolder)
  {
    var broken := BreakIntoCodePoints(table, codePoints, text);
    if broken.Err? {
      return Err(broken.error);
    }
    var normal := JoinNormals(broken.value);
    NormalJoins(broken.value);
    return Ok(normal);
  }

  // The text splits, and each of its code points is its own normal form.
  predicate InNormalForm(table: seq<Row>, text: ByteString) {
    var pieces := Utf8.Split(text);
    pieces.Ok? && forall i :: 0 <= i < |pieces.value| ==> Lookup(table, pieces.value[i]).normal == pieces.value[i]
  }

  // What normalisation needs of the table: its normal strings are fully decomposed.
  predicate NormalClosed(table: seq<Row>) {
    forall i :: 0 <= i < |table| ==> InNormalForm(table, table[i].codePoint.normal)
  }

  lemma InNormalFormConcat(table: seq<Row>, a: ByteString, b: ByteString)
    requires InNormalForm(table, a) && InNormalForm(table, b)
    ensures InNormalForm(table, a + b)
  {
    Utf8.SplitConcat(a, b);
  }

  lemma {:induction false} LookupInTable(table: seq<Row>, text: ByteString)
    ensures Lookup(table, text) == DefaultCodePoint(text)
            || exists i :: 0 <= i < |table| && table[i].original == text && table[i].codePoint == Lookup(table, text)
  {
    if table == [] || table[0].original == text {
    } else {
      LookupInTable(table[1..], text);
      var rest := table[1..];
      if i :| 0 <= i < |rest| && rest[i].original == text && rest[i].codePoint == Lookup(rest, text) {
        assert table[i + 1].codePoint == Lookup(table, text);
      }
    }
  }

  lemma LookupNormal(table: seq<Row>, piece: ByteString)
    requires NormalClosed(table) && Utf8.Shaped(piece)
    ensures InNormalForm(table, Lookup(table, piece).normal)
  {
    LookupInTable(table, piece);
    if Lookup(table, piece) == DefaultCodePoint(piece) {
      Flatten1(piece);
      Utf8.SplitCharacterised(piece, [piece]);
    }
  }

  lemma Flatten1(piece: ByteString)
    ensures Flatten([piece]) == piece
  {
    assert Flatten([piece]) == piece + Flatten<byte>([]);
  }

  ghost predicate IsLookup(table: seq<Row>, cp: CodePoint) {
    exists piece: ByteString :: Utf8.Shaped(piece) && cp == Lookup(table, piece)
  }

  // Code points as BreakIntoCodePoints finds them in some text.
  ghost predicate FromTable(table: seq<Row>, cps: seq<CodePoint>) {
    forall i :: 0 <= i < |cps| ==> IsLookup(table, cps[i])
  }

  lemma CodePointsFromTable(table: seq<Row>, text: ByteString)
    requires CodePointsOf(table, text).Ok?
    ensures FromTable(table, CodePointsOf(table, text).value)
  {
    var pieces := Utf8.Split(text).value;
    Utf8.SplitCharacterised(text, pieces);
    var cps := CodePointsOf(table, text).value;
    forall i | 0 <= i < |cps| ensures IsLookup(table, cps[i]) {
      assert Utf8.Shaped(pieces[i]) && cps[i] == Lookup(table, pieces[i]);
    }
  }

  lemma {:induction false} NormalTextInNormalForm(table: seq<Row>, cps: seq<CodePoint>)
    requires NormalClosed(table) && FromTable(table, cps)
    ensures InNormalForm(table, NormalText(cps))
  {
    if cps == [] {
    } else {
      assert IsLookup(table, cps[0]);
      var piece: ByteString :| Utf8.Shaped(piece) && cps[0] == Lookup(table, piece);
      LookupNormal(table, piece);
      forall i | 0 <= i < |cps[1..]| ensures IsLookup(table, cps[1..][i]) {
        assert cps[1..][i] == cps[i + 1];
      }
      NormalTextInNormalForm(table, cps[1..]);
      InNormalFormConcat(table, cps[0].normal, NormalText(cps[1..]));
    }
  }

  /** A text in normal form is a fixed point of NormalizeInput. */
  lemma NormalFormFixed(table: seq<Row>, text: ByteString)
    requires InNormalForm(table, text)
    ensures NormalizeInput(table, text) == Ok(text)
  {
    var pieces := Utf8.Split(text).value;
    Utf8.SplitCharacterised(text, pieces);
    NormalTextOfPieces(table, pieces);
  }

  lemma {:induction false} NormalTextOfPieces(table: seq<Row>, pieces: seq<ByteString>)
    requires forall i :: 0 <= i < |pieces| ==> Lookup(table, pieces[i]).normal == pieces[i]
    ensures NormalText(LookupEach(table, pieces)) == Flatten(pieces)
  {
    if pieces == [] {
    } else {
      assert forall i :: 0 <= i < |pieces[1..]| ==> pieces[1..][i] == pieces[i + 1];
      assert LookupEach(table, pieces)[1..] == LookupEach(table, pieces[1..]);
      NormalTextOfPieces(table, pieces[1..]);
    }
  }

  /** NormalizeInput is idempotent over a table whose normal strings are fully decomposed. */
  lemma NormalizeIdempotent(table: seq<Row>, text: ByteString)
    requires NormalClosed(table) && NormalizeInput(table, text).Ok?
    ensures NormalizeInput(table, NormalizeInput(table, text).value) == NormalizeInput(table, text)
  {
    CodePointsFromTable(table, text);
    NormalTextInNormalForm(table, CodePointsOf(table, text).value);
    NormalFormFixed(table, NormalizeInput(table, text).value);
  }
}
