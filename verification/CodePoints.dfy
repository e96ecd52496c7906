/** Code points and the Unicode table (src/core/CodePoint.h, src/core/CodePoint.cpp:50-109). */
module CodePoints {
  import opened Bytes
  import opened Repositories
  import Utf8

  datatype BreakProperty =
    | OTHER | CR | LF | CONTROL | EXTEND | ZWJ | REGIONAL_INDICATOR | PREPEND | SPACINGMARK
    | L | V | T | LV | LVT | EXTPICT

  datatype CodePoint = CodePoint(
    normal: ByteString,
    foldedCase: ByteString,
    swappedCase: ByteString,
    isLetter: bool,
    isPunctuation: bool,
    isUppercase: bool,
    breakProperty: BreakProperty,
    combiningClass: byte)

  // A row of the table: the text of a code point and what the table knows of it.
  datatype Row = Row(original: ByteString, codePoint: CodePoint)

  /** What the program takes from outside: the Unicode table, and the order std::sort gives a
      run of code points compared by combining class (equal classes may come in any order). */
  datatype Unicode = Unicode(table: seq<Row>, sortByClass: seq<CodePoint> -> seq<CodePoint>)

  predicate TableSorted(table: seq<Row>) {
    forall i, j :: 0 <= i < j < |table| ==> LexLess(table[i].original, table[j].original)
  }

  function DefaultCodePoint(text: ByteString): CodePoint {
    CodePoint(text, text, text, false, false, false, OTHER, 0)
  }

  function Lookup(table: seq<Row>, text: ByteString): CodePoint {
    if table == [] then DefaultCodePoint(text)
    else if table[0].original == text then table[0].codePoint
    else Lookup(table[1..], text)
  }

  lemma {:induction false} LookupSkips(table: seq<Row>, text: ByteString, k: nat)
    requires k <= |table| && forall i :: 0 <= i < k ==> table[i].original != text
    ensures Lookup(table, text) == Lookup(table[k..], text)
  {
    if k == 0 {
      assert table[0..] == table;
    } else {
      assert table[1..][k - 1..] == table[k..];
      LookupSkips(table[1..], text, k - 1);
    }
  }

  /** FindCodePoint: std::lower_bound over the sorted originals finds the row of the text, or no row has it. */
  method FindCodePoint(table: seq<Row>, text: ByteString) returns (codePoint: CodePoint)
    requires TableSorted(table)
    ensures codePoint == Lookup(table, text)
    ensures forall i :: 0 <= i < |table| && table[i].original == text ==> codePoint == table[i].codePoint
    ensures (forall i :: 0 <= i < |table| ==> table[i].original != text) ==>
              && codePoint.normal == codePoint.foldedCase == codePoint.swappedCase == text
              && !codePoint.isLetter && !codePoint.isPunctuation && !codePoint.isUppercase
              && codePoint.breakProperty == OTHER && codePoint.combiningClass == 0
  {
    var low, high := 0, |table|;
    while low < high
      invariant 0 <= low <= high <= |table|
      invariant forall i :: 0 <= i < low ==> LexLess(table[i].original, text)
      invariant forall i :: high <= i < |table| ==> !LexLess(table[i].original, text)
    {
      var middle := (low + high) / 2;
      if LexLess(table[middle].original, text) {
        forall i | 0 <= i < middle ensures LexLess(table[i].original, text) {
          LexTransitive(table[i].original, table[middle].original, text);
        }
        low := middle + 1;
      } else {
        forall i | middle < i < |table| ensures !LexLess(table[i].original, text) {
          if LexLess(table[i].original, text) {
            LexTransitive(table[middle].original, table[i].original, text);
          }
        }
        high := middle;
      }
    }
    LexTotal(text, text);
    LookupSkips(table, text, low);
    if low < |table| && table[low].original == text {
      forall i | 0 <= i < |table| && table[i].original == text ensures i == low {
        LexTotal(table[i].original, table[low].original);
      }
      return table[low].codePoint;
    }
    forall i | low < i < |table| ensures table[i].original != text {
      assert LexLess(table[low].original, table[i].original);
    }
    LookupSkips(table, text, |table|);
    return DefaultCodePoint(text);
  }

  function LookupEach(table: seq<Row>, pieces: seq<ByteString>): (codePoints: seq<CodePoint>)
    ensures |codePoints| == |pieces|
  {
    seq(|pieces|, i requires 0 <= i < |pieces| => Lookup(table, pieces[i]))
  }

  // BreakIntoCodePoints as a whole: split, then look every piece up.
  function CodePointsOf(table: seq<Row>, text: ByteString): Result<seq<CodePoint>> {
    var pieces :- Utf8.Split(text);
    Ok(LookupEach(table, pieces))
  }

  function CodePointBuilder(table: seq<Row>): ByteString -> Result<CodePoint> {
    (text: ByteString) => Ok(Lookup(table, text))
  }

  ghost predicate IsCodePointTable(table: seq<Row>, codePoints: Repository<CodePoint>)
    reads codePoints
  {
    codePoints.Valid() && codePoints.build == CodePointBuilder(table) && !codePoints.clips
  }

  // If the text splits, its pieces are among the keys of the memo table.
  ghost predicate HasPieces(keys: set<ByteString>, text: ByteString) {
    var pieces := Utf8.Split(text);
    pieces.Ok? ==> Texts(pieces.value) <= keys
  }

  // Repository<CodePoint>: a code point can be made of any text.
  method GetCodePoint(table: seq<Row>, codePoints: Repository<CodePoint>, key: ByteString)
    returns (element: Interned<CodePoint>)
    requires TableSorted(table) && IsCodePointTable(table, codePoints)
    modifies codePoints
    ensures codePoints.GotOne(old(codePoints.elementHolder), key, element)
  {
    ghost var before := codePoints.elementHolder;
    var found := codePoints.GetValueElseInsert(key);
    if found != null {
      codePoints.OneKept(before, key);
      return found;
    }
    var codePoint := FindCodePoint(table, key);
    element := codePoints.Keep(key, codePoint);
    assert codePoints.build(key) == Ok(codePoint);
    codePoints.OneMade(before, key, element);
  }

  method GetCodePoints(table: seq<Row>, codePoints: Repository<CodePoint>, elements: seq<ByteString>)
    returns (objects: seq<Interned<CodePoint>>)
    requires TableSorted(table) && IsCodePointTable(table, codePoints)
    modifies codePoints
    ensures codePoints.Got(old(codePoints.elementHolder), elements, Ok(objects))
  {
    ghost var initial := codePoints.elementHolder;
    objects := [];
    for i := 0 to |elements|
      invariant codePoints.GotSoFar(initial, codePoints.elementHolder, codePoints.Keys(elements)[..i], objects)
    {
      ghost var before := codePoints.elementHolder;
      var element := GetCodePoint(table, codePoints, codePoints.Key(elements[i]));
      codePoints.GoesOn(initial, before, elements, i, objects, element);
      objects := objects + [element];
    }
    codePoints.Ends(initial, elements, objects);
  }

  /** BreakIntoCodePoints, through the memo table. */
  method BreakIntoCodePoints(table: seq<Row>, codePoints: Repository<CodePoint>, text: ByteString)
    returns (r: Result<seq<CodePoint>>)
    requires TableSorted(table) && IsCodePointTable(table, codePoints)
    modifies codePoints
    ensures r == CodePointsOf(table, text)
    ensures IsCodePointTable(table, codePoints) && HasPieces(codePoints.elementHolder.Keys, text)
    ensures codePoints.Extends(old(codePoints.elementHolder), codePoints.elementHolder)
  {
    var pieces := Utf8.BreakIntoPieces(text);
    if pieces.Err? {
      return Err(pieces.error);
    }
    assert codePoints.Keys(pieces.value) == pieces.value;
    TraverseLookup(table, pieces.value);
    AttemptedAll(CodePointBuilder(table), pieces.value);
    var found := GetCodePoints(table, codePoints, pieces.value);
    return Ok(Values(found));
  }

  lemma TraverseLookup(table: seq<Row>, pieces: seq<ByteString>)
    ensures Traverse(CodePointBuilder(table), pieces) == Ok(LookupEach(table, pieces))
  {
    TraverseOk(CodePointBuilder(table), pieces);
    assert Traverse(CodePointBuilder(table), pieces).value == LookupEach(table, pieces);
  }

  // The concatenated normal strings of a code point sequence.
  function NormalText(codePoints: seq<CodePoint>): ByteString {
    if codePoints == [] then [] else codePoints[0].normal + NormalText(codePoints[1..])
  }

  lemma {:induction false} NormalTextConcat(a: seq<CodePoint>, b: seq<CodePoint>)
    ensures NormalText(a + b) == NormalText(a) + NormalText(b)
  {
    if a == [] {
      assert a + b == b;
    } else {
      assert (a + b)[0] == a[0] && (a + b)[1..] == a[1..] + b;
      NormalTextConcat(a[1..], b);
    }
  }

  lemma NormalTextOne(cp: CodePoint)
    ensures NormalText([cp]) == cp.normal
  {
    assert NormalText([cp]) == cp.normal + NormalText([]);
  }

  lemma NormalTextSnoc(a: seq<CodePoint>, last: CodePoint)
    ensures NormalText(a + [last]) == NormalText(a) + last.normal
  {
    NormalTextConcat(a, [last]);
    NormalTextOne(last);
  }
}
