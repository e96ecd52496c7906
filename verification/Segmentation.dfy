/** Grapheme clusters (src/core/Word.cpp:28-268) against section 3.1.1 of UAX #29, revision 37. */
module Segmentation {
  import opened Bytes
  import opened CodePoints

  // ----- The standard, rule by rule, looking back as far as it asks -----

  predicate IsControl(p: BreakProperty) {
    p == CR || p == LF || p == CONTROL
  }

  // The text before position i ends in \p{Extended_Pictographic} Extend*.
  predicate EndsInPictograph(cps: seq<CodePoint>, i: nat)
    requires i <= |cps|
  {
    exists j :: 0 <= j < i && cps[j].breakProperty == EXTPICT
                && forall k :: j < k < i ==> cps[k].breakProperty == EXTEND
  }

  predicate IsIndicatorRun(cps: seq<CodePoint>, start: nat, end: nat)
    requires start <= end <= |cps|
  {
    forall k :: start <= k < end ==> cps[k].breakProperty == REGIONAL_INDICATOR
  }

  // The text before position i ends in sot (RI RI)* RI or [^RI] (RI RI)* RI.
  predicate EndsInOddIndicators(cps: seq<CodePoint>, i: nat)
    requires i <= |cps|
  {
    exists j :: 0 <= j < i && (i - j) % 2 == 1 && IsIndicatorRun(cps, j, i)
                && (j == 0 || cps[j - 1].breakProperty != REGIONAL_INDICATOR)
  }

  predicate Gb6(p: BreakProperty, c: BreakProperty) {
    p == L && (c == L || c == V || c == LV || c == LVT)
  }

  predicate Gb7(p: BreakProperty, c: BreakProperty) {
    (p == LV || p == V) && (c == V || c == T)
  }

  predicate Gb8(p: BreakProperty, c: BreakProperty) {
    (p == LVT || p == T) && c == T
  }

  predicate Gb9(c: BreakProperty) {
    c == EXTEND || c == ZWJ
  }

  predicate Gb11(cps: seq<CodePoint>, i: nat)
    requires 0 < i < |cps|
  {
    && cps[i - 1].breakProperty == ZWJ && cps[i].breakProperty == EXTPICT
    && EndsInPictograph(cps, i - 1)
  }

  predicate Gb12And13(cps: seq<CodePoint>, i: nat)
    requires 0 < i < |cps|
  {
    cps[i].breakProperty == REGIONAL_INDICATOR && EndsInOddIndicators(cps, i)
  }

  /** Rules GB3 to GB999 in their order of precedence: is there a boundary before position i? */
  predicate Boundary(cps: seq<CodePoint>, i: nat)
    requires 0 < i < |cps|
  {
    var p, c := cps[i - 1].breakProperty, cps[i].breakProperty;
    if p == CR && c == LF then false                              // GB3
    else if IsControl(p) then true                                // GB4
    else if IsControl(c) then true                                // GB5
    else if Gb6(p, c) || Gb7(p, c) || Gb8(p, c) then false        // GB6, GB7, GB8
    else if Gb9(c) || c == SPACINGMARK || p == PREPEND then false // GB9, GB9a, GB9b
    else if Gb11(cps, i) then false                               // GB11
    else if Gb12And13(cps, i) then false                          // GB12, GB13
    else true                                                     // GB999
  }

  // Where in a syllable (leading consonant, vowel, trailing consonant) a Hangul code point begins and where it ends.
  function SyllableStages(p: BreakProperty): Option<(int, int)> {
    match p
    case L => Some((0, 0))
    case V => Some((1, 1))
    case T => Some((2, 2))
    case LV => Some((0, 1))
    case LVT => Some((0, 2))
    case _ => None
  }

  /** GB6 to GB8 keep two Hangul code points together exactly when the second one goes on in the stage in which the
      first one ends, or begins the next stage. */
  lemma HangulSyllables(p: BreakProperty, c: BreakProperty)
    ensures Gb6(p, c) || Gb7(p, c) || Gb8(p, c) <==>
            && SyllableStages(p).Some? && SyllableStages(c).Some?
            && 0 <= SyllableStages(c).value.0 - SyllableStages(p).value.1 <= 1
  {
  }

  /** A mark or joiner begins a cluster only after a control, and only a control begins one after a prepended mark. */
  lemma MarksJoin(cps: seq<CodePoint>, i: nat)
    requires 0 < i < |cps| && Boundary(cps, i)
    ensures cps[i].breakProperty in {EXTEND, ZWJ, SPACINGMARK} ==> cps[i - 1].breakProperty in {CR, LF, CONTROL}
    ensures cps[i - 1].breakProperty == PREPEND ==> cps[i].breakProperty in {CR, LF, CONTROL}
  {
  }

  // A sequence cut into parts: those that are closed, and the last one, which may still grow.
  datatype Parts<T> = Parts(closed: seq<seq<T>>, last: seq<T>) {
    function All(): seq<seq<T>> {
      closed + [last]
    }

    // One more element either starts a part or joins the last one.
    function Grow(starts: bool, x: T): Parts<T> {
      if starts then Parts(All(), [x]) else Parts(closed, last + [x])
    }
  }

  // Cuts the stretch of a sequence from `low` to `high` before every position inside it that is marked.
  function CutBy<T>(s: seq<T>, marks: seq<bool>, low: nat, high: nat): Parts<T>
    requires low < high <= |s| == |marks|
    decreases high
  {
    if high == low + 1 then Parts([], [s[low]])
    else CutBy(s, marks, low, high - 1).Grow(marks[high - 1], s[high - 1])
  }

  // For each of the first n positions, whether the standard puts a boundary before it.
  function BoundaryMarks(cps: seq<CodePoint>, n: nat): (marks: seq<bool>)
    requires n <= |cps|
    ensures |marks| == n
  {
    if n == 0 then [] else BoundaryMarks(cps, n - 1) + [n > 1 && Boundary(cps, n - 1)]
  }

  lemma {:induction false} MarkAt(cps: seq<CodePoint>, n: nat, i: nat)
    requires i < n <= |cps|
    ensures BoundaryMarks(cps, n)[i] == (i > 0 && Boundary(cps, i))
  {
    if i == n - 1 {
    } else {
      MarkAt(cps, n - 1, i);
    }
  }

  // Cuts a text at the boundaries of the standard (GB1 and GB2 cut at both ends).
  function Clusters(cps: seq<CodePoint>): (clusters: seq<seq<CodePoint>>)
    ensures (clusters == []) == (cps == [])
  {
    if cps == [] then [] else CutBy(cps, BoundaryMarks(cps, |cps|), 0, |cps|).All()
  }

  function ClusterTexts(clusters: seq<seq<CodePoint>>): (texts: seq<ByteString>)
    ensures |texts| == |clusters|
  {
    seq(|clusters|, k requires 0 <= k < |clusters| => NormalText(clusters[k]))
  }

  // ----- What the two flags of the machine stand for -----

  // The text before i ends in ExtPict Extend+ or in ExtPict Extend* ZWJ.
  predicate WithinEmoji(cps: seq<CodePoint>, i: nat)
    requires 0 < i <= |cps|
  {
    || (cps[i - 1].breakProperty == EXTEND && EndsInPictograph(cps, i))
    || (cps[i - 1].breakProperty == ZWJ && EndsInPictograph(cps, i - 1))
  }

  // The text before i ends in a non-empty regional indicator run of even length.
  predicate EvenIndicators(cps: seq<CodePoint>, i: nat)
    requires 0 < i <= |cps|
  {
    cps[i - 1].breakProperty == REGIONAL_INDICATOR && !EndsInOddIndicators(cps, i)
  }

  // The rules of the standard with the look-behind of GB11, GB12 and GB13 answered by the flags.
  predicate FlagBoundary(p: BreakProperty, c: BreakProperty, withinEmoji: bool, evenIndicators: bool) {
    if p == CR && c == LF then false
    else if IsControl(p) || IsControl(c) then true
    else !(|| Gb6(p, c) || Gb7(p, c) || Gb8(p, c) || Gb9(c) || c == SPACINGMARK || p == PREPEND
           || (p == ZWJ && c == EXTPICT && withinEmoji)
           || (p == REGIONAL_INDICATOR && c == REGIONAL_INDICATOR && !evenIndicators))
  }

  predicate NextWithinEmoji(p: BreakProperty, c: BreakProperty, withinEmoji: bool) {
    Gb9(c) && (p == EXTPICT || (p == EXTEND && withinEmoji))
  }

  predicate NextEvenIndicators(p: BreakProperty, c: BreakProperty, evenIndicators: bool) {
    p == REGIONAL_INDICATOR && c == REGIONAL_INDICATOR && !evenIndicators
  }

  /** Two bits are enough: they decide the boundary as the standard does, and they carry over. */
  lemma TwoFlagsSuffice(cps: seq<CodePoint>, i: nat)
    requires 0 < i < |cps|
    ensures var p, c := cps[i - 1].breakProperty, cps[i].breakProperty;
            && Boundary(cps, i) == FlagBoundary(p, c, WithinEmoji(cps, i), EvenIndicators(cps, i))
            && WithinEmoji(cps, i + 1) == NextWithinEmoji(p, c, WithinEmoji(cps, i))
            && EvenIndicators(cps, i + 1) == NextEvenIndicators(p, c, EvenIndicators(cps, i))
    ensures Boundary(cps, i) ==> !WithinEmoji(cps, i + 1) && !EvenIndicators(cps, i + 1)
  {
    PictographStep(cps, i);
    PictographStep(cps, i + 1);
    IndicatorStep(cps, i);
    IndicatorStep(cps, i + 1);
  }

  lemma PictographStep(cps: seq<CodePoint>, i: nat)
    requires 0 < i <= |cps|
    ensures EndsInPictograph(cps, i) <==>
            || cps[i - 1].breakProperty == EXTPICT
            || (cps[i - 1].breakProperty == EXTEND && EndsInPictograph(cps, i - 1))
  {
  }

  lemma {:induction false} IndicatorRunStart(cps: seq<CodePoint>, i: nat) returns (start: nat)
    requires i <= |cps|
    ensures start <= i && IsIndicatorRun(cps, start, i)
    ensures start == 0 || cps[start - 1].breakProperty != REGIONAL_INDICATOR
  {
    if i == 0 || cps[i - 1].breakProperty != REGIONAL_INDICATOR {
      return i;
    }
    start := IndicatorRunStart(cps, i - 1);
  }

  lemma IndicatorStep(cps: seq<CodePoint>, i: nat)
    requires 0 < i <= |cps|
    ensures EndsInOddIndicators(cps, i) <==>
            cps[i - 1].breakProperty == REGIONAL_INDICATOR && !EndsInOddIndicators(cps, i - 1)
  {
    if cps[i - 1].breakProperty == REGIONAL_INDICATOR {
      var start := IndicatorRunStart(cps, i);
      assert start < i && IsIndicatorRun(cps, start, i - 1);
      forall j | 0 <= j <= i && IsIndicatorRun(cps, j, i) && (j == 0 || cps[j - 1].breakProperty != REGIONAL_INDICATOR)
        ensures j == start || j == i
      {
      }
    }
  }

  // ----- The machine -----

  // The switch of the loop: does the code point join the current character, and what do the flags become?
  method Decide(previous: BreakProperty, property: BreakProperty, within: bool, odd: bool)
    returns (joins: bool, withinEmojiModifier: bool, isRegionalIndicatorNbOdd: bool)
    requires within ==> previous == EXTEND || previous == ZWJ
    requires odd ==> previous == REGIONAL_INDICATOR
    ensures joins == !FlagBoundary(previous, property, within, odd)
    ensures withinEmojiModifier == NextWithinEmoji(previous, property, within)
    ensures isRegionalIndicatorNbOdd == NextEvenIndicators(previous, property, odd)
  {
    joins, withinEmojiModifier, isRegionalIndicatorNbOdd := false, within, odd;
    match previous {
      case CR =>
        joins := property == LF;
      case CONTROL | LF =>
      case L =>
        joins := property in {L, V, LV, LVT, EXTEND, ZWJ, SPACINGMARK};
      case LV | V =>
        joins := property in {V, T, EXTEND, ZWJ, SPACINGMARK};
      case LVT | T =>
        joins := property in {T, EXTEND, ZWJ, SPACINGMARK};
      case PREPEND =>
        joins := property !in {CONTROL, CR, LF};
      case EXTEND =>
        if property == EXTEND || property == ZWJ {
          joins := true;
        } else {
          joins := property == SPACINGMARK;
          withinEmojiModifier := false;
        }
      case ZWJ =>
        if property == EXTEND || property == ZWJ || property == SPACINGMARK {
          joins := true;
          withinEmojiModifier := false;
        } else if property == EXTPICT {
          if withinEmojiModifier {
            joins := true;
            withinEmojiModifier := false;
          }
        } else {
          withinEmojiModifier := false;
        }
      case EXTPICT =>
        if property == SPACINGMARK {
          joins := true;
        } else if property == EXTEND || property == ZWJ {
          joins := true;
          withinEmojiModifier := true;
        }
      case REGIONAL_INDICATOR =>
        if property == EXTEND || property == ZWJ || property == SPACINGMARK {
          joins := true;
          isRegionalIndicatorNbOdd := false;
        } else if property == REGIONAL_INDICATOR {
          isRegionalIndicatorNbOdd := !isRegionalIndicatorNbOdd;
          joins := isRegionalIndicatorNbOdd;
        } else {
          isRegionalIndicatorNbOdd := false;
        }
      case OTHER | SPACINGMARK =>
        joins := property in {EXTEND, ZWJ, SPACINGMARK};
    }
  }

  /** BreakCodePointsIntoCharacters: one flag for GB11 and one for GB12/GB13 stand in for the look-behind. */
  method BreakCodePointsIntoCharacters(cps: seq<CodePoint>) returns (characters: seq<ByteString>)
    ensures characters == ClusterTexts(Clusters(cps))
  {
    characters := [];
    if |cps| == 0 {
      return;
    }
    var character := cps[0].normal;
    ghost var closed: seq<seq<CodePoint>>, current: seq<CodePoint> := [], [cps[0]];
    NormalTextOne(cps[0]);
    var isRegionalIndicatorNbOdd := false;
    var withinEmojiModifier := false;
    PictographStep(cps, 1);
    IndicatorStep(cps, 1);
    for i := 1 to |cps|
      invariant CutBy(cps, BoundaryMarks(cps, |cps|), 0, i) == Parts(closed, current)
      invariant characters == ClusterTexts(closed) && character == NormalText(current)
      invariant withinEmojiModifier == WithinEmoji(cps, i)
      invariant isRegionalIndicatorNbOdd == EvenIndicators(cps, i)
    {
      ClustersStep(cps, i, closed, current);
      var joins;
      joins, withinEmojiModifier, isRegionalIndicatorNbOdd :=
        Decide(cps[i - 1].breakProperty, cps[i].breakProperty, withinEmojiModifier, isRegionalIndicatorNbOdd);
      if joins {
        character := character + cps[i].normal;
        current := current + [cps[i]];
      } else {
        characters := characters + [character];
        closed := closed + [current];
        character := cps[i].normal;
        current := [cps[i]];
      }
    }
    characters := characters + [character];
  }

  // One turn of the loop, seen from the specification.
  lemma ClustersStep(cps: seq<CodePoint>, i: nat, closed: seq<seq<CodePoint>>, current: seq<CodePoint>)
    requires 0 < i < |cps|
    ensures var p, c, within, even :=
              cps[i - 1].breakProperty, cps[i].breakProperty, WithinEmoji(cps, i), EvenIndicators(cps, i);
            && BoundaryMarks(cps, |cps|)[i] == FlagBoundary(p, c, within, even)
            && WithinEmoji(cps, i + 1) == NextWithinEmoji(p, c, within)
            && EvenIndicators(cps, i + 1) == NextEvenIndicators(p, c, even)
    ensures NormalText([cps[i]]) == cps[i].normal
    ensures NormalText(current + [cps[i]]) == NormalText(current) + cps[i].normal
    ensures ClusterTexts(closed + [current]) == ClusterTexts(closed) + [NormalText(current)]
  {
    TwoFlagsSuffice(cps, i);
    MarkAt(cps, |cps|, i);
    NormalTextOne(cps[i]);
    NormalTextSnoc(current, cps[i]);
  }

  lemma PrefixBoundary(cps: seq<CodePoint>, n: nat, i: nat)
    requires 0 < i < n <= |cps|
    ensures Boundary(cps[..n], i) == Boundary(cps, i)
  {
    var t := cps[..n];
    assert forall k :: 0 <= k < n ==> t[k] == cps[k];
    assert EndsInPictograph(t, i - 1) == EndsInPictograph(cps, i - 1);
    assert EndsInOddIndicators(t, i) == EndsInOddIndicators(cps, i) by {
      assert forall j :: 0 <= j <= i ==> IsIndicatorRun(t, j, i) == IsIndicatorRun(cps, j, i);
    }
  }

  // The same cuts in another sequence that holds the stretch.
  lemma {:induction false} CutByShift<T>(s: seq<T>, marks: seq<bool>, low: nat, high: nat,
                                         t: seq<T>, others: seq<bool>, shift: nat)
    requires shift <= low < high <= |s| == |marks| && high - shift <= |t| == |others|
    requires forall i :: low <= i < high ==> t[i - shift] == s[i]
    requires forall i :: low < i < high ==> others[i - shift] == marks[i]
    ensures CutBy(s, marks, low, high) == CutBy(t, others, low - shift, high - shift)
    decreases high
  {
    if high == low + 1 {
    } else {
      CutByShift(s, marks, low, high - 1, t, others, shift);
    }
  }

  lemma {:induction false} CutByPrefix<T>(s: seq<T>, marks: seq<bool>, low: nat, high: nat,
                                          t: seq<T>, others: seq<bool>)
    requires low < high <= |s| == |marks| && high <= |t| == |others|
    requires forall i :: low <= i < high ==> t[i] == s[i]
    requires forall i :: low < i < high ==> others[i] == marks[i]
    ensures CutBy(s, marks, low, high) == CutBy(t, others, low, high)
    decreases high
  {
    if high == low + 1 {
    } else {
      CutByPrefix(s, marks, low, high - 1, t, others);
    }
  }

  lemma PrefixClusters(cps: seq<CodePoint>, n: nat)
    requires 0 < n <= |cps|
    ensures Clusters(cps[..n]) == CutBy(cps, BoundaryMarks(cps, |cps|), 0, n).All()
  {
    PrefixMarks(cps, n);
    CutByPrefix(cps, BoundaryMarks(cps, |cps|), 0, n, cps[..n], BoundaryMarks(cps[..n], n));
  }

  lemma PrefixMarks(cps: seq<CodePoint>, n: nat)
    requires n <= |cps|
    ensures forall i :: 0 < i < n ==> BoundaryMarks(cps[..n], n)[i] == BoundaryMarks(cps, |cps|)[i]
  {
    forall i | 0 < i < n ensures BoundaryMarks(cps[..n], n)[i] == BoundaryMarks(cps, |cps|)[i] {
      MarkAt(cps[..n], n, i);
      MarkAt(cps, |cps|, i);
      PrefixBoundary(cps, n, i);
    }
  }

  // ----- What the clusters are -----

  // Part k, not the first one, begins at position i.
  ghost predicate StartsAt<T>(parts: seq<seq<T>>, k: nat, i: nat) {
    0 < k < |parts| && |Flatten(parts[..k])| == i
  }

  // Non-empty parts that make up the sequence and begin exactly at the given positions.
  ghost predicate CutAt<T>(s: seq<T>, parts: seq<seq<T>>, cuts: set<nat>) {
    && Flatten(parts) == s
    && (forall k :: 0 <= k < |parts| ==> parts[k] != [])
    && (forall k: nat, i: nat :: StartsAt(parts, k, i) ==> i in cuts)
    && (forall i: nat :: i in cuts ==> exists k: nat :: StartsAt(parts, k, i))
  }

  function Marked(marks: seq<bool>, n: nat): set<nat>
    requires n <= |marks|
  {
    set i: nat | 0 < i < n && marks[i]
  }

  lemma StartsInFront<T>(closed: seq<seq<T>>, last: seq<T>, k: nat, i: nat)
    ensures StartsAt(closed + [last], k, i) <==>
            StartsAt(closed, k, i) || (0 < k == |closed| && i == |Flatten(closed)|)
  {
    assert k <= |closed| ==> (closed + [last])[..k] == closed[..k];
    assert closed[..|closed|] == closed;
  }

  // Where the last part ends does not matter to where parts begin.
  lemma CutAtJoined<T>(s: seq<T>, parts: Parts<T>, cuts: set<nat>, x: T)
    requires CutAt(s, parts.All(), cuts)
    ensures CutAt(s + [x], parts.Grow(false, x).All(), cuts)
  {
    var before, after := parts.All(), parts.Grow(false, x).All();
    FlattenSnoc(parts.closed, parts.last);
    FlattenSnoc(parts.closed, parts.last + [x]);
    assert Flatten(after) == s + [x];
    assert forall k :: 0 <= k < |after| ==> after[k] == if k < |parts.closed| then before[k] else parts.last + [x];
    forall k: nat, i: nat ensures StartsAt(after, k, i) <==> StartsAt(before, k, i) {
      StartsInFront(parts.closed, parts.last, k, i);
      StartsInFront(parts.closed, parts.last + [x], k, i);
    }
    forall i: nat | i in cuts ensures exists k: nat :: StartsAt(after, k, i) {
      var k: nat :| StartsAt(before, k, i);
      assert StartsAt(after, k, i);
    }
  }

  lemma CutAtStarted<T>(s: seq<T>, parts: Parts<T>, cuts: set<nat>, x: T)
    requires CutAt(s, parts.All(), cuts)
    ensures CutAt(s + [x], parts.Grow(true, x).All(), cuts + {|s|})
  {
    var before, after := parts.All(), parts.Grow(true, x).All();
    FlattenSnoc(before, [x]);
    forall k: nat, i: nat ensures StartsAt(after, k, i) <==> StartsAt(before, k, i) || (k == |before| && i == |s|) {
      StartsInFront(before, [x], k, i);
    }
    forall i: nat | i in cuts + {|s|} ensures exists k: nat :: StartsAt(after, k, i) {
      if i in cuts {
        var k: nat :| StartsAt(before, k, i);
        assert StartsAt(after, k, i);
      } else {
        assert StartsAt(after, |before|, i);
      }
    }
  }

  lemma {:induction false} CutByCuts<T>(s: seq<T>, marks: seq<bool>, n: nat)
    requires 0 < n <= |s| == |marks|
    ensures CutAt(s[..n], CutBy(s, marks, 0, n).All(), Marked(marks, n))
  {
    if n == 1 {
      assert CutBy(s, marks, 0, n).All() == [[s[0]]];
      assert Flatten([[s[0]]]) == [s[0]] + Flatten<T>([]);
    } else {
      var parts := CutBy(s, marks, 0, n - 1);
      CutByCuts(s, marks, n - 1);
      assert s[..n] == s[..n - 1] + [s[n - 1]];
      assert Marked(marks, n) == Marked(marks, n - 1) + if marks[n - 1] then {n - 1} else {};
      if marks[n - 1] {
        CutAtStarted(s[..n - 1], parts, Marked(marks, n - 1), s[n - 1]);
      } else {
        CutAtJoined(s[..n - 1], parts, Marked(marks, n - 1), s[n - 1]);
      }
    }
  }

  function Boundaries(cps: seq<CodePoint>): set<nat> {
    set i: nat | 0 < i < |cps| && Boundary(cps, i)
  }

  // Parts are told apart by where they begin.
  lemma StartsInTail<T>(parts: seq<seq<T>>, k: nat, i: nat)
    requires parts != [] && k > 0
    ensures StartsAt(parts[1..], k, i) <==> StartsAt(parts, k + 1, i + |parts[0]|)
  {
    if k < |parts| - 1 {
      assert parts[..k + 1] == [parts[0]] + parts[1..][..k];
    }
  }

  lemma SecondPartStarts<T>(parts: seq<seq<T>>, k: nat, i: nat)
    requires StartsAt(parts, k, i)
    ensures StartsAt(parts, 1, |parts[0]|) && |parts[0]| <= i
  {
    assert parts[..k] == [parts[0]] + parts[1..k];
    assert parts[..1] == [parts[0]] && Flatten([parts[0]]) == parts[0] + Flatten<T>([]);
  }

  lemma FirstPartNoLonger<T>(s: seq<T>, a: seq<seq<T>>, b: seq<seq<T>>, cuts: set<nat>)
    requires s != [] && CutAt(s, a, cuts) && CutAt(s, b, cuts)
    ensures a != [] && b != [] && |b[0]| <= |a[0]|
  {
    if |a| == 1 {
      assert Flatten(a) == a[0] + Flatten<T>([]);
    } else {
      assert a[..1] == [a[0]] && Flatten([a[0]]) == a[0] + Flatten<T>([]);
      assert StartsAt(a, 1, |a[0]|);
      var k: nat :| StartsAt(b, k, |a[0]|);
      SecondPartStarts(b, k, |a[0]|);
    }
  }

  // The positions after the first n, counted from there.
  function CutsAfter(cuts: set<nat>, n: nat): (r: set<nat>)
    ensures forall i: nat :: i in r <==> i > 0 && i + n in cuts
  {
    var r := set c | c in cuts && c > n :: (c - n) as nat;
    assert forall c :: c in cuts && c > n ==> (c - n) as nat in r;
    r
  }

  lemma TailCut<T>(s: seq<T>, parts: seq<seq<T>>, cuts: set<nat>)
    requires parts != [] && CutAt(s, parts, cuts)
    ensures CutAt(s[|parts[0]|..], parts[1..], CutsAfter(cuts, |parts[0]|))
  {
    var n, tail := |parts[0]|, parts[1..];
    assert parts[..1] == [parts[0]] && Flatten(parts[..1]) == parts[0] + Flatten<T>([]);
    forall k: nat, i: nat | StartsAt(tail, k, i) ensures i in CutsAfter(cuts, n) {
      StartsInTail(parts, k, i);
      SecondPartStarts(tail, k, i);
      assert tail[0] == parts[1];
    }
    forall i: nat | i in CutsAfter(cuts, n) ensures exists k: nat :: StartsAt(tail, k, i) {
      var k: nat :| StartsAt(parts, k, i + n);
      StartsInTail(parts, k - 1, i);
    }
  }

  lemma FlattenNonEmpty<T>(parts: seq<seq<T>>)
    requires forall k :: 0 <= k < |parts| ==> parts[k] != []
    ensures parts != [] ==> Flatten(parts) != []
  {
  }

  lemma {:induction false} CutUnique<T>(s: seq<T>, a: seq<seq<T>>, b: seq<seq<T>>, cuts: set<nat>)
    requires CutAt(s, a, cuts) && CutAt(s, b, cuts)
    ensures a == b
    decreases |s|
  {
    if s == [] {
      FlattenNonEmpty(a);
      FlattenNonEmpty(b);
    } else {
      FirstPartNoLonger(s, a, b, cuts);
      FirstPartNoLonger(s, b, a, cuts);
      assert a[0] == s[..|a[0]|] && b[0] == s[..|b[0]|];
      TailCut(s, a, cuts);
      TailCut(s, b, cuts);
      CutUnique(s[|a[0]|..], a[1..], b[1..], CutsAfter(cuts, |a[0]|));
      assert a == [a[0]] + a[1..] && b == [b[0]] + b[1..];
    }
  }

  /** The clusters are the one way to cut the text into non-empty parts that begin exactly where the standard
      puts a boundary. */
  lemma ClustersAreTheSegmentation(cps: seq<CodePoint>, clusters: seq<seq<CodePoint>>)
    ensures clusters == Clusters(cps) <==> CutAt(cps, clusters, Boundaries(cps))
  {
    ClustersCutAtBoundaries(cps);
    if CutAt(cps, clusters, Boundaries(cps)) {
      CutUnique(cps, clusters, Clusters(cps), Boundaries(cps));
    }
  }

  lemma ClustersCutAtBoundaries(cps: seq<CodePoint>)
    ensures CutAt(cps, Clusters(cps), Boundaries(cps))
  {
    if cps != [] {
      CutByCuts(cps, BoundaryMarks(cps, |cps|), |cps|);
      assert cps[..|cps|] == cps;
    }
    forall i: nat | i < |cps| ensures i in Marked(BoundaryMarks(cps, |cps|), |cps|) <==> i in Boundaries(cps) {
      MarkAt(cps, |cps|, i);
    }
  }

  /** The concatenated cluster texts are the concatenated normal strings: segmentation loses no byte. */
  lemma ClusterTextsJoin(cps: seq<CodePoint>)
    ensures Flatten(ClusterTexts(Clusters(cps))) == NormalText(cps)
  {
    ClustersCutAtBoundaries(cps);
    TextsOfParts(Clusters(cps));
  }

  lemma {:induction false} TextsOfParts(parts: seq<seq<CodePoint>>)
    ensures Flatten(ClusterTexts(parts)) == NormalText(Flatten(parts))
  {
    if parts == [] {
    } else {
      assert ClusterTexts(parts)[1..] == ClusterTexts(parts[1..]);
      TextsOfParts(parts[1..]);
      NormalTextConcat(parts[0], Flatten(parts[1..]));
    }
  }

  // ----- Restarting at a boundary -----

  /** After a boundary the past is forgotten: the rules see the same in the rest of the text alone. */
  lemma LookBehindStops(cps: seq<CodePoint>, b: nat, i: nat)
    requires 0 < b < i < |cps| && Boundary(cps, b)
    ensures Boundary(cps[b..], i - b) == Boundary(cps, i)
  {
    var t := cps[b..];
    assert forall k :: 0 <= k < |t| ==> t[k] == cps[b + k];
    if cps[i - 1].breakProperty == ZWJ && cps[i].breakProperty == EXTPICT {
      PictographStops(cps, b, i - 1);
    }
    IndicatorsStop(cps, b, i);
  }

  // A pictograph, then marks up to position i: nothing starts between them, so all is after the boundary.
  lemma PictographAfter(cps: seq<CodePoint>, b: nat, i: nat)
    requires 0 < b <= i < |cps| && Boundary(cps, b) && Gb9(cps[i].breakProperty) && EndsInPictograph(cps, i)
    ensures EndsInPictograph(cps[b..], i - b)
  {
    var t := cps[b..];
    var j :| 0 <= j < i && cps[j].breakProperty == EXTPICT
             && forall k :: j < k < i ==> cps[k].breakProperty == EXTEND;
    assert j >= b;
    assert t[j - b].breakProperty == EXTPICT;
    forall k | j - b < k < i - b ensures t[k].breakProperty == EXTEND {
      assert t[k] == cps[b + k];
    }
  }

  lemma PictographStops(cps: seq<CodePoint>, b: nat, i: nat)
    requires 0 < b <= i < |cps| && Boundary(cps, b) && Gb9(cps[i].breakProperty)
    ensures EndsInPictograph(cps[b..], i - b) == EndsInPictograph(cps, i)
  {
    var t := cps[b..];
    if EndsInPictograph(cps, i) {
      PictographAfter(cps, b, i);
    }
    if EndsInPictograph(t, i - b) {
      var j :| 0 <= j < i - b && t[j].breakProperty == EXTPICT
               && forall k :: j < k < i - b ==> t[k].breakProperty == EXTEND;
      assert cps[b + j].breakProperty == EXTPICT;
      forall k | b + j < k < i ensures cps[k].breakProperty == EXTEND {
        assert cps[k] == t[k - b];
      }
    }
  }

  lemma {:induction false} IndicatorsStop(cps: seq<CodePoint>, b: nat, i: nat)
    requires 0 < b <= i <= |cps| && (b < |cps| ==> Boundary(cps, b))
    requires b < i
    ensures EndsInOddIndicators(cps[b..], i - b) == EndsInOddIndicators(cps, i)
  {
    var t := cps[b..];
    assert t[i - b - 1] == cps[i - 1];
    IndicatorStep(cps, i);
    IndicatorStep(t, i - b);
    if b == i - 1 {
      assert Boundary(cps, b);
      assert !EndsInOddIndicators(t, 0);
      IndicatorStep(cps, b);
    } else {
      IndicatorsStop(cps, b, i - 1);
    }
  }

  lemma {:induction false} CutByRestart<T>(s: seq<T>, marks: seq<bool>, low: nat, b: nat, high: nat)
    requires low < b < high <= |s| == |marks| && marks[b]
    ensures CutBy(s, marks, low, high) ==
            Parts(CutBy(s, marks, low, b).All() + CutBy(s, marks, b, high).closed, CutBy(s, marks, b, high).last)
    decreases high
  {
    var front := CutBy(s, marks, low, b).All();
    if b == high - 1 {
      assert front + [] == front;
    } else {
      CutByRestart(s, marks, low, b, high - 1);
      var back := CutBy(s, marks, b, high - 1);
      assert (front + back.closed) + [back.last] == front + (back.closed + [back.last]);
    }
  }

  lemma SuffixClusters(cps: seq<CodePoint>, b: nat)
    requires 0 < b < |cps| && Boundary(cps, b)
    ensures Clusters(cps[b..]) == CutBy(cps, BoundaryMarks(cps, |cps|), b, |cps|).All()
  {
    SuffixMarks(cps, b);
    CutByShift(cps, BoundaryMarks(cps, |cps|), b, |cps|, cps[b..], BoundaryMarks(cps[b..], |cps| - b), b);
  }

  lemma SuffixMarkAt(cps: seq<CodePoint>, b: nat, i: nat)
    requires 0 < b < i < |cps| && Boundary(cps, b)
    ensures BoundaryMarks(cps[b..], |cps| - b)[i - b] == BoundaryMarks(cps, |cps|)[i]
  {
    MarkAt(cps[b..], |cps| - b, i - b);
    MarkAt(cps, |cps|, i);
    LookBehindStops(cps, b, i);
  }

  lemma SuffixMarks(cps: seq<CodePoint>, b: nat)
    requires 0 < b < |cps| && Boundary(cps, b)
    ensures forall i :: b < i < |cps| ==> BoundaryMarks(cps[b..], |cps| - b)[i - b] == BoundaryMarks(cps, |cps|)[i]
  {
    forall i | b < i < |cps| ensures BoundaryMarks(cps[b..], |cps| - b)[i - b] == BoundaryMarks(cps, |cps|)[i] {
      SuffixMarkAt(cps, b, i);
    }
  }

  /** Segmenting the whole is segmenting the part before a boundary, then the part after it. */
  lemma ClustersRestart(cps: seq<CodePoint>, b: nat)
    requires 0 < b < |cps| && Boundary(cps, b)
    ensures Clusters(cps) == Clusters(cps[..b]) + Clusters(cps[b..])
  {
    var marks := BoundaryMarks(cps, |cps|);
    PrefixClusters(cps, b);
    SuffixClusters(cps, b);
    MarkAt(cps, |cps|, b);
    CutByRestart(cps, marks, 0, b, |cps|);
    var front, back := CutBy(cps, marks, 0, b).All(), CutBy(cps, marks, b, |cps|);
    assert (front + back.closed) + [back.last] == front + (back.closed + [back.last]);
  }

  // Part k is the stretch of the sequence from one mark to the next, and is cut nowhere.
  lemma {:induction false} PartIsStretch<T>(s: seq<T>, marks: seq<bool>, n: nat, k: nat) returns (b: nat, e: nat)
    requires 0 < n <= |s| == |marks| && k < |CutBy(s, marks, 0, n).All()|
    ensures b < e <= n && (b == 0 || marks[b])
    ensures CutBy(s, marks, 0, n).All()[k] == s[b..e]
    ensures CutBy(s, marks, b, e) == Parts([], s[b..e])
    ensures k == |CutBy(s, marks, 0, n).closed| ==> e == n
  {
    if n == 1 {
      b, e := 0, 1;
    } else {
      var before := CutBy(s, marks, 0, n - 1);
      if marks[n - 1] && k == |before.All()| {
        b, e := n - 1, n;
      } else {
        b, e := PartIsStretch(s, marks, n - 1, k);
        if k == |before.closed| && !marks[n - 1] {
          assert s[b..n] == s[b..n - 1] + [s[n - 1]];
          e := n;
        }
      }
    }
  }

  /** Every cluster, segmented alone, is one cluster. */
  lemma ClusterIsWhole(cps: seq<CodePoint>, k: nat)
    requires k < |Clusters(cps)|
    ensures Clusters(Clusters(cps)[k]) == [Clusters(cps)[k]]
  {
    var marks := BoundaryMarks(cps, |cps|);
    var b, e := PartIsStretch(cps, marks, |cps|, k);
    StretchIsCluster(cps, b, e);
  }

  // A stretch that is cut nowhere has no mark inside.
  lemma {:induction false} UncutHasNoMarks<T>(s: seq<T>, marks: seq<bool>, b: nat, e: nat, i: nat)
    requires b < i < e <= |s| == |marks| && CutBy(s, marks, b, e).closed == []
    ensures !marks[i]
    decreases e
  {
    if i == e - 1 {
    } else {
      UncutHasNoMarks(s, marks, b, e - 1, i);
    }
  }

  // If there is a control on either side of position i, it stands between CR and LF.
  predicate ControlsMeet(cps: seq<CodePoint>, i: nat)
    requires 0 < i < |cps|
  {
    cps[i - 1].breakProperty in {CR, LF, CONTROL} || cps[i].breakProperty in {CR, LF, CONTROL} ==>
      cps[i - 1].breakProperty == CR && cps[i].breakProperty == LF
  }

  /** A control makes a cluster of its own, but for CR LF, which is one cluster. */
  lemma ControlsStandAlone(cps: seq<CodePoint>, k: nat, j: nat)
    requires k < |Clusters(cps)| && j < |Clusters(cps)[k]|
    requires Clusters(cps)[k][j].breakProperty in {CR, LF, CONTROL}
    ensures var cluster := Clusters(cps)[k];
            || |cluster| == 1
            || (|cluster| == 2 && cluster[0].breakProperty == CR && cluster[1].breakProperty == LF)
  {
    var marks := BoundaryMarks(cps, |cps|);
    var b, e := PartIsStretch(cps, marks, |cps|, k);
    forall i | b < i < e ensures ControlsMeet(cps, i) {
      UncutHasNoMarks(cps, marks, b, e, i);
      MarkAt(cps, |cps|, i);
    }
    assert Clusters(cps)[k][j] == cps[b + j];
    assert j > 0 ==> ControlsMeet(cps, b + j);
    assert j > 1 ==> ControlsMeet(cps, b + j - 1);
    assert b + j + 1 < e ==> ControlsMeet(cps, b + j + 1);
    assert b + j + 2 < e ==> ControlsMeet(cps, b + j + 2);
  }

  lemma StretchIsCluster(cps: seq<CodePoint>, b: nat, e: nat)
    requires b < e <= |cps| && (b == 0 || BoundaryMarks(cps, |cps|)[b])
    ensures Clusters(cps[b..e]) == CutBy(cps, BoundaryMarks(cps, |cps|), b, e).All()
  {
    var t := cps[..e];
    PrefixMarks(cps, e);
    CutByPrefix(cps, BoundaryMarks(cps, |cps|), b, e, t, BoundaryMarks(t, e));
    if b > 0 {
      MarkAt(cps, |cps|, b);
      PrefixBoundary(cps, e, b);
      SuffixClusters(t, b);
      assert t[b..] == cps[b..e];
    } else {
      assert t[0..] == t == cps[b..e];
    }
  }
}
