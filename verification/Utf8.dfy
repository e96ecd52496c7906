/** Splitting UTF-8 text into code points (src/core/CodePoint.cpp:29-109). */
module Utf8 {
  import opened Bytes

  // GetCodePointLength: the number of leading one bits of the first byte decides.
  function CodePointLength(lead: byte): (length: Option<nat>)
    ensures length.Some? ==> 1 <= length.value <= 4
  {
    if lead / 0x80 == 0 then Some(1)                // 0xxxxxxx
    else if lead / 0x20 == 0x06 then Some(2)        // 110xxxxx
    else if lead / 0x10 == 0x0E then Some(3)        // 1110xxxx
    else if lead / 0x08 == 0x1E then Some(4)        // 11110xxx
    else None
  }

  /** The lead bytes of every length, and those that lead nothing. */
  lemma LeadBytes(lead: byte)
    ensures CodePointLength(lead) == Some(1) <==> lead < 0x80
    ensures CodePointLength(lead) == None <==> 0x80 <= lead < 0xC0 || 0xF8 <= lead
    ensures CodePointLength(lead) == Some(2) <==> 0xC0 <= lead < 0xE0
    ensures CodePointLength(lead) == Some(3) <==> 0xE0 <= lead < 0xF0
    ensures CodePointLength(lead) == Some(4) <==> 0xF0 <= lead < 0xF8
  {
  }

  // One piece as the splitter cuts it: its first byte announces its length.
  predicate Shaped(piece: ByteString) {
    piece != [] && CodePointLength(piece[0]) == Some(|piece|)
  }

  predicate AllShaped(pieces: seq<ByteString>) {
    forall i :: 0 <= i < |pieces| ==> Shaped(pieces[i])
  }

  function Split(text: ByteString): Result<seq<ByteString>> {
    if text == [] then Ok([])
    else match CodePointLength(text[0])
      case None => Err(InvalidLeadingByte)
      case Some(n) =>
        if |text| < n then Err(InvalidLength)
        else
          var rest :- Split(text[n..]);
          Ok([text[..n]] + rest)
  }

  function Prepend<T>(front: seq<T>, r: Result<seq<T>>): Result<seq<T>> {
    match r
    case Ok(rest) => Ok(front + rest)
    case Err(e) => Err(e)
  }

  // One turn of the loop: the next piece is cut off.
  lemma SplitTurn(text: ByteString, position: nat, n: nat, pieces: seq<ByteString>)
    requires position < |text| && CodePointLength(text[position]) == Some(n) && position + n <= |text|
    ensures Prepend(pieces, Split(text[position..]))
            == Prepend(pieces + [text[position..position + n]], Split(text[position + n..]))
  {
    var here, next := text[position..], text[position + n..];
    assert here[n..] == next && here[..n] == text[position..position + n];
    if Split(next).Ok? {
      assert (pieces + [here[..n]]) + Split(next).value == pieces + ([here[..n]] + Split(next).value);
    }
  }

  method BreakIntoPieces(text: ByteString) returns (r: Result<seq<ByteString>>)
    ensures r == Split(text)
  {
    var pieces: seq<ByteString> := [];
    var position := 0;
    assert text[0..] == text;
    assert Split(text).Ok? ==> [] + Split(text).value == Split(text).value;
    while position < |text|
      invariant 0 <= position <= |text|
      invariant Split(text) == Prepend(pieces, Split(text[position..]))
    {
      var length := CodePointLength(text[position]);
      if length.None? {
        return Err(InvalidLeadingByte);
      }
      if |text| - position < length.value {
        return Err(InvalidLength);
      }
      SplitTurn(text, position, length.value, pieces);
      pieces := pieces + [text[position..position + length.value]];
      position := position + length.value;
    }
    assert pieces + [] == pieces;
    return Ok(pieces);
  }

  /** A split is the one way to write the text as pieces that announce their own length. */
  lemma {:induction false} SplitCharacterised(text: ByteString, pieces: seq<ByteString>)
    ensures Split(text) == Ok(pieces) <==> Flatten(pieces) == text && AllShaped(pieces)
    decreases |text|
  {
    if text == [] {
      if pieces != [] && AllShaped(pieces) {
        assert Flatten(pieces) == pieces[0] + Flatten(pieces[1..]);
        assert |Flatten(pieces)| > 0;
      }
    } else {
      var length := CodePointLength(text[0]);
      if pieces == [] {
        assert Flatten(pieces) == [];
      } else if length.Some? && length.value <= |text| {
        var n := length.value;
        SplitCharacterised(text[n..], pieces[1..]);
        assert pieces == [pieces[0]] + pieces[1..];
        assert Flatten(pieces) == pieces[0] + Flatten(pieces[1..]);
        if Split(text) == Ok(pieces) {
          assert pieces[0] == text[..n] && Split(text[n..]) == Ok(pieces[1..]);
          assert text == text[..n] + text[n..];
          assert forall i :: 1 <= i < |pieces| ==> pieces[i] == pieces[1..][i - 1];
        }
        if Flatten(pieces) == text && AllShaped(pieces) {
          assert Shaped(pieces[0]) && pieces[0][0] == text[0];
          assert pieces[0] == text[..n] && Flatten(pieces[1..]) == text[n..];
          assert AllShaped(pieces[1..]);
        }
      } else if Flatten(pieces) == text && AllShaped(pieces) {
        HeadOfShaped(pieces);
        assert false;
      }
    }
  }

  lemma HeadOfShaped(pieces: seq<ByteString>)
    requires pieces != [] && AllShaped(pieces)
    ensures Flatten(pieces) != [] && CodePointLength(Flatten(pieces)[0]).Some?
    ensures CodePointLength(Flatten(pieces)[0]).value <= |Flatten(pieces)|
  {
    assert Shaped(pieces[0]) && Flatten(pieces) == pieces[0] + Flatten(pieces[1..]);
  }

  // Where and why a split fails: `rest` follows well-shaped pieces and cannot start another one.
  ghost predicate FailsAt(pieces: seq<ByteString>, rest: ByteString, error: DecodeError) {
    && AllShaped(pieces)
    && rest != []
    && match error
       case InvalidLeadingByte => 0x80 <= rest[0] < 0xC0 || 0xF8 <= rest[0]
       case InvalidLength =>
         || (0xC0 <= rest[0] < 0xE0 && |rest| < 2)
         || (0xE0 <= rest[0] < 0xF0 && |rest| < 3)
         || (0xF0 <= rest[0] < 0xF8 && |rest| < 4)
  }

  /** A split throws `error` exactly when some rest after well-shaped pieces is bad in that way. */
  lemma SplitErrors(text: ByteString, error: DecodeError)
    ensures Split(text) == Err(error) <==>
            exists pieces: seq<ByteString>, rest: ByteString ::
              text == Flatten(pieces) + rest && FailsAt(pieces, rest, error)
  {
    if Split(text) == Err(error) {
      var pieces, rest := SplitFailurePoint(text);
      LeadBytes(rest[0]);
      assert text == Flatten(pieces) + rest && FailsAt(pieces, rest, error);
    }
    if pieces: seq<ByteString>, rest: ByteString :| text == Flatten(pieces) + rest && FailsAt(pieces, rest, error) {
      SplitCharacterised(Flatten(pieces), pieces);
      SplitConcat(Flatten(pieces), rest);
      LeadBytes(rest[0]);
    }
  }

  lemma {:induction false} SplitFailurePoint(text: ByteString) returns (pieces: seq<ByteString>, rest: ByteString)
    requires Split(text).Err?
    ensures text == Flatten(pieces) + rest && FailsAt(pieces, rest, Split(text).error)
    decreases |text|
  {
    var length := CodePointLength(text[0]);
    if length.None? || |text| < length.value {
      LeadBytes(text[0]);
      return [], text;
    }
    var n := length.value;
    pieces, rest := SplitFailurePoint(text[n..]);
    assert text == text[..n] + text[n..];
    assert ([text[..n]] + pieces)[1..] == pieces;
    pieces := [text[..n]] + pieces;
  }

  /** Splitting distributes over concatenation whenever the left part splits. */
  lemma {:induction false} SplitConcat(a: ByteString, b: ByteString)
    requires Split(a).Ok?
    ensures Split(a + b) == Prepend(Split(a).value, Split(b))
    decreases |a|
  {
    if a == [] {
      assert a + b == b;
      assert Split(b).Ok? ==> [] + Split(b).value == Split(b).value;
    } else {
      var n := CodePointLength(a[0]).value;
      assert (a + b)[0] == a[0] && (a + b)[n..] == a[n..] + b && (a + b)[..n] == a[..n];
      SplitConcat(a[n..], b);
      if Split(b).Ok? {
        assert [a[..n]] + (Split(a[n..]).value + Split(b).value) == ([a[..n]] + Split(a[n..]).value) + Split(b).value;
      }
    }
  }

  // A Unicode scalar value: any code point but the surrogates.
  type Scalar = v: int | 0 <= v < 0xD800 || 0xE000 <= v <= 0x10FFFF

  // RFC 3629, section 3.
  function EncodeScalar(v: Scalar): ByteString {
    if v < 0x80 then [v]
    else if v < 0x800 then [0xC0 + v / 0x40, 0x80 + v % 0x40]
    else if v < 0x10000 then [0xE0 + v / 0x1000, 0x80 + v / 0x40 % 0x40, 0x80 + v % 0x40]
    else [0xF0 + v / 0x40000, 0x80 + v / 0x1000 % 0x40, 0x80 + v / 0x40 % 0x40, 0x80 + v % 0x40]
  }

  function EncodeEach(scalars: seq<Scalar>): seq<ByteString> {
    seq(|scalars|, i requires 0 <= i < |scalars| => EncodeScalar(scalars[i]))
  }

  lemma EncodeScalarShaped(v: Scalar)
    ensures Shaped(EncodeScalar(v))
  {
  }

  /** Splitting the UTF-8 encoding of a scalar sequence gives back the encoding of each scalar, in order. */
  lemma SplitEncoded(scalars: seq<Scalar>)
    ensures Split(Flatten(EncodeEach(scalars))) == Ok(EncodeEach(scalars))
  {
    forall i | 0 <= i < |scalars| ensures Shaped(EncodeEach(scalars)[i]) {
      EncodeScalarShaped(scalars[i]);
    }
    SplitCharacterised(Flatten(EncodeEach(scalars)), EncodeEach(scalars));
  }

  /** No scalar value is lost or merged: equal encodings come from equal scalar sequences. */
  lemma EncodingInjective(a: seq<Scalar>, b: seq<Scalar>)
    requires Flatten(EncodeEach(a)) == Flatten(EncodeEach(b))
    ensures a == b
  {
    SplitEncoded(a);
    SplitEncoded(b);
    assert |a| == |EncodeEach(a)| == |b|;
    forall i | 0 <= i < |a| ensures a[i] == b[i] {
      assert EncodeEach(a)[i] == EncodeEach(b)[i];
      EncodeScalarInjective(a[i], b[i]);
    }
  }

  lemma EncodeScalarInjective(v: Scalar, w: Scalar)
    requires EncodeScalar(v) == EncodeScalar(w)
    ensures v == w
  {
    EncodedSpells(v);
    EncodedSpells(w);
  }

  // The number an encoded scalar spells in base 0x40, below the marker bits of its bytes.
  function Spelled(e: seq<int>): int
    requires 1 <= |e| <= 4
  {
    match |e|
    case 1 => e[0]
    case 2 => (e[0] - 0xC0) * 0x40 + e[1] - 0x80
    case 3 => (e[0] - 0xE0) * 0x1000 + (e[1] - 0x80) * 0x40 + e[2] - 0x80
    case _ => (e[0] - 0xF0) * 0x40000 + (e[1] - 0x80) * 0x1000 + (e[2] - 0x80) * 0x40 + e[3] - 0x80
  }

  lemma EncodedSpells(v: Scalar)
    ensures Spelled(EncodeScalar(v)) == v
  {
    assert v / 0x1000 == v / 0x40 / 0x40;
    assert v / 0x40000 == v / 0x1000 / 0x40;
  }
}
