/** Byte strings, decoding results and concatenation: vocabulary shared by every module. */
module Bytes {

  type byte = b: int | 0 <= b < 256

  type ByteString = seq<byte>

  datatype Option<+T> = None | Some(value: T)

  // What a UnicodeDecodeError says (CodePoint.cpp:46 and CodePoint.cpp:102).
  datatype DecodeError = InvalidLeadingByte | InvalidLength

  // A C++ call that either returns or throws.
  datatype Result<+T> = Ok(value: T) | Err(error: DecodeError) {
    predicate IsFailure() {
      Err?
    }

    function PropagateFailure<U>(): Result<U>
      requires Err?
    {
      Err(error)
    }

    function Extract(): T
      requires Ok?
    {
      value
    }
  }

  function Flatten<T>(parts: seq<seq<T>>): seq<T> {
    if parts == [] then [] else parts[0] + Flatten(parts[1..])
  }

  lemma {:induction false} FlattenConcat<T>(a: seq<seq<T>>, b: seq<seq<T>>)
    ensures Flatten(a + b) == Flatten(a) + Flatten(b)
  {
    if a == [] {
      assert a + b == b;
    } else {
      assert (a + b)[0] == a[0] && (a + b)[1..] == a[1..] + b;
      FlattenConcat(a[1..], b);
    }
  }

  lemma FlattenSnoc<T>(a: seq<seq<T>>, last: seq<T>)
    ensures Flatten(a + [last]) == Flatten(a) + last
  {
    FlattenConcat(a, [last]);
    assert Flatten([last]) == last + Flatten<T>([]);
  }

  // The text is what the items have, one after the other.
  ghost predicate Joins<T>(text: ByteString, items: seq<T>, part: T -> ByteString) {
    exists parts: seq<ByteString> ::
      |parts| == |items| && (forall i :: 0 <= i < |items| ==> parts[i] == part(items[i])) && text == Flatten(parts)
  }

  lemma JoinsNothing<T>(part: T -> ByteString)
    ensures Joins([], [], part)
  {
    var parts: seq<ByteString> := [];
    assert Flatten(parts) == [];
  }

  lemma JoinsSnoc<T>(text: ByteString, items: seq<T>, part: T -> ByteString, last: T)
    requires Joins(text, items, part)
    ensures Joins(text + part(last), items + [last], part)
  {
    var parts: seq<ByteString> :|
      |parts| == |items| && (forall i :: 0 <= i < |items| ==> parts[i] == part(items[i])) && text == Flatten(parts);
    FlattenSnoc(parts, part(last));
    var more := parts + [part(last)];
    assert forall i :: 0 <= i < |items + [last]| ==> more[i] == part((items + [last])[i]);
  }

  /** Builds every key in order; the first construction that throws ends the pass. */
  function Traverse<T>(build: ByteString -> Result<T>, keys: seq<ByteString>): Result<seq<T>> {
    if keys == [] then Ok([])
    else
      var first :- build(keys[0]);
      var rest :- Traverse(build, keys[1..]);
      Ok([first] + rest)
  }

  lemma {:induction false} TraverseOk<T>(build: ByteString -> Result<T>, keys: seq<ByteString>)
    ensures Traverse(build, keys).Ok? <==> forall i :: 0 <= i < |keys| ==> build(keys[i]).Ok?
    ensures Traverse(build, keys).Ok? ==>
              && |Traverse(build, keys).value| == |keys|
              && forall i :: 0 <= i < |keys| ==> build(keys[i]) == Ok(Traverse(build, keys).value[i])
  {
    if keys == [] {
    } else {
      TraverseOk(build, keys[1..]);
      assert forall i :: 1 <= i < |keys| ==> keys[i] == keys[1..][i - 1];
      assert forall i :: 0 <= i < |keys| - 1 ==> keys[1..][i] == keys[i + 1];
    }
  }

  lemma {:induction false} TraverseSnoc<T>(build: ByteString -> Result<T>, keys: seq<ByteString>, key: ByteString)
    requires Traverse(build, keys).Ok?
    ensures Traverse(build, keys + [key]) ==
            if build(key).Ok? then Ok(Traverse(build, keys).value + [build(key).value]) else Err(build(key).error)
  {
    if keys == [] {
      assert keys + [key] == [key];
      assert [key][1..] == [];
      assert build(key).Ok? ==> [build(key).value] + [] == [] + [build(key).value];
    } else {
      assert (keys + [key])[0] == keys[0] && (keys + [key])[1..] == keys[1..] + [key];
      TraverseSnoc(build, keys[1..], key);
      var first, rest := build(keys[0]).value, Traverse(build, keys[1..]).value;
      if build(key).Ok? {
        assert [first] + (rest + [build(key).value]) == ([first] + rest) + [build(key).value];
      }
    }
  }

  // The order of std::string: the first differing byte decides, a proper prefix comes first.
  predicate LexLess(s: seq<int>, t: seq<int>) {
    if t == [] then false
    else if s == [] then true
    else if s[0] != t[0] then s[0] < t[0]
    else LexLess(s[1..], t[1..])
  }

  lemma {:induction false} LexSkip(prefix: seq<int>, s: seq<int>, t: seq<int>)
    ensures LexLess(prefix + s, prefix + t) == LexLess(s, t)
  {
    if prefix == [] {
      assert prefix + s == s && prefix + t == t;
    } else {
      assert (prefix + s)[1..] == prefix[1..] + s && (prefix + t)[1..] == prefix[1..] + t;
      LexSkip(prefix[1..], s, t);
    }
  }

  lemma LexFirstDifference(s: seq<int>, t: seq<int>, k: nat)
    requires k < |s| && k < |t| && s[..k] == t[..k] && s[k] != t[k]
    ensures LexLess(s, t) == (s[k] < t[k])
  {
    assert s == s[..k] + s[k..] && t == t[..k] + t[k..];
    LexSkip(s[..k], s[k..], t[k..]);
  }

  /** The first difference decides, and without one the proper prefix is the less. */
  lemma {:induction false} LexCharacterised(s: seq<int>, t: seq<int>)
    ensures LexLess(s, t) <==>
            || s < t
            || exists k :: 0 <= k < |s| && k < |t| && s[..k] == t[..k] && s[k] < t[k]
  {
    if k :| 0 <= k < |s| && k < |t| && s[..k] == t[..k] && s[k] < t[k] {
      LexFirstDifference(s, t, k);
    }
    if s < t {
      LexSkip(s, [], t[|s|..]);
      assert s + [] == s && s + t[|s|..] == t;
    }
    if s == [] || t == [] {
      assert LexLess(s, t) ==> s < t;
    } else if s[0] != t[0] {
      assert s[..0] == t[..0];
    } else if LexLess(s, t) {
      LexCharacterised(s[1..], t[1..]);
      LexTail(s, t);
    }
  }

  // A difference, or the lack of one, seen from one element before.
  lemma LexTail(s: seq<int>, t: seq<int>)
    requires s != [] && t != [] && s[0] == t[0]
    requires || s[1..] < t[1..]
             || exists k :: 0 <= k < |s[1..]| && k < |t[1..]| && s[1..][..k] == t[1..][..k] && s[1..][k] < t[1..][k]
    ensures s < t || exists k :: 0 <= k < |s| && k < |t| && s[..k] == t[..k] && s[k] < t[k]
  {
    assert s == [s[0]] + s[1..] && t == [t[0]] + t[1..];
    if k :| 0 <= k < |s[1..]| && k < |t[1..]| && s[1..][..k] == t[1..][..k] && s[1..][k] < t[1..][k] {
      assert s[..k + 1] == [s[0]] + s[1..][..k] && t[..k + 1] == [t[0]] + t[1..][..k];
      assert s[k + 1] < t[k + 1];
    } else {
      assert s[1..] == t[1..][..|s| - 1];
      assert s == t[..|s|];
    }
  }

  lemma {:induction false} LexTotal(s: seq<int>, t: seq<int>)
    ensures !LexLess(s, s)
    ensures LexLess(s, t) ==> !LexLess(t, s)
    ensures s == t || LexLess(s, t) || LexLess(t, s)
  {
    if s == [] {
    } else {
      LexTotal(s[1..], s[1..]);
      if t != [] && s[0] == t[0] {
        LexTotal(s[1..], t[1..]);
        assert s == [s[0]] + s[1..] && t == [t[0]] + t[1..];
      }
    }
  }

  lemma {:induction false} LexTransitive(s: seq<int>, t: seq<int>, u: seq<int>)
    requires LexLess(s, t) && LexLess(t, u)
    ensures LexLess(s, u)
  {
    if s == [] || s[0] != t[0] || t[0] != u[0] {
    } else {
      LexTransitive(s[1..], t[1..], u[1..]);
    }
  }
}
