/** The memo table of built objects (src/core/Repository.h:50-110, src/core/Utils.h:66-73). */
module Repositories {
  import opened Bytes

  // An object the table owns; callers hold references to it.
  class Interned<T> {
    const value: T

    constructor (value: T)
      ensures this.value == value
    {
      this.value := value;
    }
  }

  // The constructions a pass over `keys` attempts: all of them, or up to the first that throws.
  function Attempted<T>(build: ByteString -> Result<T>, keys: seq<ByteString>): (n: nat)
    ensures n <= |keys|
    ensures forall i :: 0 <= i < n - 1 ==> build(keys[i]).Ok?
    ensures n < |keys| ==> n > 0 && build(keys[n - 1]).Err?
  {
    if keys == [] then 0
    else if build(keys[0]).Err? then 1
    else 1 + Attempted(build, keys[1..])
  }

  lemma {:induction false} AttemptedAll<T>(build: ByteString -> Result<T>, keys: seq<ByteString>)
    requires forall i :: 0 <= i < |keys| ==> build(keys[i]).Ok?
    ensures Attempted(build, keys) == |keys|
  {
    if keys == [] {
    } else {
      AttemptedAll(build, keys[1..]);
    }
  }

  lemma TraverseAttempts<T>(build: ByteString -> Result<T>, keys: seq<ByteString>)
    ensures Traverse(build, keys).Ok? ==> Attempted(build, keys) == |keys|
  {
    TraverseOk(build, keys);
    if Traverse(build, keys).Ok? {
      AttemptedAll(build, keys);
    }
  }

  lemma {:induction false} AttemptedStops<T>(build: ByteString -> Result<T>, keys: seq<ByteString>, k: nat)
    requires k < |keys| && build(keys[k]).Err?
    requires forall i :: 0 <= i < k ==> build(keys[i]).Ok?
    ensures Attempted(build, keys) == k + 1
    ensures Traverse(build, keys) == Err(build(keys[k]).error)
  {
    if k == 0 {
    } else {
      assert keys[1..][k - 1] == keys[k];
      AttemptedStops(build, keys[1..], k - 1);
    }
  }

  function Texts(keys: seq<ByteString>): set<ByteString> {
    set key | key in keys
  }

  function Values<T>(objects: seq<Interned<T>>): (values: seq<T>)
    ensures |values| == |objects|
  {
    seq(|objects|, i requires 0 <= i < |objects| => objects[i].value)
  }

  class Repository<T> {
    // The constructor of T: it returns the object for a text, or throws.
    const build: ByteString -> Result<T>
    // Whether T is Candidate, whose texts of more than 80 bytes are replaced by the empty text.
    const clips: bool
    var elementHolder: map<ByteString, Interned?<T>>

    constructor (build: ByteString -> Result<T>, clips: bool)
      ensures this.build == build && this.clips == clips && elementHolder == map[]
      ensures Valid()
    {
      this.build := build;
      this.clips := clips;
      elementHolder := map[];
    }

    // Every entry is what a fresh construction gives, and null where construction throws.
    ghost predicate Valid()
      reads this
    {
      AllAgree(elementHolder)
    }

    ghost predicate AllAgree(table: map<ByteString, Interned?<T>>) {
      forall key :: key in table ==> Agrees(key, table[key])
    }

    ghost predicate Agrees(key: ByteString, element: Interned?<T>) {
      if element == null then build(key).Err? else build(key) == Ok(element.value)
    }

    function Key(element: ByteString): (key: ByteString)
      ensures clips ==> |key| <= 80
    {
      if clips && |element| > 80 then [] else element
    }

    function Keys(elements: seq<ByteString>): (keys: seq<ByteString>)
      ensures |keys| == |elements|
    {
      seq(|elements|, i requires 0 <= i < |elements| => Key(elements[i]))
    }

    // What a table after some calls keeps of the table before them: every entry, null or not.
    ghost predicate Extends(before: map<ByteString, Interned?<T>>, after: map<ByteString, Interned?<T>>) {
      forall key :: key in before ==> key in after && after[key] == before[key]
    }

    // Object i is the one held for key i.
    ghost predicate Holds(holder: map<ByteString, Interned?<T>>, keys: seq<ByteString>, objects: seq<Interned<T>>) {
      |objects| == |keys| && forall i :: 0 <= i < |keys| ==> keys[i] in holder && holder[keys[i]] == objects[i]
    }

    // The entry of the key; a null one is made if there is none.
    method GetValueElseInsert(key: ByteString) returns (element: Interned?<T>)
      modifies this
      ensures element == if key in old(elementHolder) then old(elementHolder)[key] else null
      ensures elementHolder == old(elementHolder)[key := element]
    {
      if key !in elementHolder {
        elementHolder := elementHolder[key := null];
      }
      element := elementHolder[key];
      assert old(elementHolder)[key := element] == elementHolder;
    }

    // Gives the entry of the key a new object.
    method Keep(key: ByteString, value: T) returns (element: Interned<T>)
      modifies this
      ensures element.value == value && elementHolder == old(elementHolder)[key := element]
    {
      element := new Interned(value);
      elementHolder := elementHolder[key := element];
    }

    // What looking one key up leaves: its entry, which agrees with fresh construction, and all the others.
    ghost predicate GotOne(before: map<ByteString, Interned?<T>>, key: ByteString, element: Interned?<T>)
      reads this
    {
      Valid() && Extends(before, elementHolder) && elementHolder == before[key := element]
    }

    // The entry is there and not null ...
    lemma OneKept(before: map<ByteString, Interned?<T>>, key: ByteString)
      requires AllAgree(before) && key in before && elementHolder == before[key := before[key]]
      ensures elementHolder == before && GotOne(before, key, before[key])
    {
      assert before[key := before[key]] == before;
    }

    // ... or it is not there or null: then it is made null, and given what construction gives, unless that throws.
    lemma OneMade(before: map<ByteString, Interned?<T>>, key: ByteString, element: Interned?<T>)
      requires AllAgree(before) && Agrees(key, element) && (key in before ==> before[key] == null)
      requires elementHolder == if element == null then before[key := null] else before[key := null][key := element]
      ensures elementHolder.Keys == before.Keys + {key} && GotOne(before, key, element)
    {
      assert before[key := null][key := element] == before[key := element];
      if key in before {
        assert Agrees(key, before[key]);
      }
    }

    // What looking all the elements up leaves.
    ghost predicate Got(before: map<ByteString, Interned?<T>>, elements: seq<ByteString>, r: Result<seq<Interned<T>>>)
      reads this
    {
      var keys := Keys(elements);
      // Non-null entries never change, and null ones stay null.
      && Valid() && Extends(before, elementHolder)
      // The new entries are the attempted texts.
      && elementHolder.Keys == before.Keys + Texts(keys[..Attempted(build, keys)])
      // The outcome is that of constructing every element afresh ...
      && (match Traverse(build, keys)
          case Ok(values) => r.Ok? && Values(r.value) == values
          case Err(e) => r == Err(e))
      // ... and output i is the object held for element i.
      && (r.Ok? ==> Holds(elementHolder, keys, r.value))
    }

    // The same part way, of a table as it was then: the keys so far are held by the objects so far.
    ghost predicate GotSoFar(before: map<ByteString, Interned?<T>>, table: map<ByteString, Interned?<T>>,
                             keys: seq<ByteString>, objects: seq<Interned<T>>) {
      && AllAgree(table) && Extends(before, table)
      && table.Keys == before.Keys + Texts(keys) && Holds(table, keys, objects)
    }

    // GetElements is a template: its instances, which differ in the constructor they call, are
    // CodePoints.GetCodePoints, Words.GetCharacters and Database.IdentifierDatabase.GetCandidates.

    // In an instance, a construction that throws ends the loop ...
    lemma StopsAt(initial: map<ByteString, Interned?<T>>, before: map<ByteString, Interned?<T>>,
                  elements: seq<ByteString>, i: nat, objects: seq<Interned<T>>)
      requires i < |elements| && GotOne(before, Key(elements[i]), null)
      requires GotSoFar(initial, before, Keys(elements)[..i], objects)
      ensures build(Key(elements[i])).Err?
      ensures Got(initial, elements, Err(build(Key(elements[i])).error))
    {
      var keys := Keys(elements);
      assert Agrees(keys[i], elementHolder[keys[i]]);
      OutcomeErr(keys, i, objects, before);
      assert keys[..i + 1] == keys[..i] + [keys[i]];
    }

    // ... any other adds one object ...
    lemma GoesOn(initial: map<ByteString, Interned?<T>>, before: map<ByteString, Interned?<T>>,
                 elements: seq<ByteString>, i: nat, objects: seq<Interned<T>>, element: Interned<T>)
      requires i < |elements| && GotOne(before, Key(elements[i]), element)
      requires GotSoFar(initial, before, Keys(elements)[..i], objects)
      ensures GotSoFar(initial, elementHolder, Keys(elements)[..i + 1], objects + [element])
    {
      var keys := Keys(elements);
      assert keys[..i + 1] == keys[..i] + [keys[i]];
      assert Texts(keys[..i + 1]) == Texts(keys[..i]) + {keys[i]};
      HoldsSnoc(before, elementHolder, keys[..i], objects, keys[i], element);
    }

    // ... and after the last turn all are there.
    lemma Ends(initial: map<ByteString, Interned?<T>>, elements: seq<ByteString>, objects: seq<Interned<T>>)
      requires GotSoFar(initial, elementHolder, Keys(elements)[..|elements|], objects)
      ensures Got(initial, elements, Ok(objects))
    {
      assert Keys(elements)[..|elements|] == Keys(elements);
      OutcomeOk(Keys(elements), objects);
    }

    lemma HoldsSnoc(before: map<ByteString, Interned?<T>>, after: map<ByteString, Interned?<T>>,
                    keys: seq<ByteString>, objects: seq<Interned<T>>, key: ByteString, element: Interned<T>)
      requires Holds(before, keys, objects) && Extends(before, after) && key in after && after[key] == element
      ensures Holds(after, keys + [key], objects + [element])
    {
      forall i | 0 <= i < |keys| ensures keys[i] in after && after[keys[i]] == objects[i] {
        assert keys[i] in before;
      }
    }

    lemma OutcomeOk(keys: seq<ByteString>, objects: seq<Interned<T>>)
      requires Valid() && Holds(elementHolder, keys, objects)
      ensures Attempted(build, keys) == |keys| && Traverse(build, keys) == Ok(Values(objects))
    {
      forall i | 0 <= i < |keys| ensures build(keys[i]) == Ok(objects[i].value) {
        assert Agrees(keys[i], elementHolder[keys[i]]);
      }
      AttemptedAll(build, keys);
      TraverseOk(build, keys);
      var values := Traverse(build, keys).value;
      assert forall i :: 0 <= i < |keys| ==> Ok(values[i]) == build(keys[i]) == Ok(objects[i].value);
      assert values == Values(objects);
    }

    lemma OutcomeErr(keys: seq<ByteString>, i: nat, objects: seq<Interned<T>>, holder: map<ByteString, Interned?<T>>)
      requires i < |keys| && build(keys[i]).Err? && Holds(holder, keys[..i], objects)
      requires AllAgree(holder)
      ensures Attempted(build, keys) == i + 1 && Traverse(build, keys) == Err(build(keys[i]).error)
    {
      forall j | 0 <= j < i ensures build(keys[j]).Ok? {
        assert keys[..i][j] == keys[j];
        assert Agrees(keys[j], holder[keys[j]]);
      }
      AttemptedStops(build, keys, i);
    }

    method ClearElements()
      modifies this
      ensures Valid() && elementHolder == map[]
    {
      elementHolder := map[];
    }
  }

  /** Two calls, however much they overlap and whatever is between them: equal texts get the same object. */
  lemma GotTwice<T>(repository: Repository<T>, first: seq<ByteString>, earlier: map<ByteString, Interned?<T>>,
                    a: seq<Interned<T>>, second: seq<ByteString>, later: map<ByteString, Interned?<T>>,
                    b: seq<Interned<T>>, i: nat, j: nat)
    requires repository.Holds(earlier, repository.Keys(first), a) && repository.Holds(later, repository.Keys(second), b)
    requires repository.Extends(earlier, later)
    requires i < |first| && j < |second| && first[i] == second[j]
    ensures a[i] == b[j]
  {
    assert repository.Keys(first)[i] == repository.Keys(second)[j];
  }
}
