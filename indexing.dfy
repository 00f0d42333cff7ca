/** The four `operator[]` overloads of json.cpp. The const ones only read;
    the mutable ones first turn a Null value into an empty container
    (auto-vivification) and return a reference into the value, through
    which the caller may then assign. */
module Indexing {
  import opened JsonValue

  /** `const JSON& operator[](key) const`: the value under `key` of an
      object; a type error on anything else and an error for a missing
      key. */
  function ConstKey(v: Value, key: string): (r: Result<Value>)
    ensures r.Ok? <==> v.Object? && key in KeySet(v.members)
    ensures r.Ok? ==> Member(key, r.value) in v.members
    ensures !v.Object? ==> r == Err(NotObject)
    ensures v.Object? && key !in KeySet(v.members) ==> r == Err(MissingKey)
  {
    if !v.Object? then Err(NotObject)
    else
      match Lookup(v.members, key)
      case None => Err(MissingKey)
      case Some(x) => Ok(x)
  }

  /** `const JSON& operator[](index) const`: element `index` of an array;
      a type error on anything else and an error past the end. */
  function ConstIndex(v: Value, index: nat): (r: Result<Value>)
    ensures r.Ok? <==> v.Array? && index < |v.elems|
    ensures r.Ok? ==> r.value == v.elems[index]
    ensures !v.Array? ==> r == Err(NotArray)
    ensures v.Array? && index >= |v.elems| ==> r == Err(OutOfBounds)
  {
    if !v.Array? then Err(NotArray)
    else if index >= |v.elems| then Err(OutOfBounds)
    else Ok(v.elems[index])
  }

  /** What `JSON& operator[](key)` does to a value: the new value, and the
      value the returned reference designates (or the exception). Null
      becomes `{}`; an absent key is inserted with Null. */
  function KeyAccess(v: Value, key: string): (r: (Value, Result<Value>))
  {
    var w := if v.Null? then Object([]) else v;
    if !w.Object? then (w, Err(NotObject))
    else
      match Lookup(w.members, key)
      case Some(x) => (w, Ok(x))
      case None => (Object(Put(w.members, key, Null)), Ok(Null))
  }

  /** What `JSON& operator[](index)` does to a value: Null becomes `[]`
      before the bounds check, which then fails, so the value is changed
      even though an exception is thrown. */
  function IndexAccess(v: Value, index: nat): (r: (Value, Result<Value>))
  {
    var w := if v.Null? then Array([]) else v;
    (w, ConstIndex(w, index))
  }

  /** `j[key] = x`: the mutable key operator, then an assignment through
      the reference it returns. */
  function KeyAssign(v: Value, key: string, x: Value): (r: Result<Value>)
  {
    var (w, slot) := KeyAccess(v, key);
    if slot.Err? then Err(slot.error) else Ok(Object(Put(w.members, key, x)))
  }

  /** `j[index] = x`: the mutable positional operator, then an assignment
      through the reference it returns. */
  function IndexAssign(v: Value, index: nat, x: Value): (r: Result<Value>)
  {
    var (w, slot) := IndexAccess(v, index);
    if slot.Err? then Err(slot.error) else Ok(Array(w.elems[index := x]))
  }

  /** The mutable key operator fails exactly on a value that is neither
      Null nor an object, and then leaves it unchanged; otherwise the
      reference designates the stored value or a fresh Null, and what it
      designates is what the const operator then finds. */
  lemma {:induction false} KeyAccessResult(v: Value, key: string)
    ensures KeyAccess(v, key).1.Err? <==> !v.Null? && !v.Object?
    ensures KeyAccess(v, key).1.Err? ==> KeyAccess(v, key) == (v, Err(NotObject))
    ensures v.Object? && key in KeySet(v.members) ==> KeyAccess(v, key) == (v, ConstKey(v, key))
    ensures v.Null? || (v.Object? && key !in KeySet(v.members)) ==> KeyAccess(v, key).1 == Ok(Null)
    ensures KeyAccess(v, key).1.Ok? ==> ConstKey(KeyAccess(v, key).0, key) == KeyAccess(v, key).1
  {
    var (w, r) := KeyAccess(v, key);
    if r.Ok? {
      var ms := if v.Null? then [] else v.members;
      if Lookup(ms, key).None? {
        PutLookup(ms, key, Null, key);
        PutKeySet(ms, key, Null);
      }
    }
  }

  /** The mutable key operator on Null yields `{key: null}`. */
  lemma {:induction false} KeyAccessNull(key: string)
    ensures KeyAccess(Null, key) == (Object([Member(key, Null)]), Ok(Null))
  {
    assert Lookup([], key) == None;
  }

  /** The mutable key operator adds `key` and nothing else to the key set,
      and every other key keeps its value. */
  lemma {:induction false} KeyAccessKeeps(v: Value, key: string, other: string)
    requires v.Object?
    ensures KeyAccess(v, key).0.Object?
    ensures KeySet(KeyAccess(v, key).0.members) == KeySet(v.members) + {key}
    ensures other != key ==> ConstKey(KeyAccess(v, key).0, other) == ConstKey(v, other)
  {
    if key in KeySet(v.members) {
      assert KeyAccess(v, key).0 == v;
    } else {
      PutKeySet(v.members, key, Null);
      PutLookup(v.members, key, Null, other);
    }
  }

  /** Applying the mutable key operator twice changes nothing more. */
  lemma {:induction false} KeyAccessIdempotent(v: Value, key: string)
    ensures KeyAccess(KeyAccess(v, key).0, key).0 == KeyAccess(v, key).0
  {
    var w := KeyAccess(v, key).0;
    if w.Object? {
      KeyAccessResult(v, key);
      KeyAccessKeeps(if v.Null? then Object([]) else v, key, key);
    }
  }

  /** The mutable key operator keeps the keys of every object unique. */
  lemma {:induction false} KeyAccessWellFormed(v: Value, key: string)
    requires WellFormed(v)
    ensures WellFormed(KeyAccess(v, key).0)
  {
    var ms := if v.Null? then [] else if v.Object? then v.members else [];
    if (v.Null? || v.Object?) && Lookup(ms, key).None? {
      PutDistinct(ms, key, Null);
      PutValues(ms, key, Null);
    }
  }

  /** `j[key] = x` fails exactly when the key operator does, and then
      with a type error. */
  lemma {:induction false} KeyAssignFails(v: Value, key: string, x: Value)
    ensures KeyAssign(v, key, x).Err? <==> !v.Null? && !v.Object?
    ensures KeyAssign(v, key, x).Err? ==> KeyAssign(v, key, x).error == NotObject
  {
    KeyAccessResult(v, key);
  }

  /** After `j[key] = x`, `key` holds `x` and every other key keeps its
      value: the last write wins. */
  lemma {:induction false} KeyAssignLastWins(v: Value, key: string, x: Value, other: string)
    requires KeyAssign(v, key, x).Ok?
    ensures ConstKey(KeyAssign(v, key, x).value, key) == Ok(x)
    ensures other != key ==>
              ConstKey(KeyAssign(v, key, x).value, other) == (if v.Null? then Err(MissingKey) else ConstKey(v, other))
  {
    var w := KeyAccess(v, key).0;
    var ms := if v.Null? then [] else v.members;
    PutLookup(ms, key, Null, other);
    PutLookup(w.members, key, x, other);
    PutKeySet(w.members, key, x);
    PutKeySet(ms, key, Null);
  }

  /** `j[key] = x` keeps the keys of every object unique. */
  lemma {:induction false} KeyAssignWellFormed(v: Value, key: string, x: Value)
    requires KeyAssign(v, key, x).Ok? && WellFormed(v) && WellFormed(x)
    ensures WellFormed(KeyAssign(v, key, x).value)
  {
    var w := KeyAccess(v, key).0;
    KeyAccessWellFormed(v, key);
    PutDistinct(w.members, key, x);
    PutValues(w.members, key, x);
  }

  /** The mutable positional operator agrees with the const one, except
      that it first turns Null into `[]`, so that on Null it reports
      out of bounds rather than a type error. */
  lemma {:induction false} IndexAccessResult(v: Value, index: nat)
    ensures !v.Null? ==> IndexAccess(v, index) == (v, ConstIndex(v, index))
    ensures v.Null? ==> IndexAccess(v, index) == (Array([]), Err(OutOfBounds))
    ensures v.Null? ==> ConstIndex(v, index) == Err(NotArray)
  {
  }

  /** `j[index] = x` replaces element `index` and nothing else, and fails
      without a change on an index past the end. */
  lemma {:induction false} IndexAssignReplaces(v: Value, index: nat, x: Value, other: nat)
    ensures IndexAssign(v, index, x).Ok? <==> v.Array? && index < |v.elems|
    ensures IndexAssign(v, index, x).Ok? ==> ConstIndex(IndexAssign(v, index, x).value, index) == Ok(x)
    ensures IndexAssign(v, index, x).Ok? && other != index ==>
              ConstIndex(IndexAssign(v, index, x).value, other) == ConstIndex(v, other)
  {
  }

  /** `j[index] = x` keeps the keys of every object unique. */
  lemma {:induction false} IndexAssignWellFormed(v: Value, index: nat, x: Value)
    requires IndexAssign(v, index, x).Ok? && WellFormed(v) && WellFormed(x)
    ensures WellFormed(IndexAssign(v, index, x).value)
  {
    var es := IndexAssign(v, index, x).value.elems;
    forall k | 0 <= k < |es|
      ensures WellFormed(es[k])
    {
      if k != index {
        assert es[k] == v.elems[k];
      }
    }
  }

  /** A JSON object held in a variable: the mutable operators update
      `data` in place, and keep the keys of every object in it unique. */
  class Json {
    var data: Value

    /** `JSON()` and `JSON(nullptr)`: Null. */
    constructor ()
      ensures data == Null
    {
      data := Null;
    }

    /** The converting constructors of json.h: the alternative with the
        given payload. */
    constructor Of(v: Value)
      requires WellFormed(v)
      ensures data == v
    {
      data := v;
    }

    /** `JSON& operator[](key)`: returns what the reference designates. */
    method Key(key: string) returns (r: Result<Value>)
      requires WellFormed(data)
      modifies this
      ensures (data, r) == KeyAccess(old(data), key)
      ensures WellFormed(data)
    {
      KeyAccessWellFormed(data, key);
      if data.Null? {
        data := Object([]);
      }
      if !data.Object? {
        return Err(NotObject);
      }
      var found := Lookup(data.members, key);
      if found.None? {
        data := Object(Put(data.members, key, Null));
        r := Ok(Null);
      } else {
        r := Ok(found.value);
      }
    }

    /** `j[key] = x`. */
    method SetKey(key: string, x: Value) returns (r: Result<()>)
      requires WellFormed(data) && WellFormed(x)
      modifies this
      ensures KeyAssign(old(data), key, x).Ok? ==> r == Ok(()) && data == KeyAssign(old(data), key, x).value
      ensures KeyAssign(old(data), key, x).Err? ==> r == Err(KeyAssign(old(data), key, x).error) && data == old(data)
      ensures WellFormed(data)
    {
      if KeyAssign(data, key, x).Ok? {
        KeyAssignWellFormed(data, key, x);
      }
      var slot := Key(key);
      if slot.Err? {
        return Err(slot.error);
      }
      data := Object(Put(data.members, key, x));
      r := Ok(());
    }

    /** `JSON& operator[](index)`: returns what the reference designates. */
    method Index(index: nat) returns (r: Result<Value>)
      requires WellFormed(data)
      modifies this
      ensures (data, r) == IndexAccess(old(data), index)
      ensures WellFormed(data)
    {
      if data.Null? {
        data := Array([]);
      }
      if !data.Array? {
        return Err(NotArray);
      }
      if index >= |data.elems| {
        return Err(OutOfBounds);
      }
      r := Ok(data.elems[index]);
    }

    /** `j[index] = x`. */
    method SetIndex(index: nat, x: Value) returns (r: Result<()>)
      requires WellFormed(data) && WellFormed(x)
      modifies this
      ensures IndexAssign(old(data), index, x).Ok? ==> r == Ok(()) && data == IndexAssign(old(data), index, x).value
      ensures IndexAssign(old(data), index, x).Err? ==> r == Err(IndexAssign(old(data), index, x).error)
                                                        && data == IndexAccess(old(data), index).0
      ensures WellFormed(data)
    {
      if IndexAssign(data, index, x).Ok? {
        IndexAssignWellFormed(data, index, x);
      }
      var slot := Index(index);
      if slot.Err? {
        return Err(slot.error);
      }
      data := Array(data.elems[index := x]);
      r := Ok(());
    }
  }
}
