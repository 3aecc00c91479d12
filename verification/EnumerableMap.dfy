/** Maps that can be enumerated: a set of keys and a mapping from keys to values. */
module EnumerableMap {
  import opened Conversion
  import opened EnumerableSet
  import opened Sequences
  import opened Words

  /** The storage of a map: the keys in enumeration order, and the non-zero value slots. */
  datatype Storage = Storage(keys: seq<Word>, values: Slots)

  /** A non-zero value is stored only under a key of the set. */
  ghost predicate Consistent(s: Storage) {
    NoDuplicates(s.keys) && forall k :: k in s.values ==> k in s.keys && s.values[k] < TWO_256
  }

  /** The mathematical map that a storage stands for; keys may be mapped to zero. */
  ghost function Abstract(s: Storage): map<Word, Word>
    requires Consistent(s)
  {
    map k | k in s.keys :: Read(s.values, k)
  }

  function Put(s: Storage, key: Word, value: Word): Storage {
    Storage(With(s.keys, key), Write(s.values, key, value))
  }

  function Drop(s: Storage, key: Word): Storage {
    Storage(Without(s.keys, key), Write(s.values, key, 0))
  }

  lemma PutUpdates(s: Storage, key: Word, value: Word, t: Storage)
    requires Consistent(s) && t == Put(s, key, value)
    ensures Consistent(t) && Abstract(t) == Abstract(s)[key := value]
    ensures key in s.keys <==> key in Abstract(s)
  {
    WithElements(s.keys, key);
    forall k: Word
      ensures k in t.keys <==> k in s.keys || k == key
    {
      assert k in Elements(t.keys) <==> k in Elements(s.keys) || k == key;
    }
    SameEntries(Abstract(t), Abstract(s)[key := value]);
  }

  lemma DropRemoves(s: Storage, key: Word, t: Storage)
    requires Consistent(s) && t == Drop(s, key)
    ensures Consistent(t) && Abstract(t) == Abstract(s) - {key}
    ensures key in s.keys <==> key in Abstract(s)
  {
    WithoutElements(s.keys, key);
    forall k: Word
      ensures k in t.keys <==> k in s.keys && k != key
    {
      assert k in Elements(t.keys) <==> k in Elements(s.keys) && k != key;
    }
    SameEntries(Abstract(t), Abstract(s) - {key});
  }

  /** The map from words to words. */
  class Bytes32ToBytes32Map {
    const keys: TypedSet
    var values: Slots

    ghost predicate Valid()
      reads this, keys, keys.inner
    {
      keys.ty == Bytes32 && keys.Valid() && Consistent(State())
    }

    ghost function State(): Storage
      reads this, keys, keys.inner
    {
      Storage(keys.inner.values, values)
    }

    /** The mathematical map it stands for. */
    ghost function Map(): map<Word, Word>
      requires Valid()
      reads this, keys, keys.inner
    {
      Abstract(State())
    }

    constructor ()
      ensures Valid() && fresh(keys) && fresh(keys.inner) && State() == Storage([], map[])
    {
      keys := new TypedSet(Bytes32);
      values := map[];
    }

    /** Adds or overwrites an entry; tells whether the key is new. */
    method Set(key: Word, value: Word) returns (added: bool)
      requires Valid()
      modifies this, keys.inner
      ensures Valid()
      ensures State() == Put(old(State()), key, value)
      ensures Map() == old(Map())[key := value]
      ensures added <==> key !in old(Map())
    {
      ghost var before := State();
      keys.ContentsAreWords();
      values := Write(values, key, value);
      added := keys.Add(key);
      assert State() == Put(before, key, value);
      PutUpdates(before, key, value, State());
    }

    /** Removes an entry; tells whether there was one. */
    method Remove(key: Word) returns (removed: bool)
      requires Valid()
      modifies this, keys.inner
      ensures Valid()
      ensures State() == Drop(old(State()), key)
      ensures Map() == old(Map()) - {key}
      ensures removed <==> key in old(Map())
    {
      ghost var before := State();
      keys.ContentsAreWords();
      values := Write(values, key, 0);
      removed := keys.Remove(key);
      assert State() == Drop(before, key);
      DropRemoves(before, key, State());
    }

    method Contains(key: Word) returns (present: bool)
      requires Valid()
      ensures present <==> key in Map()
    {
      keys.ContentsAreWords();
      present := keys.Contains(key);
    }

    method Length() returns (n: nat)
      requires Valid()
      ensures n == |Map()|
    {
      n := keys.Length();
      keys.ContentsAreWords();
      CountElements(State().keys);
      assert Map().Keys == Elements(State().keys);
    }

    /** The entry at a position of the enumeration. */
    method At(index: nat) returns (r: Outcome<(Word, Word)>)
      requires Valid()
      ensures r == if index < |State().keys| then Ok(Entries(State())[index]) else Reverted
    {
      keys.ContentsAreWords();
      var key := keys.At(index);
      if key.Reverted? {
        return Reverted;
      }
      return Ok((key.value, Read(values, key.value)));
    }

    /** Looks the value up first, and asks for membership only when it is zero. */
    method TryGet(key: Word) returns (found: bool, value: Word)
      requires Valid()
      ensures var m := Map();
              found == (key in m) && value == if key in m then m[key] else 0
    {
      var stored := Read(values, key);
      if stored == 0 {
        found := Contains(key);
        value := 0;
      } else {
        found, value := true, stored;
      }
    }

    /** Reverts exactly when the key has no entry. */
    method Get(key: Word) returns (r: Outcome<Word>)
      requires Valid()
      ensures var m := Map(); r == if key in m then Ok(m[key]) else Reverted
    {
      var value := Read(values, key);
      if value != 0 {
        return Ok(value);
      }
      var present := Contains(key);
      return if present then Ok(value) else Reverted;
    }
  }

  /** The entries in enumeration order. */
  ghost function Entries(s: Storage): seq<(Word, Word)>
    requires Consistent(s)
  {
    seq(|s.keys|, i requires 0 <= i < |s.keys| => (s.keys[i], Read(s.values, s.keys[i])))
  }

  /** Enumeration is exact: every entry of the map once, and nothing else. */
  lemma EnumerationExact(s: Storage)
    requires Consistent(s)
    ensures |Entries(s)| == |Abstract(s)|
    ensures forall i, j :: 0 <= i < j < |Entries(s)| ==> Entries(s)[i].0 != Entries(s)[j].0
    ensures forall k: Word, v: Word :: (k, v) in Entries(s) <==> k in Abstract(s) && Abstract(s)[k] == v
  {
    var es, m := Entries(s), Abstract(s);
    CountElements(s.keys);
    assert m.Keys == Elements(s.keys);
    forall k: Word, v: Word
      ensures (k, v) in es <==> k in m && m[k] == v
    {
      if k in m && m[k] == v {
        var i :| 0 <= i < |s.keys| && s.keys[i] == k;
        assert es[i] == (k, v);
      }
    }
  }

  // ---- runs ----

  datatype MapOp = Set(key: Word, value: Word) | Remove(key: Word)

  /** The storage after a run of operations on an empty map. */
  ghost function RunMap(ops: seq<MapOp>): Storage {
    if ops == [] then Storage([], map[])
    else
      var s := RunMap(ops[..|ops| - 1]);
      match ops[|ops| - 1]
      case Set(k, v) => Put(s, k, v)
      case Remove(k) => Drop(s, k)
  }

  /** The mathematical map after the same run. */
  ghost function AbstractMap(ops: seq<MapOp>): map<Word, Word> {
    if ops == [] then map[]
    else
      var m := AbstractMap(ops[..|ops| - 1]);
      match ops[|ops| - 1]
      case Set(k, v) => m[k := v]
      case Remove(k) => m - {k}
  }

  /** After any run the storage stands for the mathematical map, and enumerates it exactly. */
  lemma {:induction false} MapRefines(ops: seq<MapOp>)
    ensures Consistent(RunMap(ops))
    ensures Abstract(RunMap(ops)) == AbstractMap(ops)
  {
    if ops != [] {
      var init, last := ops[..|ops| - 1], ops[|ops| - 1];
      MapRefines(init);
      match last
      case Set(k, v) => PutUpdates(RunMap(init), k, v, RunMap(ops));
      case Remove(k) => DropRemoves(RunMap(init), k, RunMap(ops));
    }
  }

  // ---- typed maps ----

  /** Every stored word is within the range of its type. */
  ghost predicate Clean(s: Storage, keyType: SolType, valueType: SolType) {
    && (forall k :: k in s.keys ==> k < Limit(keyType))
    && (forall k :: k in s.values ==> s.values[k] < Limit(valueType))
  }

  /** The typed map that a storage stands for: every key and value decoded. */
  ghost function Typed(s: Storage, keyType: SolType, valueType: SolType): map<Word, Word>
    requires Consistent(s) && Supported(keyType) && Supported(valueType)
  {
    map k: Word | k < Limit(keyType) && Encode(keyType, k) in Abstract(s)
      :: Decode(valueType, Abstract(s)[Encode(keyType, k)])
  }

  /** On clean storage decoding changes nothing, so the typed map is the map over words. */
  lemma CleanDecodes(s: Storage, keyType: SolType, valueType: SolType)
    requires Consistent(s) && Supported(keyType) && Supported(valueType)
    requires Clean(s, keyType, valueType)
    ensures Typed(s, keyType, valueType) == Abstract(s)
  {
    var typed, words := Typed(s, keyType, valueType), Abstract(s);
    forall k: Word
      ensures k in typed <==> k in words
      ensures k in words ==> typed[k] == words[k]
    {
      KeyDecodes(s, keyType, valueType, k);
    }
    SameEntries(typed, words);
  }

  lemma SameEntries(m: map<Word, Word>, n: map<Word, Word>)
    requires forall k: Word :: (k in m <==> k in n) && (k in n ==> m[k] == n[k])
    ensures m == n
  {
    assert m.Keys == n.Keys;
  }

  lemma KeyDecodes(s: Storage, keyType: SolType, valueType: SolType, k: Word)
    requires Consistent(s) && Supported(keyType) && Supported(valueType)
    requires Clean(s, keyType, valueType)
    ensures k < Limit(keyType) ==> Encode(keyType, k) == k
    ensures k in Abstract(s) ==>
              && k < Limit(keyType)
              && Decode(keyType, k) == k
              && Decode(valueType, Abstract(s)[k]) == Abstract(s)[k]
  {
    if k < Limit(keyType) {
      RoundTrip(keyType, k);
    }
    if k in Abstract(s) {
      RoundTrip(valueType, Abstract(s)[k]);
    }
  }

  lemma EmptyIsClean(s: Storage, keyType: SolType, valueType: SolType)
    requires s == Storage([], map[]) && Supported(keyType) && Supported(valueType)
    ensures Consistent(s) && Clean(s, keyType, valueType) && Typed(s, keyType, valueType) == map[]
  {
    CleanDecodes(s, keyType, valueType);
  }

  lemma CleanAfterPut(s: Storage, keyType: SolType, valueType: SolType, key: Word, value: Word)
    requires Consistent(s) && Clean(s, keyType, valueType)
    requires key < Limit(keyType) && value < Limit(valueType)
    ensures Clean(Put(s, key, value), keyType, valueType)
  {
  }

  lemma CleanAfterDrop(s: Storage, keyType: SolType, valueType: SolType, key: Word)
    requires Consistent(s) && Clean(s, keyType, valueType)
    ensures Clean(Drop(s, key), keyType, valueType)
  {
    WithoutElements(s.keys, key);
    assert forall k: Word :: k in Drop(s, key).keys ==> k in Elements(Drop(s, key).keys);
  }

  ghost predicate InRange(op: MapOp, keyType: SolType, valueType: SolType) {
    op.key < Limit(keyType) && (op.Set? ==> op.value < Limit(valueType))
  }

  function EncodeOp(op: MapOp, keyType: SolType, valueType: SolType): MapOp
    requires Supported(keyType) && Supported(valueType)
  {
    match op
    case Set(k, v) => MapOp.Set(Encode(keyType, k), Encode(valueType, v))
    case Remove(k) => MapOp.Remove(Encode(keyType, k))
  }

  /** The storage after a run of typed operations, each converted to words. */
  ghost function RunTyped(ops: seq<MapOp>, keyType: SolType, valueType: SolType): Storage
    requires Supported(keyType) && Supported(valueType)
  {
    RunMap(seq(|ops|, i requires 0 <= i < |ops| => EncodeOp(ops[i], keyType, valueType)))
  }

  /**
   * After any run of typed operations the storage is clean and stands for the mathematical map over
   * typed keys and values.
   */
  lemma {:induction false} TypedRefines(ops: seq<MapOp>, keyType: SolType, valueType: SolType)
    requires Supported(keyType) && Supported(valueType)
    requires forall i :: 0 <= i < |ops| ==> InRange(ops[i], keyType, valueType)
    ensures var s := RunTyped(ops, keyType, valueType);
            && Consistent(s) && Clean(s, keyType, valueType)
            && Typed(s, keyType, valueType) == AbstractMap(ops)
  {
    EncodedRun(ops, keyType, valueType);
    MapRefines(ops);
    CleanRun(ops, keyType, valueType);
    CleanDecodes(RunMap(ops), keyType, valueType);
  }

  lemma EncodedRun(ops: seq<MapOp>, keyType: SolType, valueType: SolType)
    requires Supported(keyType) && Supported(valueType)
    requires forall i :: 0 <= i < |ops| ==> InRange(ops[i], keyType, valueType)
    ensures RunTyped(ops, keyType, valueType) == RunMap(ops)
  {
    var encoded := seq(|ops|, i requires 0 <= i < |ops| => EncodeOp(ops[i], keyType, valueType));
    forall i | 0 <= i < |ops|
      ensures encoded[i] == ops[i]
    {
      assert InRange(ops[i], keyType, valueType);
      RoundTrip(keyType, ops[i].key);
      if ops[i].Set? {
        RoundTrip(valueType, ops[i].value);
      }
    }
    assert encoded == ops;
  }

  lemma {:induction false} CleanRun(ops: seq<MapOp>, keyType: SolType, valueType: SolType)
    requires forall i :: 0 <= i < |ops| ==> InRange(ops[i], keyType, valueType)
    ensures Clean(RunMap(ops), keyType, valueType)
  {
    if ops != [] {
      var init, last := ops[..|ops| - 1], ops[|ops| - 1];
      CleanRun(init, keyType, valueType);
      MapRefines(init);
      assert InRange(last, keyType, valueType);
      match last
      case Set(k, v) => CleanAfterPut(RunMap(init), keyType, valueType, k, v);
      case Remove(k) => CleanAfterDrop(RunMap(init), keyType, valueType, k);
    }
  }

  /** The emitted typed maps: `UintToUintMap`, `UintToAddressMap`, `AddressToUintMap`, `Bytes32ToUintMap`. */
  class TypedMap {
    const keyType: SolType
    const valueType: SolType
    const inner: Bytes32ToBytes32Map

    ghost predicate Valid()
      reads this, inner, inner.keys, inner.keys.inner
    {
      && Supported(keyType) && Supported(valueType)
      && inner.Valid() && Clean(inner.State(), keyType, valueType)
    }

    /** The typed map. */
    ghost function Contents(): map<Word, Word>
      requires Valid()
      reads this, inner, inner.keys, inner.keys.inner
    {
      Typed(inner.State(), keyType, valueType)
    }

    /** The entries in enumeration order. */
    ghost function Order(): seq<(Word, Word)>
      requires Valid()
      reads this, inner, inner.keys, inner.keys.inner
    {
      Entries(inner.State())
    }

    constructor (keyType: SolType, valueType: SolType)
      requires Supported(keyType) && Supported(valueType)
      ensures Valid() && fresh(inner) && fresh(inner.keys) && fresh(inner.keys.inner)
      ensures Contents() == map[]
      ensures this.keyType == keyType && this.valueType == valueType
    {
      this.keyType, this.valueType := keyType, valueType;
      inner := new Bytes32ToBytes32Map();
      new;
      EmptyIsClean(inner.State(), keyType, valueType);
    }

    method Set(key: Word, value: Word) returns (added: bool)
      requires Valid() && key < Limit(keyType) && value < Limit(valueType)
      modifies inner, inner.keys.inner
      ensures Valid()
      ensures Contents() == old(Contents())[key := value]
      ensures added <==> key !in old(Contents())
    {
      CleanDecodes(inner.State(), keyType, valueType);
      RoundTrip(keyType, key);
      RoundTrip(valueType, value);
      CleanAfterPut(inner.State(), keyType, valueType, key, value);
      added := inner.Set(Encode(keyType, key), Encode(valueType, value));
      CleanDecodes(inner.State(), keyType, valueType);
    }

    method Remove(key: Word) returns (removed: bool)
      requires Valid() && key < Limit(keyType)
      modifies inner, inner.keys.inner
      ensures Valid()
      ensures Contents() == old(Contents()) - {key}
      ensures removed <==> key in old(Contents())
    {
      CleanDecodes(inner.State(), keyType, valueType);
      RoundTrip(keyType, key);
      CleanAfterDrop(inner.State(), keyType, valueType, key);
      removed := inner.Remove(Encode(keyType, key));
      CleanDecodes(inner.State(), keyType, valueType);
    }

    method Contains(key: Word) returns (present: bool)
      requires Valid() && key < Limit(keyType)
      ensures present <==> key in Contents()
    {
      CleanDecodes(inner.State(), keyType, valueType);
      RoundTrip(keyType, key);
      present := inner.Contains(Encode(keyType, key));
    }

    method Length() returns (n: nat)
      requires Valid()
      ensures n == |Contents()|
    {
      CleanDecodes(inner.State(), keyType, valueType);
      n := inner.Length();
    }

    /** The enumeration lists the entries of the typed map, each key once. */
    lemma OrderListsContents()
      requires Valid()
      ensures |Order()| == |Contents()|
      ensures forall i, j :: 0 <= i < j < |Order()| ==> Order()[i].0 != Order()[j].0
      ensures forall k: Word, v: Word :: (k, v) in Order() <==> k in Contents() && Contents()[k] == v
    {
      CleanDecodes(inner.State(), keyType, valueType);
      EnumerationExact(inner.State());
    }

    method At(index: nat) returns (r: Outcome<(Word, Word)>)
      requires Valid()
      ensures r == if index < |Order()| then Ok(Order()[index]) else Reverted
    {
      var entry := inner.At(index);
      if entry.Reverted? {
        return Reverted;
      }
      KeyDecodes(inner.State(), keyType, valueType, entry.value.0);
      return Ok((Decode(keyType, entry.value.0), Decode(valueType, entry.value.1)));
    }

    method TryGet(key: Word) returns (found: bool, value: Word)
      requires Valid() && key < Limit(keyType)
      ensures found == (key in Contents()) && value == if key in Contents() then Contents()[key] else 0
    {
      CleanDecodes(inner.State(), keyType, valueType);
      RoundTrip(keyType, key);
      var word;
      found, word := inner.TryGet(Encode(keyType, key));
      value := Decode(valueType, word);
      RoundTrip(valueType, word);
    }

    method Get(key: Word) returns (r: Outcome<Word>)
      requires Valid() && key < Limit(keyType)
      ensures r == if key in Contents() then Ok(Contents()[key]) else Reverted
    {
      CleanDecodes(inner.State(), keyType, valueType);
      RoundTrip(keyType, key);
      var word := inner.Get(Encode(keyType, key));
      if word.Reverted? {
        return Reverted;
      }
      RoundTrip(valueType, word.value);
      r := FromBytes32(valueType, word.value);
    }
  }
}
