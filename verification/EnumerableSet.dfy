/** Sets that can be enumerated: an array of values and a mapping from values to positions. */
module EnumerableSet {
  import opened Conversion
  import opened Sequences
  import opened Words

  // ---- storage mappings: total, with default zero ----

  /** A storage mapping, given by its non-zero slots. */
  type Slots = m: map<Word, nat> | forall k :: k in m ==> m[k] != 0

  function Read(m: Slots, k: Word): nat {
    if k in m then m[k] else 0
  }

  function Write(m: Slots, k: Word, v: nat): (m': Slots)
    ensures forall j: Word :: Read(m', j) == if j == k then v else Read(m, j)
  {
    if v == 0 then map j | j in m && j != k :: m[j] else m[k := v]
  }

  // ---- the array: append, and swap-and-pop ----

  ghost function Elements(vs: seq<Word>): set<Word> {
    set v | v in vs
  }

  function SwapPop(vs: seq<Word>, i: nat): seq<Word>
    requires i < |vs|
  {
    vs[i := vs[|vs| - 1]][..|vs| - 1]
  }

  function With(vs: seq<Word>, v: Word): seq<Word> {
    if v in vs then vs else vs + [v]
  }

  function Without(vs: seq<Word>, v: Word): seq<Word> {
    if v in vs then SwapPop(vs, Position(vs, v)) else vs
  }

  lemma WithElements(vs: seq<Word>, v: Word)
    requires NoDuplicates(vs)
    ensures NoDuplicates(With(vs, v)) && Elements(With(vs, v)) == Elements(vs) + {v}
  {
    if v !in vs {
      assert forall w :: w in vs + [v] <==> w in vs || w == v;
      assert Elements(vs + [v]) == Elements(vs) + {v};
    } else {
      assert v in Elements(vs);
    }
  }

  lemma WithoutElements(vs: seq<Word>, v: Word)
    requires NoDuplicates(vs)
    ensures NoDuplicates(Without(vs, v)) && Elements(Without(vs, v)) == Elements(vs) - {v}
  {
    if v in vs {
      var p, last := Position(vs, v), |vs| - 1;
      var r := Without(vs, v);
      forall w | w in vs && w != v
        ensures w in r
      {
        var i :| 0 <= i < |vs| && vs[i] == w;
        assert r[if i == last then p else i] == w;
      }
      forall w | w in r
        ensures w in vs && w != v
      {
        var i :| 0 <= i < |r| && r[i] == w;
        assert w == vs[if i == p then last else i];
      }
      assert Elements(r) == Elements(vs) - {v};
    } else {
      assert v !in Elements(vs);
    }
  }

  lemma CancelMultiset(a: multiset<Word>, b: multiset<Word>, c: multiset<Word>)
    requires a + c == b + c
    ensures a == b
  {
    assert a == (a + c) - c && b == (b + c) - c;
  }

  /** Swap-and-pop takes away one occurrence and moves at most one survivor, into the gap. */
  lemma SwapPopConserves(vs: seq<Word>, i: nat)
    requires i < |vs|
    ensures multiset(SwapPop(vs, i)) == multiset(vs) - multiset{vs[i]}
    ensures |SwapPop(vs, i)| == |vs| - 1
    ensures forall j :: 0 <= j < |vs| - 1 ==> SwapPop(vs, i)[j] == if j == i then vs[|vs| - 1] else vs[j]
  {
    var last := vs[|vs| - 1];
    var swapped, popped := vs[i := last], SwapPop(vs, i);
    var whole, gone := multiset(vs), multiset{vs[i]};
    assert multiset(swapped) == whole - gone + multiset{last};
    assert swapped == popped + [last];
    assert multiset(swapped) == multiset(popped) + multiset{last};
    CancelMultiset(multiset(popped), whole - gone, multiset{last});
  }

  // ---- the index mapping ----

  /** The index of a value is its position plus one, and zero when it is absent. */
  ghost predicate Indexed(vs: seq<Word>, indexes: Slots) {
    && (forall i :: 0 <= i < |vs| ==> Read(indexes, vs[i]) == i + 1)
    && (forall v :: v in indexes ==> indexes[v] <= |vs| && vs[indexes[v] - 1] == v)
  }

  lemma IndexIsExact(vs: seq<Word>, indexes: Slots, v: Word)
    requires Indexed(vs, indexes)
    ensures NoDuplicates(vs)
    ensures forall i :: 0 <= i < |vs| ==> (vs[i] == v <==> Read(indexes, v) == i + 1)
    ensures Read(indexes, v) == if v in vs then Position(vs, v) + 1 else 0
  {
  }

  /** The array determines the mapping. */
  lemma IndexesDetermined(vs: seq<Word>, m: Slots, n: Slots)
    requires Indexed(vs, m) && Indexed(vs, n)
    ensures m == n
    ensures vs == [] ==> m == map[]
  {
    forall v: Word
      ensures Read(m, v) == Read(n, v)
    {
      IndexIsExact(vs, m, v);
      IndexIsExact(vs, n, v);
    }
    assert forall v :: v in m ==> Read(m, v) == Read(n, v);
    assert forall v :: v in n ==> Read(m, v) == Read(n, v);
  }

  /** Re-indexing the moved value and clearing the removed one is all the mapping needs. */
  lemma IndexedAfterRemoval(vs: seq<Word>, m: Slots, p: nat, moved: Slots)
    requires Indexed(vs, m) && p < |vs|
    requires moved == if p == |vs| - 1 then m else Write(m, vs[|vs| - 1], p + 1)
    ensures Indexed(SwapPop(vs, p), Write(moved, vs[p], 0))
    ensures SwapPop(vs, p) == Without(vs, vs[p])
  {
    IndexIsExact(vs, m, vs[p]);
    ClearedIndexes(vs, m, p, Write(moved, vs[p], 0));
  }

  lemma ClearedIndexes(vs: seq<Word>, m: Slots, p: nat, cleared: Slots)
    requires Indexed(vs, m) && p < |vs|
    requires forall v: Word :: Read(cleared, v) ==
                               if v == vs[p] then 0 else if v == vs[|vs| - 1] then p + 1 else Read(m, v)
    ensures Indexed(SwapPop(vs, p), cleared)
  {
    var r := SwapPop(vs, p);
    IndexIsExact(vs, m, vs[p]);
    forall i | 0 <= i < |r|
      ensures Read(cleared, r[i]) == i + 1
    {
      assert r[i] == if i == p then vs[|vs| - 1] else vs[i];
    }
    forall v | v in cleared
      ensures cleared[v] <= |r| && r[cleared[v] - 1] == v
    {
      ClearedPointsBack(vs, m, p, cleared, v);
    }
  }

  lemma ClearedPointsBack(vs: seq<Word>, m: Slots, p: nat, cleared: Slots, v: Word)
    requires Indexed(vs, m) && p < |vs| && v in cleared
    requires Read(cleared, v) == if v == vs[p] then 0 else if v == vs[|vs| - 1] then p + 1 else Read(m, v)
    ensures cleared[v] < |vs| && SwapPop(vs, p)[cleared[v] - 1] == v
  {
    if v != vs[|vs| - 1] {
      assert Read(m, v) == m[v];
    }
  }

  /** The set over words. */
  class Set {
    var values: seq<Word>
    var indexes: Slots

    ghost predicate Valid()
      reads this
    {
      Indexed(values, indexes)
    }

    constructor ()
      ensures Valid() && values == []
    {
      values, indexes := [], map[];
    }

    method Add(value: Word) returns (added: bool)
      requires Valid()
      modifies this
      ensures Valid()
      ensures values == With(old(values), value)
      ensures added <==> value !in old(values)
    {
      IndexIsExact(values, indexes, value);
      var present := Contains(value);
      if !present {
        values := values + [value];
        indexes := Write(indexes, value, |values|);
        return true;
      } else {
        return false;
      }
    }

    method Remove(value: Word) returns (removed: bool)
      requires Valid()
      modifies this
      ensures Valid()
      ensures values == Without(old(values), value)
      ensures removed <==> value in old(values)
    {
      IndexIsExact(values, indexes, value);
      var valueIndex := Read(indexes, value);
      if valueIndex != 0 {
        var toDeleteIndex := valueIndex - 1;
        var lastIndex := |values| - 1;
        ghost var vs := values;
        if lastIndex != toDeleteIndex {
          var lastValue := values[lastIndex];
          values := values[toDeleteIndex := lastValue];
          indexes := Write(indexes, lastValue, valueIndex);
        }
        IndexedAfterRemoval(vs, old(indexes), toDeleteIndex, indexes);
        values := values[..|values| - 1];
        assert values == SwapPop(vs, toDeleteIndex);
        indexes := Write(indexes, value, 0);
        return true;
      } else {
        return false;
      }
    }

    method Contains(value: Word) returns (present: bool)
      requires Valid()
      ensures present <==> value in values
    {
      IndexIsExact(values, indexes, value);
      return Read(indexes, value) != 0;
    }

    method Length() returns (n: nat)
      ensures n == |values|
    {
      return |values|;
    }

    /** An out-of-range array access reverts. */
    method At(index: nat) returns (r: Outcome<Word>)
      ensures r == if index < |values| then Ok(values[index]) else Reverted
    {
      if index < |values| {
        return Ok(values[index]);
      } else {
        return Reverted;
      }
    }

    method Values() returns (vs: seq<Word>)
      ensures vs == values
    {
      return values;
    }
  }

  /** The set over the values of a type: `Bytes32Set`, `AddressSet`, `UintSet`. */
  class TypedSet {
    const ty: SolType
    const inner: Set

    ghost predicate Valid()
      reads this, inner
    {
      Supported(ty) && inner.Valid() && forall w :: w in inner.values ==> w < Limit(ty)
    }

    /** The typed values, in storage order. */
    ghost function Contents(): seq<Word>
      requires Supported(ty)
      reads this, inner
    {
      seq(|inner.values|, i requires 0 <= i < |inner.values| reads this, inner => Decode(ty, inner.values[i]))
    }

    /** No stored word has bits outside the type, so decoding changes none. */
    lemma ContentsAreWords()
      requires Valid()
      ensures Contents() == inner.values
    {
      forall i | 0 <= i < |inner.values|
        ensures Contents()[i] == inner.values[i]
      {
        assert inner.values[i] in inner.values;
        WordRoundTrip(ty, inner.values[i]);
      }
    }

    constructor (ty: SolType)
      requires Supported(ty)
      ensures Valid() && fresh(inner) && this.ty == ty && Contents() == []
    {
      this.ty := ty;
      inner := new Set();
    }

    method Add(value: Word) returns (added: bool)
      requires Valid() && value < Limit(ty)
      modifies inner
      ensures Valid()
      ensures inner.values == With(old(inner.values), Encode(ty, value))
      ensures Contents() == With(old(Contents()), value)
      ensures added <==> value !in old(Contents())
    {
      ContentsAreWords();
      RoundTrip(ty, value);
      added := inner.Add(Encode(ty, value));
      ContentsAreWords();
    }

    method Remove(value: Word) returns (removed: bool)
      requires Valid() && value < Limit(ty)
      modifies inner
      ensures Valid()
      ensures inner.values == Without(old(inner.values), Encode(ty, value))
      ensures Contents() == Without(old(Contents()), value)
      ensures removed <==> value in old(Contents())
    {
      ContentsAreWords();
      RoundTrip(ty, value);
      removed := inner.Remove(Encode(ty, value));
      IndexIsExact(inner.values, inner.indexes, value);
      ContentsAreWords();
    }

    method Contains(value: Word) returns (present: bool)
      requires Valid() && value < Limit(ty)
      ensures present <==> value in Contents()
    {
      ContentsAreWords();
      RoundTrip(ty, value);
      present := inner.Contains(Encode(ty, value));
    }

    method Length() returns (n: nat)
      requires Valid()
      ensures n == |Contents()|
    {
      n := inner.Length();
    }

    method At(index: nat) returns (r: Outcome<Word>)
      requires Valid()
      ensures r == if index < |Contents()| then Ok(Contents()[index]) else Reverted
    {
      var word := inner.At(index);
      r := if word.Ok? then FromBytes32(ty, word.value) else Reverted;
    }

    /** Reinterprets the array of words as an array of typed values, without converting any. */
    method Values() returns (result: seq<Word>)
      requires Valid()
      ensures result == Contents()
      ensures forall v :: v in result ==> v < Limit(ty)
    {
      var store := inner.Values();
      ContentsAreWords();
      result := store;
    }
  }

  // ---- runs ----

  datatype SetOp = Add(value: Word) | Remove(value: Word)

  /** The array after a run of operations on an empty set. */
  ghost function RunSet(ops: seq<SetOp>): seq<Word> {
    if ops == [] then []
    else
      var vs := RunSet(ops[..|ops| - 1]);
      match ops[|ops| - 1]
      case Add(v) => With(vs, v)
      case Remove(v) => Without(vs, v)
  }

  /** The mathematical set after the same run. */
  ghost function AbstractSet(ops: seq<SetOp>): set<Word> {
    if ops == [] then {}
    else
      var s := AbstractSet(ops[..|ops| - 1]);
      match ops[|ops| - 1]
      case Add(v) => s + {v}
      case Remove(v) => s - {v}
  }

  /** After any run the array lists the mathematical set, each element once. */
  lemma {:induction false} SetRefines(ops: seq<SetOp>)
    ensures NoDuplicates(RunSet(ops))
    ensures Elements(RunSet(ops)) == AbstractSet(ops)
    ensures |RunSet(ops)| == |AbstractSet(ops)|
  {
    if ops != [] {
      var init, last := ops[..|ops| - 1], ops[|ops| - 1];
      SetRefines(init);
      match last
      case Add(v) => WithElements(RunSet(init), v);
      case Remove(v) => WithoutElements(RunSet(init), v);
    }
    CountElements(RunSet(ops));
  }

  lemma {:induction false} CountElements(vs: seq<Word>)
    requires NoDuplicates(vs)
    ensures |Elements(vs)| == |vs|
  {
    if vs != [] {
      var init, last := vs[..|vs| - 1], vs[|vs| - 1];
      CountElements(init);
      assert vs == init + [last];
      assert Elements(vs) == Elements(init) + {last};
    }
  }

  /** Adding a new value and removing it restores the array and the mapping exactly. */
  lemma AddThenRemove(vs: seq<Word>, indexes: Slots, v: Word, after: Slots)
    requires Indexed(vs, indexes) && v !in vs
    requires Indexed(Without(With(vs, v), v), after)
    ensures Without(With(vs, v), v) == vs && after == indexes
  {
    assert forall i :: 0 <= i < |vs| ==> (vs + [v])[i] == vs[i] && vs[i] in vs;
    assert Position(vs + [v], v) == |vs|;
    IndexesDetermined(vs, indexes, after);
  }

  ghost function RemoveAll(vs: seq<Word>, rs: seq<Word>): seq<Word>
    decreases rs
  {
    if rs == [] then vs else RemoveAll(Without(vs, rs[0]), rs[1..])
  }

  /**
   * Removing the elements one by one, in any order and even with repetitions, ends in the initial
   * state: the empty array, and the mapping that is zero everywhere.
   */
  lemma {:induction false} RemoveAllEmpties(vs: seq<Word>, rs: seq<Word>, after: Slots)
    requires NoDuplicates(vs) && forall v :: v in vs ==> v in rs
    requires Indexed(RemoveAll(vs, rs), after)
    ensures RemoveAll(vs, rs) == [] && after == map[]
    decreases rs
  {
    assert vs != [] ==> vs[0] in vs;
    if rs == [] {
      IndexesDetermined([], after, after);
    } else {
      WithoutElements(vs, rs[0]);
      var left := Without(vs, rs[0]);
      forall v | v in left
        ensures v in rs[1..]
      {
        assert v in Elements(left);
      }
      RemoveAllEmpties(left, rs[1..], after);
    }
  }

  // ---- typed runs ----

  function EncodeOp(op: SetOp, ty: SolType): SetOp
    requires Supported(ty)
  {
    match op
    case Add(v) => SetOp.Add(Encode(ty, v))
    case Remove(v) => SetOp.Remove(Encode(ty, v))
  }

  /** The array of words after a run of typed operations, each converted. */
  ghost function RunTyped(ops: seq<SetOp>, ty: SolType): seq<Word>
    requires Supported(ty)
  {
    RunSet(seq(|ops|, i requires 0 <= i < |ops| => EncodeOp(ops[i], ty)))
  }

  /**
   * After any run of typed operations every stored word is within the type, so that decoding changes
   * none, and the words list the mathematical set of typed values.
   */
  lemma TypedSetRefines(ops: seq<SetOp>, ty: SolType)
    requires Supported(ty) && forall i :: 0 <= i < |ops| ==> ops[i].value < Limit(ty)
    ensures Elements(RunTyped(ops, ty)) == AbstractSet(ops)
    ensures forall w :: w in RunTyped(ops, ty) ==> w < Limit(ty) && Decode(ty, w) == w
  {
    var encoded := seq(|ops|, i requires 0 <= i < |ops| => EncodeOp(ops[i], ty));
    forall i | 0 <= i < |ops|
      ensures encoded[i] == ops[i]
    {
      RoundTrip(ty, ops[i].value);
    }
    assert encoded == ops;
    SetRefines(ops);
    forall w | w in RunSet(ops)
      ensures w < Limit(ty) && Decode(ty, w) == w
    {
      assert w in AbstractSet(ops);
      AbstractInRange(ops, ty, w);
      RoundTrip(ty, w);
    }
  }

  lemma {:induction false} AbstractInRange(ops: seq<SetOp>, ty: SolType, w: Word)
    requires forall i :: 0 <= i < |ops| ==> ops[i].value < Limit(ty)
    requires w in AbstractSet(ops)
    ensures w < Limit(ty)
  {
    var init, last := ops[..|ops| - 1], ops[|ops| - 1];
    assert last.value < Limit(ty);
    if w in AbstractSet(init) {
      AbstractInRange(init, ty, w);
    }
  }
}
