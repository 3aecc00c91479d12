/** Append-or-overwrite histories of (key, value) pairs, and the searches over them. */
module Checkpoints {
  import opened MathLib
  import opened SafeCast
  import opened Words

  datatype Checkpoint = Checkpoint(key: nat, value: nat)

  ghost predicate Increasing(c: seq<Checkpoint>) {
    forall i, j :: 0 <= i < j < |c| ==> c[i].key < c[j].key
  }

  ghost predicate Fit(c: seq<Checkpoint>, keyLimit: nat, valueLimit: nat) {
    forall i :: 0 <= i < |c| ==> c[i].key < keyLimit && c[i].value < valueLimit
  }

  // ---- the reference form of the lookups: linear filters ----

  /** The checkpoints whose key is at most `k`. */
  function UpTo(c: seq<Checkpoint>, k: nat): seq<Checkpoint> {
    if c == [] then []
    else
      var last := c[|c| - 1];
      var earlier := UpTo(c[..|c| - 1], k);
      if last.key <= k then earlier + [last] else earlier
  }

  /** The checkpoints whose key is at least `k`. */
  function From(c: seq<Checkpoint>, k: nat): seq<Checkpoint> {
    if c == [] then []
    else
      var last := c[|c| - 1];
      var earlier := From(c[..|c| - 1], k);
      if last.key >= k then earlier + [last] else earlier
  }

  function LastValue(c: seq<Checkpoint>): nat {
    if c == [] then 0 else c[|c| - 1].value
  }

  function FirstValue(c: seq<Checkpoint>): nat {
    if c == [] then 0 else c[0].value
  }

  lemma {:induction false} UpToIsPrefix(c: seq<Checkpoint>, k: nat, pos: nat)
    requires pos <= |c|
    requires forall i :: 0 <= i < pos ==> c[i].key <= k
    requires forall i :: pos <= i < |c| ==> c[i].key > k
    ensures UpTo(c, k) == c[..pos]
  {
    if c != [] {
      var init := c[..|c| - 1];
      UpToIsPrefix(init, k, if pos < |c| then pos else pos - 1);
      if pos == |c| {
        assert c[..pos] == init[..pos - 1] + [c[pos - 1]];
      } else {
        assert c[..pos] == init[..pos];
      }
    }
  }

  lemma {:induction false} FromIsSuffix(c: seq<Checkpoint>, k: nat, pos: nat)
    requires pos <= |c|
    requires forall i :: 0 <= i < pos ==> c[i].key < k
    requires forall i :: pos <= i < |c| ==> c[i].key >= k
    ensures From(c, k) == c[pos..]
  {
    if c != [] {
      var init, last := c[..|c| - 1], c[|c| - 1];
      if pos < |c| {
        FromIsSuffix(init, k, pos);
        assert c[pos..] == init[pos..] + [last];
      } else {
        FromIsSuffix(init, k, pos - 1);
        assert init[pos - 1..] == c[pos..] == [];
      }
    }
  }

  /** The index at which keys greater than `k` begin. */
  lemma {:induction false} UpperSplit(c: seq<Checkpoint>, k: nat) returns (pos: nat)
    requires Increasing(c)
    ensures pos <= |c| && UpTo(c, k) == c[..pos]
    ensures forall i :: 0 <= i < pos ==> c[i].key <= k
    ensures forall i :: pos <= i < |c| ==> c[i].key > k
  {
    if c == [] || c[|c| - 1].key <= k {
      pos := |c|;
    } else {
      pos := UpperSplit(c[..|c| - 1], k);
    }
    UpToIsPrefix(c, k, pos);
  }

  /** The index at which keys of at least `k` begin. */
  lemma {:induction false} LowerSplit(c: seq<Checkpoint>, k: nat) returns (pos: nat)
    requires Increasing(c)
    ensures pos <= |c| && From(c, k) == c[pos..]
    ensures forall i :: 0 <= i < pos ==> c[i].key < k
    ensures forall i :: pos <= i < |c| ==> c[i].key >= k
  {
    if c == [] || c[|c| - 1].key < k {
      pos := |c|;
    } else {
      pos := LowerSplit(c[..|c| - 1], k);
    }
    FromIsSuffix(c, k, pos);
  }

  /**
   * The two searches are dual: their positions differ by one exactly when the key has a checkpoint,
   * and then both return that checkpoint's value.
   */
  lemma SearchesAreDual(c: seq<Checkpoint>, k: nat)
    requires Increasing(c)
    ensures var upper, lower := |UpTo(c, k)|, |c| - |From(c, k)|;
            && upper - lower == (if exists i :: 0 <= i < |c| && c[i].key == k then 1 else 0)
            && (upper != lower ==> LastValue(UpTo(c, k)) == FirstValue(From(c, k)))
  {
    var pos := UpperSplit(c, k);
    if pos > 0 && c[pos - 1].key == k {
      FromIsSuffix(c, k, pos - 1);
    } else {
      FromIsSuffix(c, k, pos);
      forall i | 0 <= i < |c|
        ensures c[i].key != k
      {
        assert i < pos ==> c[i].key <= c[pos - 1].key;
      }
    }
  }

  /** There are no more checkpoints than keys, so positions fit a word. */
  lemma {:induction false} LengthFits(c: seq<Checkpoint>, keyLimit: nat, valueLimit: nat)
    requires Increasing(c) && Fit(c, keyLimit, valueLimit)
    ensures |c| <= keyLimit
  {
    if c != [] {
      KeyAtLeastIndex(c, |c| - 1);
    }
  }

  lemma {:induction false} KeyAtLeastIndex(c: seq<Checkpoint>, i: nat)
    requires Increasing(c) && i < |c|
    ensures c[i].key >= i
  {
    if i > 0 {
      KeyAtLeastIndex(c, i - 1);
    }
  }

  // ---- the effect of a push ----

  predicate Accepts(c: seq<Checkpoint>, key: nat) {
    c == [] || c[|c| - 1].key <= key
  }

  /** The history after `value` was recorded under `key`: one slot per key, the last value wins. */
  function Recorded(c: seq<Checkpoint>, key: nat, value: nat): (r: seq<Checkpoint>)
    requires Accepts(c, key)
    ensures Increasing(c) ==> Increasing(r)
  {
    (if c != [] && c[|c| - 1].key == key then c[..|c| - 1] else c) + [Checkpoint(key, value)]
  }

  /** Recording keeps keys and values within their limits. */
  lemma RecordedFits(c: seq<Checkpoint>, key: nat, value: nat, keyLimit: nat, valueLimit: nat)
    requires Fit(c, keyLimit, valueLimit) && Accepts(c, key) && key < keyLimit && value < valueLimit
    ensures Fit(Recorded(c, key, value), keyLimit, valueLimit)
  {
  }

  /** Recording changes the answer for the keys from `key` on, to `value`, and for no other key. */
  lemma RecordedLookup(c: seq<Checkpoint>, key: nat, value: nat, k: nat)
    requires Increasing(c) && Accepts(c, key)
    ensures LastValue(UpTo(Recorded(c, key, value), k)) == if k >= key then value else LastValue(UpTo(c, k))
  {
    var r := Recorded(c, key, value);
    var kept := r[..|r| - 1];
    assert r == kept + [Checkpoint(key, value)];
    if k < key {
      assert UpTo(r, k) == UpTo(kept, k);
      assert kept != c ==> UpTo(c, k) == UpTo(kept, k);
    } else {
      assert UpTo(r, k) == UpTo(kept, k) + [Checkpoint(key, value)];
    }
  }

  // ---- the cost of a search ----

  /** How many keys the upper search reads on the section from `low` to `high`. */
  function Probes(c: seq<Checkpoint>, key: nat, low: nat, high: nat): nat
    requires high <= |c|
    decreases high - low
  {
    if low >= high then 0
    else
      var mid := (low + high) / 2;
      1 + if c[mid].key > key then Probes(c, key, low, mid) else Probes(c, key, mid + 1, high)
  }

  /** floor(log2 w) + 1, the number of binary digits of the section's width. */
  function MaxProbes(width: int): nat {
    if width <= 0 then 0 else FloorLog2(width) + 1
  }

  lemma MaxProbesMonotonic(v: int, w: int)
    requires v <= w
    ensures MaxProbes(v) <= MaxProbes(w)
  {
    if v > 0 {
      FloorLog2Monotonic(v, w);
    }
  }

  lemma {:induction false} ProbesBounded(c: seq<Checkpoint>, key: nat, low: nat, high: nat)
    requires high <= |c|
    ensures Probes(c, key, low, high) <= MaxProbes(high - low)
    decreases high - low
  {
    if low < high {
      var mid := (low + high) / 2;
      if c[mid].key > key {
        ProbesBounded(c, key, low, mid);
      } else {
        ProbesBounded(c, key, mid + 1, high);
      }
      MaxProbesMonotonic(mid - low, (high - low) / 2);
      MaxProbesMonotonic(high - mid - 1, (high - low) / 2);
    }
  }

  /** The bound is reached by every key that precedes the whole section. */
  lemma {:induction false} ProbesBoundTight(c: seq<Checkpoint>, key: nat, low: nat, high: nat)
    requires high <= |c|
    requires forall i :: low <= i < high ==> c[i].key > key
    ensures Probes(c, key, low, high) == MaxProbes(high - low)
    decreases high - low
  {
    if low < high {
      ProbesBoundTight(c, key, low, (low + high) / 2);
      assert (low + high) / 2 - low == (high - low) / 2;
    }
  }

  /** A search of the section reads `n` keys. */
  ghost predicate Costs(c: seq<Checkpoint>, key: nat, low: nat, high: nat, n: int) {
    high <= |c| && n == Probes(c, key, low, high)
  }

  /** One read tells on which side of it the search goes on, and the rest costs one less. */
  lemma ProbesStep(c: seq<Checkpoint>, key: nat, low: nat, mid: nat, high: nat, n: int)
    requires Costs(c, key, low, high, n) && low < high && mid == (low + high) / 2
    ensures if c[mid].key > key then Costs(c, key, low, mid, n - 1) else Costs(c, key, mid + 1, high, n - 1)
  {
  }

  // ---- the two binary searches ----

  /**
   * The first index of the section from `low` to `high` whose key is greater than `key`, or `high`.
   * `probes` counts the keys read.
   */
  method UpperBinaryLookup(self: seq<Checkpoint>, key: nat, low: nat, high: nat)
    returns (pos: nat, ghost probes: nat)
    requires Increasing(self) && high <= |self| < TWO_256
    ensures if low <= high then low <= pos <= high else pos == high
    ensures forall i :: low <= i < pos ==> self[i].key <= key
    ensures forall i :: pos <= i < high ==> self[i].key > key
    ensures probes == Probes(self, key, low, high)
  {
    var l, h := low, high;
    ghost var total := Probes(self, key, low, high);
    ghost var left := total;
    probes := 0;
    while l < h
      invariant low <= l && h <= high
      invariant l <= h || (l == low && h == high)
      invariant forall i :: low <= i < l ==> self[i].key <= key
      invariant forall i :: h <= i < high ==> self[i].key > key
      invariant probes + left == total
      invariant Costs(self, key, l, h, left)
      decreases h - l
    {
      var mid := Average(l, h);
      ProbesStep(self, key, l, mid, h, left);
      probes, left := probes + 1, left - 1;
      if self[mid].key > key {
        h := mid;
      } else {
        l := mid + 1;
      }
    }
    pos := h;
  }

  /** The first index of the section from `low` to `high` whose key is at least `key`, or `high`. */
  method LowerBinaryLookup(self: seq<Checkpoint>, key: nat, low: nat, high: nat) returns (pos: nat)
    requires Increasing(self) && high <= |self| < TWO_256
    ensures if low <= high then low <= pos <= high else pos == high
    ensures forall i :: low <= i < pos ==> self[i].key < key
    ensures forall i :: pos <= i < high ==> self[i].key >= key
  {
    var l, h := low, high;
    while l < h
      invariant low <= l && h <= high
      invariant l <= h || (l == low && h == high)
      invariant forall i :: low <= i < l ==> self[i].key < key
      invariant forall i :: h <= i < high ==> self[i].key >= key
      decreases h - l
    {
      var mid := Average(l, h);
      if self[mid].key < key {
        l := mid + 1;
      } else {
        h := mid;
      }
    }
    pos := h;
  }

  // ---- traces ----

  /**
   * A trace, with keys below `keyLimit` and values below `valueLimit`. The emitted traces pack both
   * into one slot: the limits are 2^32 and 2^224, or 2^96 and 2^160.
   */
  class Trace {
    const keyLimit: nat
    const valueLimit: nat
    var checkpoints: seq<Checkpoint>

    ghost predicate Valid()
      reads this
    {
      keyLimit < TWO_256 && Increasing(checkpoints) && Fit(checkpoints, keyLimit, valueLimit)
    }

    constructor (keyLimit: nat, valueLimit: nat)
      requires keyLimit < TWO_256
      ensures Valid() && checkpoints == []
      ensures this.keyLimit == keyLimit && this.valueLimit == valueLimit
    {
      this.keyLimit, this.valueLimit := keyLimit, valueLimit;
      checkpoints := [];
    }

    /** Appends a checkpoint or overwrites the last one; returns the previous and the new value. */
    method Insert(key: nat, value: nat) returns (r: Outcome<(nat, nat)>)
      requires Valid() && key < keyLimit && value < valueLimit
      modifies this
      ensures Valid()
      ensures r == if Accepts(old(checkpoints), key) then Ok((LastValue(old(checkpoints)), value)) else Reverted
      ensures checkpoints == if Accepts(old(checkpoints), key)
                             then Recorded(old(checkpoints), key, value) else old(checkpoints)
    {
      if Accepts(checkpoints, key) {
        RecordedFits(checkpoints, key, value, keyLimit, valueLimit);
      }
      var pos := |checkpoints|;
      if pos > 0 {
        var last := checkpoints[pos - 1];
        if !(last.key <= key) {
          return Reverted;
        }
        if last.key == key {
          checkpoints := checkpoints[pos - 1 := Checkpoint(key, value)];
        } else {
          checkpoints := checkpoints + [Checkpoint(key, value)];
        }
        return Ok((last.value, value));
      } else {
        checkpoints := checkpoints + [Checkpoint(key, value)];
        return Ok((0, value));
      }
    }

    method Push(key: nat, value: nat) returns (r: Outcome<(nat, nat)>)
      requires Valid() && key < keyLimit && value < valueLimit
      modifies this
      ensures Valid()
      ensures r == if Accepts(old(checkpoints), key) then Ok((LastValue(old(checkpoints)), value)) else Reverted
      ensures checkpoints == if Accepts(old(checkpoints), key)
                             then Recorded(old(checkpoints), key, value) else old(checkpoints)
    {
      r := Insert(key, value);
    }

    /** The value of the oldest checkpoint with a key of at least `key`, or zero. */
    method LowerLookup(key: nat) returns (value: nat)
      requires Valid()
      ensures value == FirstValue(From(checkpoints, key))
    {
      var len := |checkpoints|;
      LengthFits(checkpoints, keyLimit, valueLimit);
      var pos := LowerBinaryLookup(checkpoints, key, 0, len);
      FromIsSuffix(checkpoints, key, pos);
      return if pos == len then 0 else checkpoints[pos].value;
    }

    /** The value of the most recent checkpoint with a key of at most `key`, or zero. */
    method UpperLookup(key: nat) returns (value: nat)
      requires Valid()
      ensures value == LastValue(UpTo(checkpoints, key))
    {
      var len := |checkpoints|;
      LengthFits(checkpoints, keyLimit, valueLimit);
      var pos, _ := UpperBinaryLookup(checkpoints, key, 0, len);
      UpToIsPrefix(checkpoints, key, pos);
      return if pos == 0 then 0 else checkpoints[pos - 1].value;
    }

    method Latest() returns (value: nat)
      requires Valid()
      ensures value == LastValue(checkpoints)
    {
      var pos := |checkpoints|;
      return if pos == 0 then 0 else checkpoints[pos - 1].value;
    }

    method LatestCheckpoint() returns (exists_: bool, key: nat, value: nat)
      requires Valid()
      ensures exists_ <==> checkpoints != []
      ensures exists_ ==> Checkpoint(key, value) == checkpoints[|checkpoints| - 1]
      ensures !exists_ ==> key == value == 0
    {
      var pos := |checkpoints|;
      if pos == 0 {
        return false, 0, 0;
      } else {
        var ckpt := checkpoints[pos - 1];
        return true, ckpt.key, ckpt.value;
      }
    }

    method Length() returns (n: nat)
      requires Valid()
      ensures n == |checkpoints| < TWO_256
    {
      LengthFits(checkpoints, keyLimit, valueLimit);
      return |checkpoints|;
    }
  }

  // ---- histories keyed by block number ----

  /** A well-formed legacy history: 32-bit block numbers, 224-bit values. */
  ghost predicate IsTimeline(c: seq<Checkpoint>) {
    Increasing(c) && Fit(c, TWO_32, TWO_224)
  }

  /** A `view` function of two words, which may revert. */
  type BinaryOp = (Uint256, Uint256) -> Outcome<Uint256>

  /** What a push computes the new value from. */
  datatype Update = Assign(value: Uint256) | Combine(op: BinaryOp, delta: Uint256)

  function Applied(u: Update, latest: Uint256): Outcome<Uint256> {
    match u
    case Assign(value) => Ok(value)
    case Combine(op, delta) => op(latest, delta)
  }

  lemma LastValueFits(c: seq<Checkpoint>)
    requires IsTimeline(c)
    ensures LastValue(c) < TWO_224
  {
  }

  /**
   * The new value of a push at block `now`, or a revert: of the operation, of the cast of the block
   * number or the value, or of the key check.
   */
  ghost function PushedValue(c: seq<Checkpoint>, now: Uint256, u: Update): Outcome<nat>
    requires IsTimeline(c)
  {
    match Applied(u, LastValue(c))
    case Reverted => Reverted
    case Ok(value) =>
      if now < TWO_32 && value < TWO_224 && Accepts(c, now) then Ok(value) else Reverted
  }

  ghost function Pushed(c: seq<Checkpoint>, now: Uint256, u: Update): (r: seq<Checkpoint>)
    requires IsTimeline(c)
    ensures IsTimeline(r)
  {
    match PushedValue(c, now, u)
    case Reverted => c
    case Ok(value) =>
      RecordedFits(c, now, value, TWO_32, TWO_224);
      Recorded(c, now, value)
  }

  /** The answer to a query about block `blockNumber` asked in block `now`. */
  ghost function AtBlock(c: seq<Checkpoint>, now: Uint256, blockNumber: Uint256): Outcome<nat> {
    if blockNumber < now && blockNumber < TWO_32 then Ok(LastValue(UpTo(c, blockNumber))) else Reverted
  }

  /** `len - sqrt(len)`, where the last sqrt(len) positions begin. */
  method RecentSplit(len: Uint256) returns (mid: nat)
    requires len > 5
    ensures mid == len - FloorSqrt(len) && mid < len
  {
    FloorSqrtPositive(len);
    var root := Sqrt(len);
    mid := len - root;
  }

  /** The search that first reads the key at the recent split and then searches one side of it. */
  method ProbablyRecentLookup(self: seq<Checkpoint>, key: nat) returns (pos: nat, ghost probes: nat)
    requires Increasing(self) && |self| < TWO_256
    ensures pos <= |self|
    ensures forall i :: 0 <= i < pos ==> self[i].key <= key
    ensures forall i :: pos <= i < |self| ==> self[i].key > key
    ensures probes <= (if |self| > 5 then 1 else 0) + MaxProbes(|self|)
    ensures |self| > 5 && pos > |self| - FloorSqrt(|self|) ==> probes <= 1 + MaxProbes(FloorSqrt(|self|) - 1)
  {
    var len := |self|;
    var low, high := 0, len;
    ghost var mid := len;
    probes := 0;
    if len > 5 {
      var split := RecentSplit(len);
      mid := split;
      probes := 1;
      if key < self[split].key {
        high := split;
      } else {
        low := split + 1;
      }
    }
    ghost var more;
    pos, more := UpperBinaryLookup(self, key, low, high);
    probes := probes + more;
    ProbesBounded(self, key, low, high);
    MaxProbesMonotonic(high - low, len);
    assert pos > mid ==> low == mid + 1 && high - low == len - mid - 1;
  }

  /** The legacy history; `now` stands for the number of the executing block. */
  class History {
    const trace: Trace

    ghost predicate Valid()
      reads this, trace
    {
      trace.Valid() && trace.keyLimit == TWO_32 && trace.valueLimit == TWO_224
    }

    constructor ()
      ensures Valid() && fresh(trace) && trace.checkpoints == []
    {
      trace := new Trace(TWO_32, TWO_224);
    }

    lemma ValidIsTimeline()
      requires Valid()
      ensures IsTimeline(trace.checkpoints) && |trace.checkpoints| <= TWO_32
    {
      LengthFits(trace.checkpoints, TWO_32, TWO_224);
    }

    method GetAtBlock(now: Uint256, blockNumber: Uint256) returns (r: Outcome<nat>, ghost probes: nat)
      requires Valid()
      ensures r == AtBlock(trace.checkpoints, now, blockNumber)
      ensures probes <= MaxProbes(|trace.checkpoints|)
    {
      probes := 0;
      if !(blockNumber < now) {
        return Reverted, 0;
      }
      var key := DownCast(TWO_32, blockNumber);
      if key.Reverted? {
        return Reverted, 0;
      }
      var len := |trace.checkpoints|;
      LengthFits(trace.checkpoints, TWO_32, TWO_224);
      var pos;
      pos, probes := UpperBinaryLookup(trace.checkpoints, key.value, 0, len);
      ProbesBounded(trace.checkpoints, key.value, 0, len);
      UpToIsPrefix(trace.checkpoints, key.value, pos);
      r := Ok(if pos == 0 then 0 else trace.checkpoints[pos - 1].value);
    }

    /** The same answer; cheap when the checkpoint looked for is among the last sqrt(N). */
    method GetAtProbablyRecentBlock(now: Uint256, blockNumber: Uint256)
      returns (r: Outcome<nat>, ghost probes: nat)
      requires Valid()
      ensures r == AtBlock(trace.checkpoints, now, blockNumber)
      ensures var n := |trace.checkpoints|;
              && probes <= 1 + MaxProbes(n)
              && (n <= 5 ==> probes <= MaxProbes(n))
              && (n > 5 && |UpTo(trace.checkpoints, blockNumber)| > n - FloorSqrt(n) ==>
                    probes <= 1 + MaxProbes(FloorSqrt(n) - 1))
    {
      probes := 0;
      if !(blockNumber < now) {
        return Reverted, 0;
      }
      var key := DownCast(TWO_32, blockNumber);
      if key.Reverted? {
        return Reverted, 0;
      }
      ValidIsTimeline();
      var pos;
      pos, probes := ProbablyRecentLookup(trace.checkpoints, key.value);
      UpToIsPrefix(trace.checkpoints, key.value, pos);
      r := Ok(if pos == 0 then 0 else trace.checkpoints[pos - 1].value);
    }

    method Push(now: Uint256, value: Uint256) returns (r: Outcome<(nat, nat)>)
      requires Valid()
      modifies trace
      ensures Valid()
      ensures IsTimeline(old(trace.checkpoints))
      ensures trace.checkpoints == Pushed(old(trace.checkpoints), now, Assign(value))
      ensures var before := old(trace.checkpoints);
              if now < TWO_32 && value < TWO_224 && Accepts(before, now)
              then trace.checkpoints == Recorded(before, now, value) && r == Ok((LastValue(before), value))
              else trace.checkpoints == before && r == Reverted
    {
      var key := DownCast(TWO_32, now);
      if key.Reverted? {
        return Reverted;
      }
      var cast := DownCast(TWO_224, value);
      if cast.Reverted? {
        return Reverted;
      }
      r := trace.Insert(key.value, cast.value);
    }

    method PushWith(now: Uint256, op: BinaryOp, delta: Uint256) returns (r: Outcome<(nat, nat)>)
      requires Valid()
      modifies trace
      ensures Valid()
      ensures IsTimeline(old(trace.checkpoints)) && LastValue(old(trace.checkpoints)) < TWO_224
      ensures trace.checkpoints == Pushed(old(trace.checkpoints), now, Combine(op, delta))
      ensures var before := old(trace.checkpoints);
              match op(LastValue(before), delta)
              case Reverted => trace.checkpoints == before && r == Reverted
              case Ok(value) =>
                if now < TWO_32 && value < TWO_224 && Accepts(before, now)
                then trace.checkpoints == Recorded(before, now, value) && r == Ok((LastValue(before), value))
                else trace.checkpoints == before && r == Reverted
    {
      LastValueFits(trace.checkpoints);
      var latest := trace.Latest();
      var value := op(latest, delta);
      if value.Reverted? {
        return Reverted;
      }
      r := Push(now, value.value);
    }
  }
}
