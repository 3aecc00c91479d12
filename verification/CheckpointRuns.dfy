/** What holds of a history after any run of block advances and pushes. */
module CheckpointRuns {
  import opened Checkpoints
  import opened Words

  // ---- runs of the legacy history ----

  datatype Step = AdvanceBlock | Push(update: Update)

  /** The number of the executing block, and the history. */
  datatype Ledger = Ledger(block: Uint256, history: seq<Checkpoint>)

  ghost predicate Sound(s: Ledger) {
    IsTimeline(s.history)
  }

  ghost const GENESIS: Ledger := Ledger(0, [])

  ghost function Next(s: Ledger, step: Step): (t: Ledger)
    requires Sound(s)
    ensures Sound(t)
  {
    match step
    case AdvanceBlock => if s.block + 1 < TWO_256 then s.(block := s.block + 1) else s
    case Push(u) => s.(history := Pushed(s.history, s.block, u))
  }

  ghost function Run(s: Ledger, steps: seq<Step>): (t: Ledger)
    requires Sound(s)
    ensures Sound(t)
  {
    if steps == [] then s else Next(Run(s, steps[..|steps| - 1]), steps[|steps| - 1])
  }

  /** An update that a push made, with the block it was made in. */
  datatype Event = Event(block: nat, update: Update)

  /** The updates of the pushes that did not revert, in order. */
  ghost function Log(s: Ledger, steps: seq<Step>): seq<Event>
    requires Sound(s)
  {
    if steps == [] then []
    else
      var init, last := steps[..|steps| - 1], steps[|steps| - 1];
      var before := Run(s, init);
      if last.Push? && PushedValue(before.history, before.block, last.update).Ok?
      then Log(s, init) + [Event(before.block, last.update)]
      else Log(s, init)
  }

  /** The events of blocks up to `b`. */
  ghost function Before(log: seq<Event>, b: nat): seq<Event> {
    if log == [] then []
    else
      var last := log[|log| - 1];
      var earlier := Before(log[..|log| - 1], b);
      if last.block <= b then earlier + [last] else earlier
  }

  /** The left fold of a log from zero. */
  ghost function Replay(log: seq<Event>): Outcome<Uint256> {
    if log == [] then Ok(0)
    else
      match Replay(log[..|log| - 1])
      case Reverted => Reverted
      case Ok(latest) =>
        match log[|log| - 1].update
        case Assign(value) => Ok(value)
        case Combine(op, delta) => op(latest, delta)
  }

  /** The index `c` and the log `log` give the same answers, and neither runs ahead of `block`. */
  ghost predicate Agree(c: seq<Checkpoint>, log: seq<Event>, block: nat) {
    && (forall i :: 0 <= i < |c| ==> c[i].key <= block)
    && (forall i :: 0 <= i < |log| ==> log[i].block <= block)
    && (forall b: nat :: Replay(Before(log, b)) == Ok(LastValue(UpTo(c, b))))
  }

  lemma {:induction false} BeforeAll(log: seq<Event>, b: nat)
    requires forall i :: 0 <= i < |log| ==> log[i].block <= b
    ensures Before(log, b) == log
  {
    if log != [] {
      BeforeAll(log[..|log| - 1], b);
    }
  }

  lemma AgreeAfterPush(c: seq<Checkpoint>, log: seq<Event>, block: Uint256, u: Update)
    requires IsTimeline(c) && Agree(c, log, block) && PushedValue(c, block, u).Ok?
    ensures Agree(Pushed(c, block, u), log + [Event(block, u)], block)
  {
    var value, e := PushedValue(c, block, u).value, Event(block, u);
    var log' := log + [e];
    assert log'[..|log|] == log;
    LatestIsFold(c, log, block);
    forall b: nat
      ensures Replay(Before(log', b)) == Ok(LastValue(UpTo(Pushed(c, block, u), b)))
    {
      RecordedLookup(c, block, value, b);
      if b >= block {
        BeforeAll(log, b);
        assert Before(log', b) == log';
      } else {
        assert Before(log', b) == Before(log, b);
      }
    }
  }

  lemma LatestIsFold(c: seq<Checkpoint>, log: seq<Event>, block: nat)
    requires Agree(c, log, block)
    ensures Replay(log) == Ok(LastValue(c))
  {
    BeforeAll(log, block);
    UpToIsPrefix(c, block, |c|);
    assert c[..|c|] == c;
    assert Replay(Before(log, block)) == Ok(LastValue(UpTo(c, block)));
  }

  lemma {:induction false} RunAgrees(steps: seq<Step>)
    ensures var t := Run(GENESIS, steps); Agree(t.history, Log(GENESIS, steps), t.block)
  {
    if steps != [] {
      var init, last := steps[..|steps| - 1], steps[|steps| - 1];
      RunAgrees(init);
      var s, log := Run(GENESIS, init), Log(GENESIS, init);
      if last.Push? && PushedValue(s.history, s.block, last.update).Ok? {
        AgreeAfterPush(s.history, log, s.block, last.update);
      } else {
        assert Log(GENESIS, steps) == log;
      }
    }
  }

  /**
   * Time travel is a prefix fold: what a past block is answered with is the fold, from zero, of
   * exactly the updates made up to that block.
   */
  lemma TimeTravel(steps: seq<Step>, b: Uint256)
    ensures var t := Run(GENESIS, steps);
            AtBlock(t.history, t.block, b)
            == if b < t.block && b < TWO_32 then Replay(Before(Log(GENESIS, steps), b)) else Reverted
  {
    RunAgrees(steps);
  }

  /** The latest value is the fold of the whole log. */
  lemma {:induction false} LatestIsReplay(steps: seq<Step>)
    ensures Replay(Log(GENESIS, steps)) == Ok(LastValue(Run(GENESIS, steps).history))
  {
    RunAgrees(steps);
    var t := Run(GENESIS, steps);
    LatestIsFold(t.history, Log(GENESIS, steps), t.block);
  }

  /** Block numbers never decrease, so a push of a reachable history never fails on its key. */
  lemma {:induction false} KeyNeverInvalid(steps: seq<Step>, u: Update)
    ensures var t := Run(GENESIS, steps);
            && Accepts(t.history, t.block)
            && LastValue(t.history) < TWO_224
            && (PushedValue(t.history, t.block, u).Ok? <==>
                t.block < TWO_32 &&
                match u
                case Assign(value) => value < TWO_224
                case Combine(op, delta) =>
                  var v := op(LastValue(t.history), delta);
                  v.Ok? && v.value < TWO_224)
  {
    RunAgrees(steps);
  }

  /**
   * Finality: from any sound state, the answer for a block that is past stays the same in every later
   * state of every run.
   */
  lemma {:induction false} Finality(s: Ledger, steps: seq<Step>, b: Uint256)
    requires Sound(s) && b < s.block
    ensures var t := Run(s, steps);
            && s.block <= t.block
            && AtBlock(t.history, t.block, b) == AtBlock(s.history, s.block, b)
  {
    if steps != [] {
      var init, last := steps[..|steps| - 1], steps[|steps| - 1];
      Finality(s, init, b);
      var t := Run(s, init);
      if last.Push? && PushedValue(t.history, t.block, last.update).Ok? {
        RecordedLookup(t.history, t.block, PushedValue(t.history, t.block, last.update).value, b);
      }
    }
  }

  lemma {:induction false} RunSplits(s: Ledger, first: seq<Step>, second: seq<Step>)
    requires Sound(s)
    ensures Run(s, first + second) == Run(Run(s, first), second)
  {
    var all := first + second;
    if second == [] {
      assert all == first;
    } else {
      assert all[..|all| - 1] == first + second[..|second| - 1];
      RunSplits(s, first, second[..|second| - 1]);
    }
  }

  // ---- runs of a trace ----

  /** The history after trying to push every entry in order; pushes into the past are rejected. */
  ghost function PushAll(entries: seq<Checkpoint>): (c: seq<Checkpoint>)
    ensures Increasing(c)
  {
    if entries == [] then []
    else
      var c, e := PushAll(entries[..|entries| - 1]), entries[|entries| - 1];
      if Accepts(c, e.key) then Recorded(c, e.key, e.value) else c
  }

  /** The entries that were not rejected. */
  ghost function Accepted(entries: seq<Checkpoint>): seq<Checkpoint> {
    if entries == [] then []
    else
      var init, e := entries[..|entries| - 1], entries[|entries| - 1];
      if Accepts(PushAll(init), e.key) then Accepted(init) + [e] else Accepted(init)
  }

  /** The (previous, new) pairs returned by the pushes that were not rejected. */
  ghost function Returned(entries: seq<Checkpoint>): seq<(nat, nat)> {
    if entries == [] then []
    else
      var init, e := entries[..|entries| - 1], entries[|entries| - 1];
      if Accepts(PushAll(init), e.key)
      then Returned(init) + [(LastValue(PushAll(init)), e.value)]
      else Returned(init)
  }

  ghost function Keys(entries: seq<Checkpoint>): set<nat> {
    if entries == [] then {} else Keys(entries[..|entries| - 1]) + {entries[|entries| - 1].key}
  }

  lemma KeysOfAppend(entries: seq<Checkpoint>, e: Checkpoint)
    ensures Keys(entries + [e]) == Keys(entries) + {e.key}
  {
    assert (entries + [e])[..|entries|] == entries;
  }

  lemma {:induction false} KeysAtMostLast(c: seq<Checkpoint>)
    requires Increasing(c) && c != []
    ensures c[|c| - 1].key in Keys(c)
    ensures forall k :: k in Keys(c) ==> k <= c[|c| - 1].key
    ensures |Keys(c)| == |c|
  {
    if |c| > 1 {
      KeysAtMostLast(c[..|c| - 1]);
    }
  }

  lemma RecordedKeys(c: seq<Checkpoint>, key: nat, value: nat)
    requires Accepts(c, key)
    ensures Keys(Recorded(c, key, value)) == Keys(c) + {key}
  {
    if c != [] && c[|c| - 1].key == key {
      KeysOfAppend(c[..|c| - 1], Checkpoint(key, value));
    } else {
      KeysOfAppend(c, Checkpoint(key, value));
    }
  }

  /** One slot per distinct key ever accepted. */
  lemma {:induction false} OneSlotPerKey(entries: seq<Checkpoint>)
    ensures Keys(PushAll(entries)) == Keys(Accepted(entries))
    ensures |PushAll(entries)| == |Keys(Accepted(entries))|
  {
    if entries != [] {
      var init, e := entries[..|entries| - 1], entries[|entries| - 1];
      OneSlotPerKey(init);
      if Accepts(PushAll(init), e.key) {
        KeysOfAppend(Accepted(init), e);
        RecordedKeys(PushAll(init), e.key, e.value);
      }
    }
    if PushAll(entries) != [] {
      KeysAtMostLast(PushAll(entries));
    }
  }

  /** An entry is rejected exactly when a greater key was accepted before. */
  lemma RejectedIffPast(entries: seq<Checkpoint>, key: nat)
    ensures Accepts(PushAll(entries), key) <==> forall k :: k in Keys(Accepted(entries)) ==> k <= key
  {
    OneSlotPerKey(entries);
    if PushAll(entries) != [] {
      KeysAtMostLast(PushAll(entries));
    }
  }

  /** The upper lookup of the index is the upper lookup of the log of accepted pushes. */
  lemma {:induction false} IndexMatchesLog(entries: seq<Checkpoint>, k: nat)
    ensures LastValue(UpTo(PushAll(entries), k)) == LastValue(UpTo(Accepted(entries), k))
  {
    if entries != [] {
      var init, e := entries[..|entries| - 1], entries[|entries| - 1];
      IndexMatchesLog(init, k);
      if Accepts(PushAll(init), e.key) {
        RecordedLookup(PushAll(init), e.key, e.value, k);
        var log := Accepted(init) + [e];
        assert log[..|log| - 1] == Accepted(init);
      }
    }
  }

  lemma {:induction false} KeyHasIndex(c: seq<Checkpoint>, k: nat) returns (i: nat)
    requires k in Keys(c)
    ensures i < |c| && c[i].key == k
  {
    i := |c| - 1;
    if c[i].key != k {
      i := KeyHasIndex(c[..|c| - 1], k);
    }
  }

  lemma {:induction false} IndexHasKey(c: seq<Checkpoint>, i: nat)
    requires i < |c|
    ensures c[i].key in Keys(c)
  {
    if i < |c| - 1 {
      IndexHasKey(c[..|c| - 1], i);
    }
  }

  /** The lower lookup finds the smallest accepted key from `k` on, with the last value it was given. */
  lemma LowerMatchesLog(entries: seq<Checkpoint>, k: nat)
    ensures var c, log := PushAll(entries), Accepted(entries);
            if From(c, k) == [] then FirstValue(From(c, k)) == 0 && forall key :: key in Keys(log) ==> key < k
            else
              var m := From(c, k)[0].key;
              && m in Keys(log) && m >= k
              && (forall key :: key in Keys(log) && key >= k ==> key >= m)
              && FirstValue(From(c, k)) == LastValue(UpTo(log, m))
  {
    var c := PushAll(entries);
    OneSlotPerKey(entries);
    var pos := LowerSplit(c, k);
    LowerSplitKeys(c, k, pos);
    if pos < |c| {
      UpToIsPrefix(c, c[pos].key, pos + 1);
      IndexMatchesLog(entries, c[pos].key);
      IndexHasKey(c, pos);
    }
  }

  lemma LowerSplitKeys(c: seq<Checkpoint>, k: nat, pos: nat)
    requires Increasing(c) && pos <= |c| && forall i :: 0 <= i < pos ==> c[i].key < k
    ensures forall key :: key in Keys(c) && key >= k ==> pos < |c| && key >= c[pos].key
  {
    forall key | key in Keys(c) && key >= k
      ensures pos < |c| && key >= c[pos].key
    {
      var i := KeyHasIndex(c, key);
    }
  }

  ghost function Total(pairs: seq<(nat, nat)>): int {
    if pairs == [] then 0
    else var last := pairs[|pairs| - 1]; Total(pairs[..|pairs| - 1]) + last.1 - last.0
  }

  /** Each push returns as previous value the new value of the push before; the changes add up. */
  lemma {:induction false} ReturnsTelescope(entries: seq<Checkpoint>)
    ensures var r := Returned(entries);
            && |r| == |Accepted(entries)|
            && (r != [] ==> r[0].0 == 0)
            && (forall i :: 0 <= i < |r| - 1 ==> r[i + 1].0 == r[i].1)
            && LastValue(PushAll(entries)) == (if r == [] then 0 else r[|r| - 1].1)
            && LastValue(PushAll(entries)) == Total(r)
  {
    if entries != [] {
      var init, e := entries[..|entries| - 1], entries[|entries| - 1];
      ReturnsTelescope(init);
      if Accepts(PushAll(init), e.key) {
        var r := Returned(init) + [(LastValue(PushAll(init)), e.value)];
        assert r[..|r| - 1] == Returned(init);
      }
    }
  }
}
