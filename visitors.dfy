/** The harness's comparators and traversal callbacks: `iter` checks that a
    read-only scan yields strictly increasing (or, reversed, strictly
    decreasing) items; `pair_keep` and `pair_keep_desc` assert the same of the
    keys of `struct pair` records; `pair_update`, `pair_delete` and
    `pair_cycle` return the action the traversal applies to the item. */
module Visitors {
  import opened Common

  /** `enum btree_action`: BTREE_NONE, BTREE_UPDATE, BTREE_DELETE. */
  datatype Action = NoAction | Update | Delete

  /** `struct pair`. */
  datatype Pair = Pair(key: int, val: int)

  /** `a` comes strictly before `b` in an ascending (`desc` false) or a
      descending (`desc` true) stream. */
  predicate Precedes(desc: bool, a: int, b: int)
  {
    if desc then a > b else a < b
  }

  /** Every item comes strictly after its predecessor. */
  predicate Chain(desc: bool, s: seq<int>)
  {
    forall i :: 0 < i < |s| ==> Precedes(desc, s[i - 1], s[i])
  }

  /** Every item comes strictly after every earlier one. */
  predicate Ordered(desc: bool, s: seq<int>)
  {
    forall i, j :: 0 <= i < j < |s| ==> Precedes(desc, s[i], s[j])
  }

  /** Checking neighbours, as the callbacks do, is enough to establish strict
      order of the whole stream. */
  lemma {:induction false} ChainIsOrdered(desc: bool, s: seq<int>)
    requires Chain(desc, s)
    ensures Ordered(desc, s)
    decreases |s|
  {
    if |s| > 1 {
      var init := s[..|s| - 1];
      assert Chain(desc, init) by {
        forall i | 0 < i < |init| ensures Precedes(desc, init[i - 1], init[i]) {
          assert init[i - 1] == s[i - 1] && init[i] == s[i];
        }
      }
      ChainIsOrdered(desc, init);
      forall i, j | 0 <= i < j < |s| ensures Precedes(desc, s[i], s[j]) {
        if j < |s| - 1 {
          assert init[i] == s[i] && init[j] == s[j];
        } else if i < j - 1 {
          assert init[i] == s[i] && init[j - 1] == s[j - 1];
          assert Precedes(desc, s[i], s[j - 1]);
        }
      }
    }
  }

  function Keys(items: seq<Pair>): (ks: seq<int>)
    ensures |ks| == |items|
    ensures forall i :: 0 <= i < |items| ==> ks[i] == items[i].key
  {
    seq(|items|, i requires 0 <= i < |items| => items[i].key)
  }

  /** `compare_ints`: the difference of two C ints, whose sign orders them.
      The subtraction must not overflow. */
  function CompareInts(a: int, b: int): (r: int)
    requires IsInt(a) && IsInt(b) && IsInt(a - b)
    ensures r < 0 <==> a < b
    ensures r == 0 <==> a == b
    ensures r > 0 <==> a > b
  {
    a - b
  }

  /** `compare_pairs` and `compare_pairs_nudata`: only the keys take part, so
      two pairs compare as their keys do whatever their values. */
  function ComparePairs(a: Pair, b: Pair): (r: int)
    requires IsInt(a.key) && IsInt(b.key) && IsInt(a.key - b.key)
    ensures r < 0 <==> a.key < b.key
    ensures r == 0 <==> a.key == b.key
    ensures r > 0 <==> a.key > b.key
  {
    a.key - b.key
  }

  // ---------------------------------------------------------------------
  // iter

  /** `struct iter_ctx` as a value: `last` is the previous item accepted. */
  datatype IterState = IterState(rev: bool, last: Option<int>, count: int, bad: bool, stopAt: int)

  /** The context a scan starts with. */
  function FreshIter(rev: bool, stopAt: int): (s: IterState)
    ensures !Halted(s) && s.count == 0 && s.last == None
    ensures s.rev == rev && s.stopAt == stopAt
    ensures forall x :: IterStep(s, x) == (s.(last := Some(x), count := 1), true)
  {
    IterState(rev, None, 0, false, stopAt)
  }

  /** The context no longer accepts anything: the requested number of items
      has been seen, or an item out of order has. */
  predicate Halted(s: IterState)
  {
    (s.stopAt > 0 && s.count == s.stopAt) || s.bad
  }

  /** One call of `iter`: the context afterwards and whether the scan should
      go on. */
  function IterStep(s: IterState, item: int): (r: (IterState, bool))
    ensures r.1 <==> !Halted(s) && (s.last.Some? ==> Precedes(s.rev, s.last.value, item))
    ensures r.1 ==> r.0 == s.(last := Some(item), count := s.count + 1)
    ensures !r.1 ==> Halted(r.0) && r.0.last == s.last && r.0.count == s.count
    ensures r.0.rev == s.rev && r.0.stopAt == s.stopAt
  {
    if s.stopAt > 0 && s.count == s.stopAt then (s, false)
    else if s.bad then (s, false)
    else if s.last.Some? && !Precedes(s.rev, s.last.value, item) then (s.(bad := true), false)
    else (s.(last := Some(item), count := s.count + 1), true)
  }

  /** The context after `iter` has been called on each of `items` in turn. */
  function IterRun(s: IterState, items: seq<int>): (r: IterState)
    ensures r.rev == s.rev && r.stopAt == s.stopAt
    ensures s.count <= r.count <= s.count + |items|
  {
    if items == [] then s
    else IterStep(IterRun(s, items[..|items| - 1]), items[|items| - 1]).0
  }

  /** Once halted, further calls change nothing. */
  lemma {:induction false} IterHaltedStays(s: IterState, items: seq<int>)
    requires Halted(s)
    ensures IterRun(s, items) == s
  {
    if items != [] {
      IterHaltedStays(s, items[..|items| - 1]);
    }
  }

  /** What a scan leaves in a fresh context: `count` items were accepted and
      they are in order; `last` is the last of them; `bad` is set exactly
      when the item after them is out of order; otherwise the scan stopped
      only because it reached the end or `stop_at`. */
  lemma {:induction false} IterRunAccepts(rev: bool, stopAt: int, items: seq<int>)
    ensures var r := IterRun(FreshIter(rev, stopAt), items);
      && r.rev == rev && r.stopAt == stopAt
      && 0 <= r.count <= |items|
      && (stopAt > 0 ==> r.count <= stopAt)
      && Chain(rev, items[..r.count])
      && r.last == (if r.count == 0 then None else Some(items[r.count - 1]))
      && (r.bad ==>
            0 < r.count < |items| && !Precedes(rev, items[r.count - 1], items[r.count])
            && !(stopAt > 0 && r.count == stopAt))
      && (!r.bad && r.count < |items| ==> stopAt > 0 && r.count == stopAt)
  {
    if items != [] {
      var init, x := items[..|items| - 1], items[|items| - 1];
      IterRunAccepts(rev, stopAt, init);
      var p := IterRun(FreshIter(rev, stopAt), init);
      assert items[..p.count] == init[..p.count];
      if p.count < |init| {
        assert items[p.count] == init[p.count];
      }
      if p.count > 0 {
        assert items[p.count - 1] == init[p.count - 1];
      }
      if !Halted(p) && !(p.last.Some? && !Precedes(rev, p.last.value, x)) {
        assert items[..p.count + 1] == init[..p.count] + [x];
      }
    }
  }

  /** A full scan (no `stop_at`) flags `bad` exactly when the items are not
      strictly ordered, and otherwise counts every item. */
  lemma IterDetectsDisorder(rev: bool, items: seq<int>)
    ensures var r := IterRun(FreshIter(rev, 0), items);
      && (r.bad <==> !Ordered(rev, items))
      && (!r.bad ==> r.count == |items|)
  {
    IterRunAccepts(rev, 0, items);
    var r := IterRun(FreshIter(rev, 0), items);
    if !r.bad {
      assert items[..r.count] == items;
      ChainIsOrdered(rev, items);
    }
  }

  /** `struct iter_ctx`, updated in place by `iter`. */
  class IterCtx {
    var rev: bool
    var last: Option<int>
    var count: int
    var bad: bool
    var stopAt: int

    function State(): IterState
      reads this
    {
      IterState(rev, last, count, bad, stopAt)
    }

    constructor (rev: bool, stopAt: int)
      ensures State() == FreshIter(rev, stopAt)
    {
      this.rev, this.stopAt := rev, stopAt;
      last, count, bad := None, 0, false;
    }

    /** `iter(item, ctx)`: the item is compared with the last one accepted
        (`btree_compare` orders items as the tree's comparator does, here
        the integer order). */
    method Iter(item: int) returns (more: bool)
      modifies this
      ensures (State(), more) == IterStep(old(State()), item)
      ensures Halted(old(State())) ==> !more && State() == old(State())
      ensures more ==> count == old(count) + 1 && last == Some(item)
    {
      if stopAt > 0 && count == stopAt {
        return false;
      }
      if bad {
        return false;
      }
      if last.Some? {
        if rev {
          if !(item < last.value) {
            bad := true;
            return false;
          }
        } else {
          if !(last.value < item) {
            bad := true;
            return false;
          }
        }
      }
      last := Some(item);
      count := count + 1;
      more := true;
    }
  }

  // ---------------------------------------------------------------------
  // pair_keep, pair_keep_desc

  /** `struct pair_keep_ctx` as a value. */
  datatype KeepState = KeepState(last: Pair, count: int)

  /** One call of `pair_keep` (`desc` false) or `pair_keep_desc` (`desc`
      true): `None` when the assertion that the key follows the previous one
      fails, which aborts the process. */
  function KeepStep(desc: bool, s: KeepState, item: Pair): (r: Option<KeepState>)
    ensures IsInt(item.key) && IsInt(s.last.key) && IsInt(item.key - s.last.key) ==>
      (r.None? <==>
        s.count > 0 && (if desc then ComparePairs(item, s.last) >= 0 else ComparePairs(item, s.last) <= 0))
    ensures r.Some? ==> r.value == KeepState(item, s.count + 1)
  {
    if s.count > 0 && !Precedes(desc, s.last.key, item.key) then None
    else Some(KeepState(item, s.count + 1))
  }

  /** The context after the callback has seen each of `items`; `None` once
      an assertion has failed. */
  function KeepRun(desc: bool, s: KeepState, items: seq<Pair>): (r: Option<KeepState>)
    ensures r.Some? ==> r.value.count == s.count + |items|
    ensures r.Some? && items != [] ==> r.value.last == items[|items| - 1]
  {
    if items == [] then Some(s)
    else
      match KeepRun(desc, s, items[..|items| - 1])
      case None => None
      case Some(p) => KeepStep(desc, p, items[|items| - 1])
  }

  lemma {:induction false} KeepRunChain(desc: bool, last0: Pair, items: seq<Pair>)
    ensures var r := KeepRun(desc, KeepState(last0, 0), items);
      && (r.Some? <==> Chain(desc, Keys(items)))
      && (r.Some? ==> r.value.count == |items|)
      && (r.Some? && items != [] ==> r.value.last == items[|items| - 1])
  {
    if items != [] {
      var init, x := items[..|items| - 1], items[|items| - 1];
      KeepRunChain(desc, last0, init);
      assert Keys(items) == Keys(init) + [x.key];
      assert Keys(init) == Keys(items)[..|init|];
    }
  }

  /** A scan passes `pair_keep` (`pair_keep_desc`) without an assertion
      failure exactly when its keys are strictly increasing (decreasing);
      `count` is then the number of items and `last` the last item. */
  lemma KeepRunAccepts(desc: bool, last0: Pair, items: seq<Pair>)
    ensures var r := KeepRun(desc, KeepState(last0, 0), items);
      && (r.Some? <==> Ordered(desc, Keys(items)))
      && (r.Some? ==> r.value.count == |items|)
      && (r.Some? && items != [] ==> r.value.last == items[|items| - 1])
  {
    KeepRunChain(desc, last0, items);
    if Chain(desc, Keys(items)) {
      ChainIsOrdered(desc, Keys(items));
    }
  }

  class PairKeepCtx {
    var last: Pair
    var count: int

    function State(): KeepState
      reads this
    {
      KeepState(last, count)
    }

    constructor (last0: Pair)
      ensures State() == KeepState(last0, 0)
    {
      last, count := last0, 0;
    }

    /** `pair_keep`: `None` stands for the failed assertion. */
    method PairKeep(item: ItemRef) returns (r: Option<Action>)
      modifies this
      ensures r.Some? <==> KeepStep(false, old(State()), item.pair).Some?
      ensures r.Some? ==> r.value == NoAction && State() == KeepStep(false, old(State()), item.pair).value
      ensures r.None? ==> State() == old(State())
    {
      if count > 0 && !(item.pair.key > last.key) {
        return None;
      }
      last := item.pair;
      count := count + 1;
      r := Some(NoAction);
    }

    /** `pair_keep_desc`: `None` stands for the failed assertion. */
    method PairKeepDesc(item: ItemRef) returns (r: Option<Action>)
      modifies this
      ensures r.Some? <==> KeepStep(true, old(State()), item.pair).Some?
      ensures r.Some? ==> r.value == NoAction && State() == KeepStep(true, old(State()), item.pair).value
      ensures r.None? ==> State() == old(State())
    {
      if count > 0 && !(item.pair.key < last.key) {
        return None;
      }
      last := item.pair;
      count := count + 1;
      r := Some(NoAction);
    }
  }

  // ---------------------------------------------------------------------
  // pair_update, pair_delete, pair_cycle

  /** The record of the item a traversal is visiting, which an action
      callback may edit in place. */
  class ItemRef {
    var pair: Pair

    constructor (p: Pair)
      ensures pair == p
    {
      pair := p;
    }
  }

  /** The `int` that `pair_cycle`'s `udata` points to. */
  class Counter {
    var value: int

    constructor (v: int)
      ensures value == v
    {
      value := v;
    }
  }

  /** The edit `pair_update` and `pair_cycle` make: the value goes up by one,
      the key stays. */
  function Bumped(p: Pair): (q: Pair)
    ensures q.key == p.key && q.val == p.val + 1
  {
    p.(val := p.val + 1)
  }

  /** `pair_update`: bumps the value and reports UPDATE. */
  method PairUpdate(item: ItemRef) returns (a: Action)
    modifies item
    ensures a == Update
    ensures item.pair.key == old(item.pair.key) && item.pair.val == old(item.pair.val) + 1
  {
    item.pair := Bumped(item.pair);
    a := Update;
  }

  /** `pair_delete`: reports DELETE and leaves the item alone. */
  method PairDelete(item: ItemRef) returns (a: Action)
    ensures a == Delete
  {
    a := Delete;
  }

  /** The action `pair_cycle` returns when its counter holds `i` (C's `%`):
      `None` for the "unreachable" branch, which exits the process. */
  function CycleAction(i: int): (a: Option<Action>)
    ensures a.None? <==> i < 0 && i % 3 != 0
    ensures i >= 0 || i % 3 == 0 ==> a == Some([NoAction, Update, Delete][i % 3])
  {
    var m := CRem(i, 3);
    if m == 0 then Some(NoAction)
    else if m == 1 then Some(Update)
    else if m == 2 then Some(Delete)
    else None
  }

  /** `pair_cycle`: advances the counter by one and returns NONE, UPDATE or
      DELETE in turn; only UPDATE edits the item, and only its value. */
  method PairCycle(counter: Counter, item: ItemRef) returns (r: Option<Action>)
    modifies counter, item
    ensures counter.value == old(counter.value) + 1
    ensures r == CycleAction(old(counter.value))
    ensures item.pair == if r == Some(Update) then Bumped(old(item.pair)) else old(item.pair)
  {
    var i := counter.value;
    counter.value := i + 1;
    var m := CRem(i, 3);
    if m == 0 {
      r := Some(NoAction);
    } else if m == 1 {
      item.pair := Bumped(item.pair);
      r := Some(Update);
    } else if m == 2 {
      r := Some(Delete);
    } else {
      r := None;
    }
  }

  /** The items a traversal leaves when the callback returns `actions[t]` for
      the `t`-th item: NONE keeps it, UPDATE keeps the edited record, DELETE
      removes it. */
  function Sweep(actions: seq<Action>, items: seq<Pair>): (r: seq<Pair>)
    requires |actions| == |items|
    ensures |r| <= |items|
  {
    if items == [] then []
    else
      var rest := Sweep(actions[1..], items[1..]);
      match actions[0]
      case NoAction => [items[0]] + rest
      case Update => [Bumped(items[0])] + rest
      case Delete => rest
  }

  /** The actions `pair_cycle` returns for `n` items when its counter starts
      at `c`. */
  function CycleActions(c: nat, n: nat): (acts: seq<Action>)
    ensures |acts| == n
    ensures forall t :: 0 <= t < n ==> Some(acts[t]) == CycleAction(c + t)
    decreases n
  {
    if n == 0 then [] else [CycleAction(c).value] + CycleActions(c + 1, n - 1)
  }

  /** Every key left by a sweep was a key before it. */
  lemma {:induction false} SweepKeys(actions: seq<Action>, items: seq<Pair>)
    requires |actions| == |items|
    ensures forall k :: k in Keys(Sweep(actions, items)) ==> k in Keys(items)
  {
    if items != [] {
      SweepKeys(actions[1..], items[1..]);
      var rest := Sweep(actions[1..], items[1..]);
      forall k | k in Keys(Sweep(actions, items)) ensures k in Keys(items) {
        var i :| 0 <= i < |Keys(Sweep(actions, items))| && Keys(Sweep(actions, items))[i] == k;
        if k != items[0].key {
          assert k in Keys(rest);
          var j :| 0 <= j < |Keys(items[1..])| && Keys(items[1..])[j] == k;
          assert Keys(items)[j + 1] == k;
        } else {
          assert Keys(items)[0] == k;
        }
      }
    }
  }

  /** Since UPDATE edits only the value and the comparators read only the
      key, a sweep leaves strictly ordered items strictly ordered. */
  lemma {:induction false} SweepKeepsOrder(desc: bool, actions: seq<Action>, items: seq<Pair>)
    requires |actions| == |items|
    requires Ordered(desc, Keys(items))
    ensures Ordered(desc, Keys(Sweep(actions, items)))
  {
    if items != [] {
      var tail := items[1..];
      assert Ordered(desc, Keys(tail)) by {
        forall i, j | 0 <= i < j < |tail| ensures Precedes(desc, Keys(tail)[i], Keys(tail)[j]) {
          assert Keys(tail)[i] == Keys(items)[i + 1] && Keys(tail)[j] == Keys(items)[j + 1];
        }
      }
      SweepKeepsOrder(desc, actions[1..], tail);
      SweepKeys(actions[1..], tail);
      var rest := Sweep(actions[1..], tail);
      if actions[0] != Delete {
        var head := if actions[0] == NoAction then items[0] else Bumped(items[0]);
        var r := [head] + rest;
        assert Sweep(actions, items) == r;
        forall i, j | 0 <= i < j < |r| ensures Precedes(desc, Keys(r)[i], Keys(r)[j]) {
          if i == 0 {
            assert Keys(r)[j] == Keys(rest)[j - 1];
            assert Keys(rest)[j - 1] in Keys(rest);
            var m :| 0 <= m < |Keys(tail)| && Keys(tail)[m] == Keys(rest)[j - 1];
            assert Keys(items)[m + 1] == Keys(tail)[m];
          } else {
            assert Keys(r)[i] == Keys(rest)[i - 1] && Keys(r)[j] == Keys(rest)[j - 1];
          }
        }
      }
    }
  }

  /** A traversal driven by `pair_cycle` from counter `c` keeps the items in
      strict order. */
  lemma CycleSweepKeepsOrder(desc: bool, c: nat, items: seq<Pair>)
    requires Ordered(desc, Keys(items))
    ensures Ordered(desc, Keys(Sweep(CycleActions(c, |items|), items)))
  {
    SweepKeepsOrder(desc, CycleActions(c, |items|), items);
  }
}
