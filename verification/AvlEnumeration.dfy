/** Enumeration (rtl/avltable.c). */
module AvlEnumeration {

  // It works on the key order and the position that the restart key stands for.

  /** The keys in order, and how many of them enumeration has passed. */
  datatype State = State(keys: seq<int>, cursor: nat)

  datatype Op = Next | Delete(key: int) | Insert(key: int)

  predicate Increasing(s: seq<int>) {
    forall i, j :: 0 <= i < j < |s| ==> s[i] < s[j]
  }

  predicate Ok(st: State) {
    Increasing(st.keys) && st.cursor <= |st.keys|
  }

  /** How many keys are smaller. */
  function Rank(s: seq<int>, key: int): nat {
    if s == [] then 0 else (if s[0] < key then 1 else 0) + Rank(s[1..], key)
  }

  function Without(s: seq<int>, key: int): seq<int> {
    var i := Rank(s, key);
    if i < |s| && s[i] == key then s[..i] + s[i + 1..] else s
  }

  function With(s: seq<int>, key: int): seq<int> {
    var i := Rank(s, key);
    if (i < |s| && s[i] == key) || i > |s| then s else s[..i] + [key] + s[i..]
  }

  /** The table after one operation; deleting the record last returned moves the restart key
      back to its predecessor, which may be the sentinel. */
  function Step(st: State, op: Op): State {
    match op
    case Next => if st.cursor < |st.keys| then st.(cursor := st.cursor + 1) else st
    case Delete(key) =>
      State(Without(st.keys, key),
            if key in st.keys && Rank(st.keys, key) < st.cursor then st.cursor - 1 else st.cursor)
    case Insert(key) =>
      State(With(st.keys, key),
            if key !in st.keys && Rank(st.keys, key) < st.cursor then st.cursor + 1 else st.cursor)
  }

  /** What the operation returns to the enumerating caller. */
  function Yield(st: State, op: Op): seq<int> {
    if op == Next && st.cursor < |st.keys| then [st.keys[st.cursor]] else []
  }

  function Run(st: State, ops: seq<Op>): State
    decreases |ops|
  {
    if ops == [] then st else Run(Step(st, ops[0]), ops[1..])
  }

  function Yields(st: State, ops: seq<Op>): seq<int>
    decreases |ops|
  {
    if ops == [] then [] else Yield(st, ops[0]) + Yields(Step(st, ops[0]), ops[1..])
  }

  lemma {:induction false} RankBound(s: seq<int>, key: int)
    requires Increasing(s)
    ensures Rank(s, key) <= |s|
    ensures forall i :: 0 <= i < |s| ==> (s[i] < key <==> i < Rank(s, key))
  {
    if s != [] {
      RankBound(s[1..], key);
      assert forall i :: 1 <= i < |s| ==> s[i] == s[1..][i - 1];
    }
  }

  /** A key is in the order exactly when it stands at its rank. */
  lemma RankMember(s: seq<int>, key: int)
    requires Increasing(s)
    ensures key in s <==> Rank(s, key) < |s| && s[Rank(s, key)] == key
  {
    RankBound(s, key);
  }

  /** Removing keeps the order, and moves only the keys behind the removed one. */
  lemma WithoutAt(s: seq<int>, key: int)
    requires Increasing(s) && key in s
    ensures Rank(s, key) < |s| && |Without(s, key)| == |s| - 1
    ensures forall i {:trigger Without(s, key)[i]} :: 0 <= i < |s| - 1 ==>
              Without(s, key)[i] == if i < Rank(s, key) then s[i] else s[i + 1]
    ensures Increasing(Without(s, key))
  {
    RankMember(s, key);
    RemovedIncreasing(s, Rank(s, key), Without(s, key));
  }

  lemma RemovedIncreasing(s: seq<int>, r: nat, w: seq<int>)
    requires Increasing(s) && r < |s| && w == s[..r] + s[r + 1..]
    ensures forall i {:trigger w[i]} :: 0 <= i < |s| - 1 ==> w[i] == if i < r then s[i] else s[i + 1]
    ensures Increasing(w)
  {
  }

  lemma WithAt(s: seq<int>, key: int)
    requires Increasing(s) && key !in s
    ensures Rank(s, key) <= |s| && |With(s, key)| == |s| + 1
    ensures forall i {:trigger With(s, key)[i]} :: 0 <= i <= |s| ==>
              With(s, key)[i] == if i < Rank(s, key) then s[i] else if i == Rank(s, key) then key else s[i - 1]
    ensures Increasing(With(s, key))
  {
    RankBound(s, key);
    RankMember(s, key);
    var r, w := Rank(s, key), With(s, key);
    assert forall i {:trigger w[i]} :: 0 <= i < |w| ==>
              w[i] == if i < r then s[i] else if i == r then key else s[i - 1];
  }

  lemma StepOk(st: State, op: Op)
    requires Ok(st)
    ensures Ok(Step(st, op))
  {
    if op != Next {
      RankMember(st.keys, op.key);
      if op.key in st.keys {
        WithoutAt(st.keys, op.key);
      } else {
        WithAt(st.keys, op.key);
      }
    }
  }

  /** A key that is present and already passed. */
  predicate Passed(st: State, key: int) {
    exists i :: 0 <= i < |st.keys| && i < st.cursor && st.keys[i] == key
  }

  lemma PassedAt(st: State, key: int, i: nat)
    requires Ok(st) && i < |st.keys| && st.keys[i] == key
    ensures Passed(st, key) <==> i < st.cursor
    ensures key in st.keys
  {
  }

  lemma DeleteSurvivor(st: State, k: int, key: int)
    requires Ok(st) && key in st.keys && key != k
    ensures key in Step(st, Delete(k)).keys
    ensures Passed(Step(st, Delete(k)), key) <==> Passed(st, key)
  {
    var i, j, t := Rank(st.keys, key), Rank(st.keys, k), Step(st, Delete(k));
    RankMember(st.keys, key);
    PassedAt(st, key, i);
    StepOk(st, Delete(k));
    RankMember(st.keys, k);
    if k in st.keys {
      WithoutAt(st.keys, k);
      PassedAt(t, key, if i < j then i else i - 1);
    } else {
      PassedAt(t, key, i);
    }
  }

  lemma InsertSurvivor(st: State, k: int, key: int)
    requires Ok(st) && key in st.keys
    ensures key in Step(st, Insert(k)).keys
    ensures Passed(Step(st, Insert(k)), key) <==> Passed(st, key)
  {
    var i, j, t := Rank(st.keys, key), Rank(st.keys, k), Step(st, Insert(k));
    RankMember(st.keys, key);
    PassedAt(st, key, i);
    StepOk(st, Insert(k));
    RankMember(st.keys, k);
    if k !in st.keys {
      WithAt(st.keys, k);
      PassedAt(t, key, if i < j then i else i + 1);
    } else {
      PassedAt(t, key, i);
    }
  }

  /** One step keeps every record it does not delete, and passes it only by returning it. */
  lemma StepSurvivor(st: State, op: Op, key: int)
    requires Ok(st) && key in st.keys && op != Delete(key)
    ensures key in Step(st, op).keys
    ensures Passed(Step(st, op), key) <==> Passed(st, key) || Yield(st, op) == [key]
    ensures Passed(st, key) ==> Yield(st, op) != [key]
  {
    match op
    case Next =>
      var i := Rank(st.keys, key);
      RankMember(st.keys, key);
      PassedAt(st, key, i);
      PassedAt(Step(st, op), key, i);
    case Delete(k) => DeleteSurvivor(st, k, key);
    case Insert(k) => InsertSurvivor(st, k, key);
  }

  /** Whatever is inserted and deleted meanwhile, a record that is not deleted is returned exactly
      once if enumeration passes it during the run, and otherwise not at all: none is skipped and
      none is repeated. */
  lemma {:induction false} SurvivorsReturnedOnce(st: State, ops: seq<Op>, key: int)
    requires Ok(st) && key in st.keys && Delete(key) !in ops
    ensures key in Run(st, ops).keys
    ensures multiset(Yields(st, ops))[key]
         == if Passed(Run(st, ops), key) && !Passed(st, key) then 1 else 0
    ensures Passed(st, key) ==> Passed(Run(st, ops), key)
    decreases |ops|
  {
    if ops != [] {
      StepOk(st, ops[0]);
      StepSurvivor(st, ops[0], key);
      assert Delete(key) !in ops[1..];
      SurvivorsReturnedOnce(Step(st, ops[0]), ops[1..], key);
    }
  }

  /** When enumeration has run to the end, every record that was ahead and survived was returned. */
  lemma CompleteEnumeration(st: State, ops: seq<Op>, key: int)
    requires Ok(st) && key in st.keys && !Passed(st, key) && Delete(key) !in ops
    requires Run(st, ops).cursor == |Run(st, ops).keys|
    ensures multiset(Yields(st, ops))[key] == 1
  {
    SurvivorsReturnedOnce(st, ops, key);
    var t := Run(st, ops);
    var i :| 0 <= i < |t.keys| && t.keys[i] == key;
    assert Passed(t, key);
  }

  // ----- order of the returned keys

  /** A key that is present and still ahead. */
  predicate IsAhead(st: State, key: int) {
    key in st.keys && !Passed(st, key)
  }

  /** The keys inserted ahead of enumeration although they are not greater than the one returned last, as
      far as they have not been deleted again. The guard can be read off the state before each call. */
  function LateAfter(st: State, op: Op, bound: int, late: set<int>): set<int> {
    match op
    case Next => late
    case Delete(k) => late - {k}
    case Insert(k) => if k !in st.keys && k <= bound && Rank(st.keys, k) >= st.cursor then late + {k} else late
  }

  function BoundAfter(st: State, op: Op, bound: int): int {
    var y := Yield(st, op);
    if y == [] then bound else y[0]
  }

  /** No record is returned while a late one is pending. */
  predicate Punctual(st: State, ops: seq<Op>, bound: int, late: set<int>)
    decreases |ops|
  {
    ops == []
    || ((Yield(st, ops[0]) != [] ==> late == {})
        && Punctual(Step(st, ops[0]), ops[1..], BoundAfter(st, ops[0], bound), LateAfter(st, ops[0], bound, late)))
  }

  ghost predicate LateIs(st: State, bound: int, late: set<int>) {
    forall k {:trigger IsAhead(st, k)} {:trigger k in late} :: k in late <==> k <= bound && IsAhead(st, k)
  }

  lemma DeleteAhead(st: State, k: int, key: int)
    requires Ok(st)
    ensures IsAhead(Step(st, Delete(k)), key) <==> IsAhead(st, key) && key != k
  {
    RankMember(st.keys, k);
    if k in st.keys { WithoutAt(st.keys, k); }
    if key in st.keys && key != k {
      DeleteSurvivor(st, k, key);
    } else {
      DeletedGone(st.keys, k, key);
    }
  }

  lemma DeletedGone(s: seq<int>, k: int, key: int)
    requires Increasing(s) && (key !in s || key == k)
    ensures key !in Without(s, k)
  {
    RankMember(s, k);
    if k in s {
      WithoutAt(s, k);
      var w := Without(s, k);
      forall i | 0 <= i < |w| ensures w[i] != key {
        assert w[i] == s[if i < Rank(s, k) then i else i + 1];
      }
    }
  }

  lemma InsertAhead(st: State, k: int, key: int)
    requires Ok(st)
    ensures IsAhead(Step(st, Insert(k)), key)
            <==> IsAhead(st, key) || (key == k && k !in st.keys && Rank(st.keys, k) >= st.cursor)
  {
    var t := Step(st, Insert(k));
    if key in st.keys {
      InsertSurvivor(st, k, key);
    } else if k !in st.keys {
      WithAt(st.keys, k);
      StepOk(st, Insert(k));
      var r := Rank(st.keys, k);
      assert t.keys[r] == k;
      PassedAt(t, k, r);
      if key != k {
        forall i | 0 <= i < |t.keys| ensures t.keys[i] != key {
          assert t.keys[i] == if i < r then st.keys[i] else if i == r then k else st.keys[i - 1];
        }
      }
    } else {
      RankMember(st.keys, k);
    }
  }

  /** What is returned next is greater than the bound unless a late record is pending. */
  lemma NextOrder(st: State, bound: int, late: set<int>)
    requires Ok(st) && st.cursor < |st.keys| && LateIs(st, bound, late)
    ensures late == {} <==> bound < st.keys[st.cursor]
    ensures LateIs(Step(st, Next), st.keys[st.cursor], {})
  {
    var c := st.cursor;
    PassedAt(st, st.keys[c], c);
    assert IsAhead(st, st.keys[c]);
    forall k | IsAhead(st, k) ensures st.keys[c] <= k {
      var i :| 0 <= i < |st.keys| && st.keys[i] == k;
      PassedAt(st, k, i);
    }
    assert st.keys[c] in late <==> st.keys[c] <= bound;
    if bound < st.keys[c] {
      forall k ensures k !in late { assert k in late ==> IsAhead(st, k); }
    }
    var t := Step(st, Next);
    forall k | IsAhead(t, k) ensures st.keys[c] < k {
      var i :| 0 <= i < |t.keys| && t.keys[i] == k;
      PassedAt(t, k, i);
    }
  }

  lemma StepLate(st: State, op: Op, bound: int, late: set<int>)
    requires Ok(st) && LateIs(st, bound, late) && (Yield(st, op) != [] ==> late == {})
    ensures LateIs(Step(st, op), BoundAfter(st, op, bound), LateAfter(st, op, bound, late))
    ensures Yield(st, op) != [] ==> bound < Yield(st, op)[0]
  {
    match op
    case Next => if st.cursor < |st.keys| { NextOrder(st, bound, late); }
    case Delete(k) =>
      forall key ensures IsAhead(Step(st, op), key) <==> IsAhead(st, key) && key != k { DeleteAhead(st, k, key); }
    case Insert(k) =>
      forall key
        ensures IsAhead(Step(st, op), key) <==>
                IsAhead(st, key) || (key == k && k !in st.keys && Rank(st.keys, k) >= st.cursor)
      {
        InsertAhead(st, k, key);
      }
  }

  lemma IncreasingTail(bound: int, x: int, rest: seq<int>)
    ensures Increasing([bound] + ([x] + rest)) <==> bound < x && Increasing([x] + rest)
  {
    var s, t := [bound] + ([x] + rest), [x] + rest;
    assert s[0] == bound && s[1] == x && forall i :: 0 <= i < |t| ==> s[i + 1] == t[i];
    if Increasing(s) {
      forall i, j | 0 <= i < j < |t| ensures t[i] < t[j] { assert s[i + 1] < s[j + 1]; }
    }
    if bound < x && Increasing(t) {
      forall i, j | 0 <= i < j < |s| ensures s[i] < s[j] {
        assert t[0] == x && (j > 1 ==> t[0] < t[j - 1]);
      }
    }
  }

  /** The returned keys come in strictly increasing order exactly when no record is returned while a late
      one is pending, whatever is inserted and deleted meanwhile. */
  lemma {:induction false} OrderExactly(st: State, ops: seq<Op>, bound: int, late: set<int>)
    requires Ok(st) && LateIs(st, bound, late)
    ensures Increasing([bound] + Yields(st, ops)) <==> Punctual(st, ops, bound, late)
    decreases |ops|
  {
    if ops != [] {
      var y, rest := Yield(st, ops[0]), Yields(Step(st, ops[0]), ops[1..]);
      StepOk(st, ops[0]);
      if y == [] {
        assert y + rest == rest;
        StepLate(st, ops[0], bound, late);
        OrderExactly(Step(st, ops[0]), ops[1..], bound, LateAfter(st, ops[0], bound, late));
      } else {
        IncreasingTail(bound, y[0], rest);
        assert y + rest == [y[0]] + rest;
        NextOrder(st, bound, late);
        if late == {} {
          OrderExactly(Step(st, ops[0]), ops[1..], y[0], late);
        }
      }
    }
  }

  /** From the start nothing is late, and with deletions only nothing ever is: the order is kept. */
  lemma {:induction false} DeletionsKeepOrder(st: State, ops: seq<Op>, bound: int)
    requires forall i :: 0 <= i < |ops| ==> !ops[i].Insert?
    ensures Punctual(st, ops, bound, {})
    decreases |ops|
  {
    if ops != [] {
      assert LateAfter(st, ops[0], bound, {}) == {};
      DeletionsKeepOrder(Step(st, ops[0]), ops[1..], BoundAfter(st, ops[0], bound));
    }
  }

  /** The guard matters: after the record last returned has been deleted, inserting its key again
      puts it ahead of the restart key, and it is returned twice. */
  lemma ReinsertedReturnedTwice()
    ensures Yields(State([5], 0), [Next, Delete(5), Insert(5), Next]) == [5, 5]
  {
    var s0 := State([5], 0);
    var s1 := State([5], 1);
    assert Rank([5], 5) == 0;
    var s2 := State([], 0);
    assert Step(s1, Delete(5)) == s2;
    assert Step(s2, Insert(5)) == s0;
    assert Yields(s0, [Next]) == [5];
    assert [Next, Delete(5), Insert(5), Next][1..] == [Delete(5), Insert(5), Next];
    assert [Delete(5), Insert(5), Next][1..] == [Insert(5), Next];
    assert [Insert(5), Next][1..] == [Next];
  }

  /** Deleting the first record right after it was returned leaves nothing passed: the restart key
      stands on the sentinel, and the next step returns the new first record. */
  lemma FirstDeletedStartsOver(keys: seq<int>)
    requires Increasing(keys) && |keys| > 0
    ensures Run(State(keys, 0), [Next, Delete(keys[0])]) == State(keys[1..], 0)
  {
    var s1 := State(keys, 1);
    RankBound(keys, keys[0]);
    assert Step(State(keys, 0), Next) == s1;
    assert Without(keys, keys[0]) == keys[1..];
    assert [Next, Delete(keys[0])][1..] == [Delete(keys[0])];
    assert Run(s1, [Delete(keys[0])]) == Step(s1, Delete(keys[0]));
  }
}
