/**
  The list's behaviour stated on its abstract contents, a sequence of
  payloads, with 1-based positions as the C interface uses them. The
  methods of GenericList.List are proved against these functions.
 */
module ListSpec {

  /** The contents after splicing x in so that it becomes element number index. */
  function Insert<T>(s: seq<T>, index: int, x: T): (r: seq<T>)
    requires 1 <= index <= |s| + 1
    ensures |r| == |s| + 1
    ensures r[index - 1] == x
    ensures forall i {:trigger r[i]} :: 0 <= i < index - 1 ==> r[i] == s[i]
    ensures forall i {:trigger r[i]} :: index <= i < |r| ==> r[i] == s[i - 1]
  {
    s[..index - 1] + [x] + s[index - 1..]
  }

  /** The contents after unlinking element number index. */
  function RemoveAt<T>(s: seq<T>, index: int): (r: seq<T>)
    requires 1 <= index <= |s|
    ensures |r| == |s| - 1
    ensures forall i {:trigger r[i]} :: 0 <= i < index - 1 ==> r[i] == s[i]
    ensures forall i {:trigger r[i]} :: index - 1 <= i < |r| ==> r[i] == s[i + 1]
  {
    s[..index - 1] + s[index..]
  }

  /** Removing what was just inserted gives back the old contents. */
  lemma InsertThenRemove<T>(s: seq<T>, index: int, x: T)
    requires 1 <= index <= |s| + 1
    ensures RemoveAt(Insert(s, index, x), index) == s
  {
    var r := RemoveAt(Insert(s, index, x), index);
    assert forall i :: 0 <= i < |s| ==> r[i] == s[i];
  }

  /** Re-inserting a removed payload at its old position restores the contents. */
  lemma RemoveThenInsert<T>(s: seq<T>, index: int)
    requires 1 <= index <= |s|
    ensures Insert(RemoveAt(s, index), index, s[index - 1]) == s
  {
    var r := Insert(RemoveAt(s, index), index, s[index - 1]);
    assert forall i :: 0 <= i < |s| ==> r[i] == s[i];
  }

  /** The only element that removing position index can drop is the one at that position. */
  lemma RemoveAtMembers<T>(s: seq<T>, index: int, x: T)
    requires 1 <= index <= |s|
    ensures x in s <==> x in RemoveAt(s, index) || x == s[index - 1]
  {
    var r := RemoveAt(s, index);
    if x in s && x != s[index - 1] {
      var k :| 0 <= k < |s| && s[k] == x;
      if k < index - 1 { assert r[k] == x; } else { assert r[k - 1] == x; }
    }
    if x in r {
      var k :| 0 <= k < |r| && r[k] == x;
      if k < index - 1 { assert s[k] == x; } else { assert s[k + 1] == x; }
    }
  }

  /** Removing a position before the last one leaves the last element last. */
  lemma RemoveAtBeforeLast<T>(s: seq<T>, index: int)
    requires 1 <= index < |s|
    ensures RemoveAt(s, index) == RemoveAt(s[..|s| - 1], index) + [s[|s| - 1]]
  {
    var r, f := RemoveAt(s, index), RemoveAt(s[..|s| - 1], index) + [s[|s| - 1]];
    assert forall i :: 0 <= i < |r| ==> r[i] == f[i];
  }

  /**
    The 1-based position of the first element e with cmp(target, e) == 0,
    or -1 when there is none.
   */
  function FirstMatch<T>(s: seq<T>, target: T, cmp: (T, T) -> int): (r: int)
    ensures r == -1 || 1 <= r <= |s|
    ensures r == -1 <==> forall i :: 0 <= i < |s| ==> cmp(target, s[i]) != 0
    ensures r != -1 ==> cmp(target, s[r - 1]) == 0
    ensures r != -1 ==> forall i :: 0 <= i < r - 1 ==> cmp(target, s[i]) != 0
    decreases |s|
  {
    if s == [] then -1
    else if cmp(target, s[0]) == 0 then 1
    else
      var rest := FirstMatch(s[1..], target, cmp);
      assert forall i :: 1 <= i < |s| ==> s[i] == s[1..][i - 1];
      if rest == -1 then -1 else rest + 1
  }

  /**
    The position at which an ordered insert puts x: just before the first
    element e with cmp(x, e) <= 0, or after the last element if there is none.
   */
  function OrderedIndex<T>(s: seq<T>, x: T, cmp: (T, T) -> int): (r: int)
    ensures 1 <= r <= |s| + 1
    ensures forall i :: 0 <= i < r - 1 ==> cmp(x, s[i]) > 0
    ensures r <= |s| ==> cmp(x, s[r - 1]) <= 0
    decreases |s|
  {
    if s == [] || cmp(x, s[0]) <= 0 then 1
    else
      var rest := OrderedIndex(s[1..], x, cmp);
      assert forall i :: 1 <= i < |s| ==> s[i] == s[1..][i - 1];
      rest + 1
  }

  /** Every element that compares equal to x stays after the position OrderedIndex picks. */
  lemma OrderedIndexBeforeEquals<T>(s: seq<T>, x: T, cmp: (T, T) -> int, j: int)
    requires 0 <= j < |s| && cmp(x, s[j]) == 0
    ensures j >= OrderedIndex(s, x, cmp) - 1
    ensures Insert(s, OrderedIndex(s, x, cmp), x)[j + 1] == s[j]
  {
  }

  /** cmp never puts a later element before an earlier one. */
  ghost predicate Sorted<T>(s: seq<T>, cmp: (T, T) -> int)
  {
    forall i, j :: 0 <= i < j < |s| ==> cmp(s[i], s[j]) <= 0
  }

  /** A total preorder in the three-way sense: the sign flips with the operands and "not greater" is transitive. */
  ghost predicate IsTotalPreorder<T(!new)>(cmp: (T, T) -> int)
  {
    && (forall a, b :: cmp(a, b) > 0 <==> cmp(b, a) < 0)
    && (forall a, b, c :: cmp(a, b) <= 0 && cmp(b, c) <= 0 ==> cmp(a, c) <= 0)
  }

  /** One pair of positions of the contents after an ordered insertion at position p. */
  lemma OrderedInsertPair<T>(s: seq<T>, x: T, cmp: (T, T) -> int, p: int, i: int, j: int)
    requires 1 <= p <= |s| + 1
    requires forall k :: 0 <= k < p - 1 ==> cmp(x, s[k]) > 0 && cmp(s[k], x) < 0
    requires p <= |s| ==> forall k :: p - 1 <= k < |s| ==> cmp(x, s[k]) <= 0
    requires Sorted(s, cmp)
    requires 0 <= i < j < |s| + 1
    ensures var r := Insert(s, p, x); cmp(r[i], r[j]) <= 0
  {
    var r := Insert(s, p, x);
    if j == p - 1 {
      assert r[i] == s[i] && r[j] == x;
    } else if i == p - 1 {
      assert r[i] == x && r[j] == s[j - 1];
    } else {
      var i' := if i < p - 1 then i else i - 1;
      var j' := if j < p - 1 then j else j - 1;
      assert r[i] == s[i'] && r[j] == s[j'] && i' < j';
    }
  }

  /** Ordered insertion into contents sorted by a total preorder keeps them sorted. */
  lemma OrderedInsertKeepsSorted<T(!new)>(s: seq<T>, x: T, cmp: (T, T) -> int)
    requires IsTotalPreorder(cmp)
    requires Sorted(s, cmp)
    ensures Sorted(Insert(s, OrderedIndex(s, x, cmp), x), cmp)
  {
    var p := OrderedIndex(s, x, cmp);
    var r := Insert(s, p, x);
    forall k | 0 <= k < p - 1
      ensures cmp(s[k], x) < 0
    {
      assert cmp(x, s[k]) > 0;
    }
    if p <= |s| {
      forall k | p - 1 <= k < |s|
        ensures cmp(x, s[k]) <= 0
      {
        if k > p - 1 {
          assert cmp(x, s[p - 1]) <= 0 && cmp(s[p - 1], s[k]) <= 0;
        }
      }
    }
    forall i, j | 0 <= i < j < |r|
      ensures cmp(r[i], r[j]) <= 0
    {
      OrderedInsertPair(s, x, cmp, p, i, j);
    }
  }

  /** The contents with every element that satisfies isToRemove taken out, order kept. */
  function Without<T>(s: seq<T>, isToRemove: T -> bool): (r: seq<T>)
    ensures |r| <= |s|
    ensures forall i :: 0 <= i < |r| ==> !isToRemove(r[i])
    decreases |s|
  {
    if s == [] then []
    else
      var rest := Without(s[..|s| - 1], isToRemove);
      if isToRemove(s[|s| - 1]) then rest else rest + [s[|s| - 1]]
  }

  /** What survives is exactly the elements of s the predicate does not hold of. */
  lemma {:induction false} WithoutMembers<T>(s: seq<T>, isToRemove: T -> bool, x: T)
    ensures x in Without(s, isToRemove) <==> x in s && !isToRemove(x)
    decreases |s|
  {
    if s != [] {
      var front := s[..|s| - 1];
      WithoutMembers(front, isToRemove, x);
      assert s == front + [s[|s| - 1]];
    }
  }

  /** The filter only drops elements: every survivor occurs at least as often in the input. */
  lemma {:induction false} WithoutSubMultiset<T>(s: seq<T>, isToRemove: T -> bool)
    ensures multiset(Without(s, isToRemove)) <= multiset(s)
    decreases |s|
  {
    if s != [] {
      var front := s[..|s| - 1];
      WithoutSubMultiset(front, isToRemove);
      assert s == front + [s[|s| - 1]];
    }
  }

  /** Some element is removed exactly when some element satisfies the predicate. */
  lemma {:induction false} WithoutShrinks<T>(s: seq<T>, isToRemove: T -> bool)
    ensures |Without(s, isToRemove)| < |s| <==> exists i :: 0 <= i < |s| && isToRemove(s[i])
    ensures Without(s, isToRemove) == s <==> forall i :: 0 <= i < |s| ==> !isToRemove(s[i])
    decreases |s|
  {
    if s != [] {
      var front := s[..|s| - 1];
      WithoutShrinks(front, isToRemove);
      assert forall i :: 0 <= i < |front| ==> front[i] == s[i];
      if !isToRemove(s[|s| - 1]) && (exists i :: 0 <= i < |s| && isToRemove(s[i])) {
        var i :| 0 <= i < |s| && isToRemove(s[i]);
        assert isToRemove(front[i]);
      }
    }
  }

  /** Unlinking an element the predicate holds of leaves the filtered contents unchanged. */
  lemma {:induction false} WithoutRemoveAt<T>(s: seq<T>, index: int, isToRemove: T -> bool)
    requires 1 <= index <= |s| && isToRemove(s[index - 1])
    ensures Without(RemoveAt(s, index), isToRemove) == Without(s, isToRemove)
    decreases |s|
  {
    var r := RemoveAt(s, index);
    var front := s[..|s| - 1];
    if index == |s| {
      assert r == front;
    } else {
      WithoutRemoveAt(front, index, isToRemove);
      assert r[..|r| - 1] == RemoveAt(front, index);
      assert r[|r| - 1] == s[|s| - 1];
    }
  }

  /** A predicate that holds of every element empties the contents. */
  lemma WithoutAll<T>(s: seq<T>, isToRemove: T -> bool)
    requires forall i :: 0 <= i < |s| ==> isToRemove(s[i])
    ensures Without(s, isToRemove) == []
  {
  }

  /**
    The items (nodes, say) whose payloads survive the filter, in their
    original order: items[i] stays exactly when isToRemove(payloads[i]) is false.
   */
  function Survivors<T, U>(items: seq<T>, payloads: seq<U>, isToRemove: U -> bool): (r: seq<T>)
    requires |items| == |payloads|
    ensures |r| == |Without(payloads, isToRemove)|
    decreases |items|
  {
    if items == [] then []
    else
      var n := |items| - 1;
      var rest := Survivors(items[..n], payloads[..n], isToRemove);
      if isToRemove(payloads[n]) then rest else rest + [items[n]]
  }

  /** Only items whose payload is kept survive, and every such item does. */
  lemma {:induction false} SurvivorsMembers<T, U>(items: seq<T>, payloads: seq<U>, isToRemove: U -> bool, x: T)
    requires |items| == |payloads|
    ensures x in Survivors(items, payloads, isToRemove) <==>
            exists i :: 0 <= i < |items| && items[i] == x && !isToRemove(payloads[i])
    decreases |items|
  {
    if items != [] {
      var n := |items| - 1;
      SurvivorsMembers(items[..n], payloads[..n], isToRemove, x);
      assert forall i :: 0 <= i < n ==> items[..n][i] == items[i] && payloads[..n][i] == payloads[i];
      if exists i :: 0 <= i < |items| && items[i] == x && !isToRemove(payloads[i]) {
        var i :| 0 <= i < |items| && items[i] == x && !isToRemove(payloads[i]);
        if i < n {
          assert items[..n][i] == x && !isToRemove(payloads[..n][i]);
        }
      }
    }
  }

  /** Filtering the payloads by their own values is Without. */
  lemma {:induction false} SurvivorsOfPayloads<T>(s: seq<T>, isToRemove: T -> bool)
    ensures Survivors(s, s, isToRemove) == Without(s, isToRemove)
    decreases |s|
  {
    if s != [] {
      SurvivorsOfPayloads(s[..|s| - 1], isToRemove);
    }
  }

  /** Unlinking an item whose payload the predicate holds of leaves the survivors unchanged. */
  lemma {:induction false} SurvivorsRemoveAt<T, U>(items: seq<T>, payloads: seq<U>, index: int, isToRemove: U -> bool)
    requires |items| == |payloads|
    requires 1 <= index <= |items| && isToRemove(payloads[index - 1])
    ensures Survivors(RemoveAt(items, index), RemoveAt(payloads, index), isToRemove)
            == Survivors(items, payloads, isToRemove)
    decreases |items|
  {
    var r, q := RemoveAt(items, index), RemoveAt(payloads, index);
    var n := |items| - 1;
    if index == |items| {
      assert r == items[..n] && q == payloads[..n];
    } else {
      SurvivorsRemoveAt(items[..n], payloads[..n], index, isToRemove);
      RemoveAtBeforeLast(items, index);
      RemoveAtBeforeLast(payloads, index);
      var r', q' := RemoveAt(items[..n], index), RemoveAt(payloads[..n], index);
      assert r[..|r| - 1] == r' && q[..|q| - 1] == q' by {
        assert (r' + [items[n]])[..|r'|] == r';
        assert (q' + [payloads[n]])[..|q'|] == q';
      }
    }
  }

  /** When every payload is kept, every item survives. */
  lemma {:induction false} SurvivorsAllKept<T, U>(items: seq<T>, payloads: seq<U>, isToRemove: U -> bool)
    requires |items| == |payloads|
    requires forall i :: 0 <= i < |payloads| ==> !isToRemove(payloads[i])
    ensures Survivors(items, payloads, isToRemove) == items
    decreases |items|
  {
    if items != [] {
      var n := |items| - 1;
      assert forall i :: 0 <= i < n ==> payloads[..n][i] == payloads[i];
      SurvivorsAllKept(items[..n], payloads[..n], isToRemove);
    }
  }

  /**
    A filter that has kept every remaining payload and has not changed what
    the filter keeps has finished: what is left is the filter's result, and it
    is shorter exactly when some payload was dropped.
   */
  lemma FilterFinished<T, U>(items: seq<T>, payloads: seq<U>, items0: seq<T>, payloads0: seq<U>,
                             isToRemove: U -> bool)
    requires |items| == |payloads| && |items0| == |payloads0|
    requires forall i :: 0 <= i < |payloads| ==> !isToRemove(payloads[i])
    requires Without(payloads, isToRemove) == Without(payloads0, isToRemove)
    requires Survivors(items, payloads, isToRemove) == Survivors(items0, payloads0, isToRemove)
    ensures payloads == Without(payloads0, isToRemove)
    ensures items == Survivors(items0, payloads0, isToRemove)
    ensures |payloads| < |payloads0| <==> exists i :: 0 <= i < |payloads0| && isToRemove(payloads0[i])
  {
    WithoutShrinks(payloads, isToRemove);
    WithoutShrinks(payloads0, isToRemove);
    SurvivorsAllKept(items, payloads, isToRemove);
  }
}
