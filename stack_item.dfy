/** The traversal stack of the BVH4Hair single-ray intersector: its items,
    the whole-item exchange swap2, the 2-, 3- and 4-item compare-and-swap
    networks that order children by entry distance, and the stack capacity. */
module StackItems {

  /** A deferred node: its reference and the entry and exit distances of the
      ray through its box. */
  datatype StackItem = StackItem(ref: nat, tNear: real, tFar: real)

  // ----- the networks as functions on the items they order -----

  /** One comparator, `if (sj.tNear < si.tNear) swap2(sj, si)`: the items at
      i and j exchange places exactly when the one at j is strictly nearer. */
  function CompareSwap(s: seq<StackItem>, i: nat, j: nat): (r: seq<StackItem>)
    requires i < |s| && j < |s| && i != j
    ensures |r| == |s| && r[i].tNear <= r[j].tNear
    ensures forall k :: 0 <= k < |s| && k != i && k != j ==> r[k] == s[k]
    ensures (r[i] == s[i] && r[j] == s[j]) || (r[i] == s[j] && r[j] == s[i])
    ensures multiset(r) == multiset(s)
    ensures s[i].tNear <= s[j].tNear ==> r == s
  {
    if s[j].tNear < s[i].tNear then s[i := s[j]][j := s[i]] else s
  }

  /** sort(s1, s2) applied to the items at positions i1 and i2. */
  function SortAt2(s: seq<StackItem>, i1: nat, i2: nat): seq<StackItem>
    requires i1 < |s| && i2 < |s| && i1 != i2
  {
    CompareSwap(s, i1, i2)
  }

  /** sort(s1, s2, s3): comparators (1,2), (2,3), (1,2). */
  function SortAt3(s: seq<StackItem>, i1: nat, i2: nat, i3: nat): seq<StackItem>
    requires i1 < |s| && i2 < |s| && i3 < |s|
    requires i1 != i2 && i1 != i3 && i2 != i3
  {
    CompareSwap(CompareSwap(CompareSwap(s, i1, i2), i2, i3), i1, i2)
  }

  /** sort(s1, s2, s3, s4): comparators (1,2), (3,4), (1,3), (2,4), (2,3). */
  function SortAt4(s: seq<StackItem>, i1: nat, i2: nat, i3: nat, i4: nat): seq<StackItem>
    requires i1 < |s| && i2 < |s| && i3 < |s| && i4 < |s|
    requires i1 != i2 && i1 != i3 && i1 != i4 && i2 != i3 && i2 != i4 && i3 != i4
  {
    CompareSwap(CompareSwap(CompareSwap(CompareSwap(CompareSwap(s, i1, i2), i3, i4), i1, i3), i2, i4), i2, i3)
  }

  // ----- what the networks guarantee -----

  /** The 2-item network orders the pair, only permutes, and touches no other item. */
  lemma Sort2Sorts(s: seq<StackItem>, i1: nat, i2: nat)
    requires i1 < |s| && i2 < |s| && i1 != i2
    ensures var r := SortAt2(s, i1, i2);
            && |r| == |s| && r[i1].tNear <= r[i2].tNear
            && multiset(r) == multiset(s)
            && forall k :: 0 <= k < |s| && k != i1 && k != i2 ==> r[k] == s[k]
  {
  }

  /** The 3-item network orders the items, only permutes, and touches no other item. */
  lemma Sort3Sorts(s: seq<StackItem>, i1: nat, i2: nat, i3: nat)
    requires i1 < |s| && i2 < |s| && i3 < |s|
    requires i1 != i2 && i1 != i3 && i2 != i3
    ensures var r := SortAt3(s, i1, i2, i3);
            && |r| == |s| && r[i1].tNear <= r[i2].tNear <= r[i3].tNear
            && multiset(r) == multiset(s)
            && forall k :: 0 <= k < |s| && k != i1 && k != i2 && k != i3 ==> r[k] == s[k]
  {
    hide CompareSwap;
    var a := CompareSwap(s, i1, i2);
    var b := CompareSwap(a, i2, i3);
    var c := CompareSwap(b, i1, i2);
    // after (1,2) and (2,3) the farthest item is third; (1,2) then orders the rest
    assert b[i1].tNear <= b[i3].tNear;
    assert c[i3] == b[i3];
  }

  /** The 4-item network orders the items for every input, only permutes,
      and touches no other item. */
  lemma Sort4Sorts(s: seq<StackItem>, i1: nat, i2: nat, i3: nat, i4: nat)
    requires i1 < |s| && i2 < |s| && i3 < |s| && i4 < |s|
    requires i1 != i2 && i1 != i3 && i1 != i4 && i2 != i3 && i2 != i4 && i3 != i4
    ensures var r := SortAt4(s, i1, i2, i3, i4);
            && |r| == |s| && r[i1].tNear <= r[i2].tNear <= r[i3].tNear <= r[i4].tNear
            && multiset(r) == multiset(s)
            && forall k :: 0 <= k < |s| && k != i1 && k != i2 && k != i3 && k != i4 ==> r[k] == s[k]
  {
    hide CompareSwap;
    var a := CompareSwap(s, i1, i2);
    var b := CompareSwap(a, i3, i4);
    var c := CompareSwap(b, i1, i3);
    var d := CompareSwap(c, i2, i4);
    var e := CompareSwap(d, i2, i3);
    // (1,3) leaves the nearest item first, (2,4) the farthest item last
    assert b[i1].tNear <= b[i2].tNear && b[i3].tNear <= b[i4].tNear;
    assert c[i1].tNear <= c[i2].tNear && c[i1].tNear <= c[i4].tNear;
    assert c[i3].tNear <= c[i2].tNear || c[i3].tNear <= c[i4].tNear;
    assert d[i1].tNear <= d[i2].tNear && d[i1].tNear <= d[i3].tNear;
    assert d[i2].tNear <= d[i4].tNear && d[i3].tNear <= d[i4].tNear;
    assert e[i1] == d[i1] && e[i4] == d[i4];
  }

  /** Swaps fire only on a strict decrease, so an already ordered pair is left as it is. */
  lemma Sort2KeepsOrdered(s: seq<StackItem>, i1: nat, i2: nat)
    requires i1 < |s| && i2 < |s| && i1 != i2
    requires s[i1].tNear <= s[i2].tNear
    ensures SortAt2(s, i1, i2) == s
  {
  }

  /** An already ordered triple (ties included) is left as it is. */
  lemma Sort3KeepsOrdered(s: seq<StackItem>, i1: nat, i2: nat, i3: nat)
    requires i1 < |s| && i2 < |s| && i3 < |s|
    requires i1 != i2 && i1 != i3 && i2 != i3
    requires s[i1].tNear <= s[i2].tNear <= s[i3].tNear
    ensures SortAt3(s, i1, i2, i3) == s
  {
    hide CompareSwap;
  }

  /** An already ordered quadruple (ties included) is left as it is. */
  lemma Sort4KeepsOrdered(s: seq<StackItem>, i1: nat, i2: nat, i3: nat, i4: nat)
    requires i1 < |s| && i2 < |s| && i3 < |s| && i4 < |s|
    requires i1 != i2 && i1 != i3 && i1 != i4 && i2 != i3 && i2 != i4 && i3 != i4
    requires s[i1].tNear <= s[i2].tNear <= s[i3].tNear <= s[i4].tNear
    ensures SortAt4(s, i1, i2, i3, i4) == s
  {
    hide CompareSwap;
    assert s[i1].tNear <= s[i3].tNear && s[i2].tNear <= s[i4].tNear;
  }

  /** Each network is idempotent: sorting the sorted items again changes nothing. */
  lemma Sort2Idempotent(s: seq<StackItem>, i1: nat, i2: nat)
    requires i1 < |s| && i2 < |s| && i1 != i2
    ensures SortAt2(SortAt2(s, i1, i2), i1, i2) == SortAt2(s, i1, i2)
  {
    Sort2Sorts(s, i1, i2);
    Sort2KeepsOrdered(SortAt2(s, i1, i2), i1, i2);
  }

  lemma Sort3Idempotent(s: seq<StackItem>, i1: nat, i2: nat, i3: nat)
    requires i1 < |s| && i2 < |s| && i3 < |s|
    requires i1 != i2 && i1 != i3 && i2 != i3
    ensures SortAt3(SortAt3(s, i1, i2, i3), i1, i2, i3) == SortAt3(s, i1, i2, i3)
  {
    hide SortAt3;
    Sort3Sorts(s, i1, i2, i3);
    Sort3KeepsOrdered(SortAt3(s, i1, i2, i3), i1, i2, i3);
  }

  lemma Sort4Idempotent(s: seq<StackItem>, i1: nat, i2: nat, i3: nat, i4: nat)
    requires i1 < |s| && i2 < |s| && i3 < |s| && i4 < |s|
    requires i1 != i2 && i1 != i3 && i1 != i4 && i2 != i3 && i2 != i4 && i3 != i4
    ensures SortAt4(SortAt4(s, i1, i2, i3, i4), i1, i2, i3, i4) == SortAt4(s, i1, i2, i3, i4)
  {
    hide SortAt4;
    Sort4Sorts(s, i1, i2, i3, i4);
    Sort4KeepsOrdered(SortAt4(s, i1, i2, i3, i4), i1, i2, i3, i4);
  }

  // ----- the networks in place, on items of the traversal stack -----

  /** swap2: the items at i and j exchange places whole (ref, tNear and tFar
      together); no other item is touched. */
  method Swap2(a: array<StackItem>, i: nat, j: nat)
    requires i < a.Length && j < a.Length
    modifies a
    ensures a[..] == old(a[..])[i := old(a[j])][j := old(a[i])]
  {
    var t := a[j];
    a[j] := a[i];
    a[i] := t;
  }

  /** One comparator in place. */
  method CompareExchange(a: array<StackItem>, i: nat, j: nat)
    requires i < a.Length && j < a.Length && i != j
    modifies a
    ensures a[..] == CompareSwap(old(a[..]), i, j)
  {
    if a[j].tNear < a[i].tNear {
      Swap2(a, j, i);
    }
  }

  /** sort(s1, s2) on the items at i1 and i2. */
  method Sort2(a: array<StackItem>, i1: nat, i2: nat)
    requires i1 < a.Length && i2 < a.Length && i1 != i2
    modifies a
    ensures a[..] == SortAt2(old(a[..]), i1, i2)
  {
    CompareExchange(a, i1, i2);
  }

  /** sort(s1, s2, s3) on the items at i1, i2 and i3. */
  method Sort3(a: array<StackItem>, i1: nat, i2: nat, i3: nat)
    requires i1 < a.Length && i2 < a.Length && i3 < a.Length
    requires i1 != i2 && i1 != i3 && i2 != i3
    modifies a
    ensures a[..] == SortAt3(old(a[..]), i1, i2, i3)
  {
    CompareExchange(a, i1, i2);
    CompareExchange(a, i2, i3);
    CompareExchange(a, i1, i2);
  }

  /** sort(s1, s2, s3, s4) on the items at i1, i2, i3 and i4. */
  method Sort4(a: array<StackItem>, i1: nat, i2: nat, i3: nat, i4: nat)
    requires i1 < a.Length && i2 < a.Length && i3 < a.Length && i4 < a.Length
    requires i1 != i2 && i1 != i3 && i1 != i4 && i2 != i3 && i2 != i4 && i3 != i4
    modifies a
    ensures a[..] == SortAt4(old(a[..]), i1, i2, i3, i4)
  {
    CompareExchange(a, i1, i2);
    CompareExchange(a, i3, i4);
    CompareExchange(a, i1, i3);
    CompareExchange(a, i2, i4);
    CompareExchange(a, i2, i3);
  }

  // ----- capacity -----

  /** stackSize = 1 + 3 * maxDepth. */
  function StackSize(maxDepth: nat): (n: nat)
    ensures n == 1 + 3 * maxDepth
  {
    1 + 3 * maxDepth
  }

  /** The number of items pushed over a sequence of levels. */
  function Pushed(pushes: seq<nat>): nat
  {
    if |pushes| == 0 then 0 else Pushed(pushes[..|pushes| - 1]) + pushes[|pushes| - 1]
  }

  /** At most k pushes at each of the levels: at most k per level in total. */
  lemma {:induction false} PushedBound(pushes: seq<nat>, k: nat)
    requires forall i :: 0 <= i < |pushes| ==> pushes[i] <= k
    ensures Pushed(pushes) <= k * |pushes|
  {
    if |pushes| > 0 {
      PushedBound(pushes[..|pushes| - 1], k);
    }
  }

  /** Starting from the root entry and deferring at most 3 siblings at each
      of at most maxDepth levels never takes more than stackSize entries. */
  lemma StackFits(pushes: seq<nat>, maxDepth: nat)
    requires |pushes| <= maxDepth
    requires forall i :: 0 <= i < |pushes| ==> pushes[i] <= 3
    ensures 1 + Pushed(pushes) <= StackSize(maxDepth)
  {
    PushedBound(pushes, 3);
  }
}
