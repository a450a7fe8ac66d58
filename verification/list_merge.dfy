/** The bookkeeping behind the Listworker's main list, as values.

    Every element a Listworker tracks carries, at the pool's index, a slot
    index (its position in `main_list`, or SENTINEL) and an "added" flag.
    Elements are identified here by ids; the slot indices of all elements are
    a map in which a missing id stands for an element whose field still holds
    its initial value, SENTINEL.

    `addel` merges the queued additions and removals into `main_list`. This
    module states, as functions over values, what the code does step by step
    (MergeAsWritten) and what the merge is meant to do (Merge), and proves
    which of them keeps the slot invariant. */
module ListMerge {

  type ElemId = nat

  /** The value of an unset slot index: the all-ones 64-bit word. */
  const SENTINEL: nat := 0xFFFF_FFFF_FFFF_FFFF

  /** The slot index an element carries. */
  function SlotOf(slots: map<ElemId, nat>, e: ElemId): nat {
    if e in slots then slots[e] else SENTINEL
  }

  /** The main list together with the slot indices of all elements. */
  datatype Work = Work(main: seq<ElemId>, slots: map<ElemId, nat>)

  predicate Distinct(s: seq<ElemId>) {
    forall i, j :: 0 <= i < j < |s| ==> s[i] != s[j]
  }

  function Elems(s: seq<ElemId>): set<ElemId> {
    set x | x in s
  }

  /** The element's slot index points at a position of the main list that holds it. */
  predicate Listed(w: Work, e: ElemId) {
    SlotOf(w.slots, e) < |w.main| && w.main[SlotOf(w.slots, e)] == e
  }

  /** The slot invariant: every position's element carries that position as its
      slot index, and every element whose slot index is set is at that position.
      Positions stay below SENTINEL, so "set" and "listed" coincide. */
  ghost predicate Consistent(w: Work) {
    && |w.main| <= SENTINEL
    && (forall p :: 0 <= p < |w.main| ==> SlotOf(w.slots, w.main[p]) == p)
    && (forall e :: SlotOf(w.slots, e) != SENTINEL ==> Listed(w, e))
  }

  /** What `addel` takes for granted of the two pending lists: additions are
      distinct and unslotted, removals are distinct and each sits at its own
      slot, and no element is queued both ways. */
  predicate MergeReady(w: Work, add: seq<ElemId>, del: seq<ElemId>) {
    && Pairable(w, add, del)
    && (forall i :: 0 <= i < |add| ==> SlotOf(w.slots, add[i]) == SENTINEL)
  }

  /** The part of MergeReady the replace rounds depend on. */
  predicate Pairable(w: Work, add: seq<ElemId>, del: seq<ElemId>) {
    && Distinct(add)
    && Distinct(del)
    && (forall i, j :: 0 <= i < |add| && 0 <= j < |del| ==> add[i] != del[j])
    && (forall j :: 0 <= j < |del| ==> Listed(w, del[j]))
  }

  function Min(a: nat, b: nat): nat {
    if a < b then a else b
  }

  /** One round of the replace loop: `a` takes over the slot of `d`. When the
      slot read for `d` is not a position of the list, the code writes outside
      `main_list`. That happens when `d` was never listed, or when it is queued
      for removal twice: `del`, `add`, `del`, `add` of a listed element queues
      it twice both ways, the first round unsets its slot index, and the second
      round writes at the all-ones index. The model leaves the list unchanged in
      that case, which MergeReady rules out. */
  function ReplaceStep(w: Work, a: ElemId, d: ElemId): Work {
    var tmp := SlotOf(w.slots, d);
    Work(if tmp < |w.main| then w.main[tmp := a] else w.main,
         w.slots[a := tmp][d := SENTINEL])
  }

  /** The first k rounds of the replace loop. */
  function ReplaceFirst(w: Work, add: seq<ElemId>, del: seq<ElemId>, k: nat): Work
    requires k <= |add| && k <= |del|
  {
    if k == 0 then w
    else ReplaceStep(ReplaceFirst(w, add, del, k - 1), add[k - 1], del[k - 1])
  }

  /** The slots after writing position i into m[i] for i in [lo, hi), in order. */
  function AssignSlots(slots: map<ElemId, nat>, m: seq<ElemId>, lo: nat, hi: nat): map<ElemId, nat>
    requires lo <= hi <= |m|
    decreases hi
  {
    if hi == lo then slots else AssignSlots(slots, m, lo, hi - 1)[m[hi - 1] := hi - 1]
  }

  /** The slots after resetting del[j] to SENTINEL for j in [lo, hi), in order. */
  function ClearSlots(slots: map<ElemId, nat>, del: seq<ElemId>, lo: nat, hi: nat): map<ElemId, nat>
    requires lo <= hi <= |del|
    decreases hi
  {
    if hi == lo then slots else ClearSlots(slots, del, lo, hi - 1)[del[hi - 1] := SENTINEL]
  }

  /** Cut the surplus removals del[lo..] off the tail of the list and unset
      their slots; a list shorter than the surplus is emptied. */
  function Truncate(w: Work, del: seq<ElemId>, lo: nat): (r: Work)
    requires lo <= |del|
    ensures r.main <= w.main
  {
    var cut := |del| - lo;
    Work(w.main[..if cut <= |w.main| then |w.main| - cut else 0],
         ClearSlots(w.slots, del, lo, |del|))
  }

  /** Remove d by moving the last element of the list into its slot. */
  function SwapRemove(w: Work, d: ElemId): Work {
    var p := SlotOf(w.slots, d);
    if p < |w.main| then
      var last := w.main[|w.main| - 1];
      Work(w.main[p := last][..|w.main| - 1], w.slots[last := p][d := SENTINEL])
    else w
  }

  /** SwapRemove applied to del[j] for j in [lo, hi), in order. */
  function SwapRemoveAll(w: Work, del: seq<ElemId>, lo: nat, hi: nat): Work
    requires lo <= hi <= |del|
    decreases hi
  {
    if hi == lo then w else SwapRemove(SwapRemoveAll(w, del, lo, hi - 1), del[hi - 1])
  }

  /** t is the last part of s. */
  predicate EndsWith(s: seq<ElemId>, t: seq<ElemId>) {
    |t| <= |s| && s[|s| - |t|..] == t
  }

  /** `addel` as the code is written: after the replace rounds, the grow branch
      appends the WHOLE add list and numbers the appended positions, and the
      shrink branch cuts the surplus off the end of the list and unsets the
      surplus removals' slots. The guarded cut never fires under MergeReady
      (DelFitsInList). */
  function MergeAsWritten(w: Work, add: seq<ElemId>, del: seq<ElemId>): (r: Work)
    ensures |add| > |del| ==> EndsWith(r.main, add)
    ensures |add| < |del| ==> r.main <= ReplaceFirst(w, add, del, |add|).main
  {
    var r := Min(|add|, |del|);
    var w1 := ReplaceFirst(w, add, del, r);
    if |add| == |del| then w1
    else if |add| > |del| then
      var m := w1.main + add;
      Work(m, AssignSlots(w1.slots, m, |w1.main|, |m|))
    else Truncate(w1, del, r)
  }

  /** The merge as it is meant to be: the grow branch appends only the
      additions the replace rounds left over, and the shrink branch removes
      each surplus removal by swap-remove. */
  function Merge(w: Work, add: seq<ElemId>, del: seq<ElemId>): (r: Work)
    ensures |add| > |del| ==> EndsWith(r.main, add[|del|..])
  {
    var r := Min(|add|, |del|);
    var w1 := ReplaceFirst(w, add, del, r);
    if |add| == |del| then w1
    else if |add| > |del| then
      var m := w1.main + add[r..];
      Work(m, AssignSlots(w1.slots, m, |w1.main|, |m|))
    else SwapRemoveAll(w1, del, r, |del|)
  }

  // ---------------------------------------------------------------------------
  // Counting

  lemma {:induction false} DistinctCard(s: seq<ElemId>)
    requires Distinct(s)
    ensures |Elems(s)| == |s|
  {
    if |s| > 0 {
      assert Distinct(s[1..]);
      DistinctCard(s[1..]);
      assert Elems(s) == {s[0]} + Elems(s[1..]);
      assert s[0] !in Elems(s[1..]);
    }
  }

  lemma {:induction false} CardAtMostLength(s: seq<ElemId>)
    ensures |Elems(s)| <= |s|
  {
    if |s| > 0 {
      CardAtMostLength(s[1..]);
      assert Elems(s) == {s[0]} + Elems(s[1..]);
    }
  }

  lemma SubsetCard(a: set<ElemId>, b: set<ElemId>)
    requires a <= b
    ensures |a| <= |b|
    ensures |a| == |b| ==> a == b
  {
    assert b == a + (b - a);
  }

  /** Removals that each sit at their own slot never outnumber the list. */
  lemma DelFitsInList(w: Work, del: seq<ElemId>)
    requires Distinct(del)
    requires forall j :: 0 <= j < |del| ==> Listed(w, del[j])
    ensures |del| <= |w.main|
  {
    DistinctCard(del);
    CardAtMostLength(w.main);
    forall x | x in Elems(del) ensures x in Elems(w.main) {
      var j :| 0 <= j < |del| && del[j] == x;
      assert Listed(w, del[j]);
    }
    SubsetCard(Elems(del), Elems(w.main));
  }

  // ---------------------------------------------------------------------------
  // The replace rounds

  /** The replace rounds never change the list's length. */
  lemma {:induction false} ReplaceFirstLength(w: Work, add: seq<ElemId>, del: seq<ElemId>, k: nat)
    requires k <= |add| && k <= |del|
    ensures |ReplaceFirst(w, add, del, k).main| == |w.main|
  {
    if k > 0 {
      ReplaceFirstLength(w, add, del, k - 1);
    }
  }

  /** The replace rounds leave the slot of every element outside the first k
      pairs alone. */
  lemma {:induction false} ReplaceFirstSlotFrame(w: Work, add: seq<ElemId>, del: seq<ElemId>, k: nat, e: ElemId)
    requires k <= |add| && k <= |del|
    requires e !in add[..k] && e !in del[..k]
    ensures SlotOf(ReplaceFirst(w, add, del, k).slots, e) == SlotOf(w.slots, e)
  {
    if k > 0 {
      assert add[..k] == add[..k - 1] + [add[k - 1]];
      assert del[..k] == del[..k - 1] + [del[k - 1]];
      ReplaceFirstSlotFrame(w, add, del, k - 1, e);
    }
  }

  /** The replace rounds leave every position not vacated by the first k
      removals alone. */
  lemma {:induction false} ReplaceFirstMainFrame(w: Work, add: seq<ElemId>, del: seq<ElemId>, k: nat, p: nat)
    requires Pairable(w, add, del)
    requires k <= |add| && k <= |del|
    requires p < |w.main| && w.main[p] !in del[..k]
    ensures var r := ReplaceFirst(w, add, del, k); p < |r.main| && r.main[p] == w.main[p]
  {
    ReplaceFirstLength(w, add, del, k);
    if k > 0 {
      var d := del[k - 1];
      assert del[..k] == del[..k - 1] + [d];
      ReplaceFirstMainFrame(w, add, del, k - 1, p);
      ReplaceFirstLength(w, add, del, k - 1);
      assert d !in add[..k - 1] && d !in del[..k - 1];
      ReplaceFirstSlotFrame(w, add, del, k - 1, d);
      assert Listed(w, d);
    }
  }

  /** After k replace rounds, for a pair i < k: add[i] carries del[i]'s old
      slot, the list holds add[i] there, and del[i]'s slot is unset. */
  lemma {:induction false} ReplaceFirstPair(w: Work, add: seq<ElemId>, del: seq<ElemId>, k: nat, i: nat)
    requires Pairable(w, add, del)
    requires i < k <= |add| && k <= |del|
    ensures PairDone(w, add, del, k, i)
  {
    if i == k - 1 {
      ReplaceFirstPairNew(w, add, del, k);
    } else {
      ReplaceFirstPair(w, add, del, k - 1, i);
      ReplaceFirstPairKept(w, add, del, k, i);
    }
  }

  /** Pair i is done after k rounds: add[i] carries del[i]'s old slot, the
      list holds add[i] there, and del[i]'s slot is unset. */
  predicate PairDone(w: Work, add: seq<ElemId>, del: seq<ElemId>, k: nat, i: nat)
    requires i < k <= |add| && k <= |del|
  {
    var r := ReplaceFirst(w, add, del, k);
    && SlotOf(w.slots, del[i]) < |r.main|
    && SlotOf(r.slots, add[i]) == SlotOf(w.slots, del[i])
    && SlotOf(r.slots, del[i]) == SENTINEL
    && r.main[SlotOf(w.slots, del[i])] == add[i]
  }

  /** Round k does pair k - 1. */
  lemma ReplaceFirstPairNew(w: Work, add: seq<ElemId>, del: seq<ElemId>, k: nat)
    requires Pairable(w, add, del)
    requires 0 < k <= |add| && k <= |del|
    ensures PairDone(w, add, del, k, k - 1)
  {
    ReplaceFirstLength(w, add, del, k - 1);
    var d := del[k - 1];
    assert d !in add[..k - 1] && d !in del[..k - 1];
    ReplaceFirstSlotFrame(w, add, del, k - 1, d);
    assert Listed(w, d);
  }

  /** Round k leaves an earlier pair done. */
  lemma ReplaceFirstPairKept(w: Work, add: seq<ElemId>, del: seq<ElemId>, k: nat, i: nat)
    requires Pairable(w, add, del)
    requires i < k - 1 && k <= |add| && k <= |del|
    requires PairDone(w, add, del, k - 1, i)
    ensures PairDone(w, add, del, k, i)
  {
    ReplaceFirstLength(w, add, del, k - 1);
    var a, d := add[k - 1], del[k - 1];
    assert d !in add[..k - 1] && d !in del[..k - 1];
    ReplaceFirstSlotFrame(w, add, del, k - 1, d);
    assert Listed(w, d) && Listed(w, del[i]);
    assert add[i] != a && add[i] != d && del[i] != a && del[i] != d;
  }

  /** After k replace rounds: for each i < k, add[i] carries del[i]'s old slot,
      the list holds add[i] there, and del[i]'s slot is unset; every other
      element and every other position is unchanged. */
  lemma ReplaceFirstEffect(w: Work, add: seq<ElemId>, del: seq<ElemId>, k: nat)
    requires Pairable(w, add, del)
    requires k <= |add| && k <= |del|
    ensures var r := ReplaceFirst(w, add, del, k);
      && |r.main| == |w.main|
      && (forall i :: 0 <= i < k ==> PairDone(w, add, del, k, i))
      && (forall e :: e !in add[..k] && e !in del[..k] ==> SlotOf(r.slots, e) == SlotOf(w.slots, e))
      && (forall p :: 0 <= p < |w.main| && w.main[p] !in del[..k] ==> r.main[p] == w.main[p])
  {
    ReplaceFirstLength(w, add, del, k);
    forall i | 0 <= i < k {
      ReplaceFirstPair(w, add, del, k, i);
    }
    forall e | e !in add[..k] && e !in del[..k] {
      ReplaceFirstSlotFrame(w, add, del, k, e);
    }
    forall p | 0 <= p < |w.main| && w.main[p] !in del[..k] {
      ReplaceFirstMainFrame(w, add, del, k, p);
    }
  }

  /** One replace round keeps the slot invariant. */
  lemma ReplaceStepConsistent(w: Work, a: ElemId, d: ElemId)
    requires Consistent(w)
    requires Listed(w, d) && SlotOf(w.slots, a) == SENTINEL
    ensures Consistent(ReplaceStep(w, a, d))
  {
    var tmp := SlotOf(w.slots, d);
    var r := ReplaceStep(w, a, d);
    assert a != d;
    forall p | 0 <= p < |r.main|
      ensures SlotOf(r.slots, r.main[p]) == p
    {
      if p != tmp {
        assert SlotOf(w.slots, w.main[p]) == p;
      }
    }
    forall e | SlotOf(r.slots, e) != SENTINEL
      ensures Listed(r, e)
    {
      if e != a {
        assert SlotOf(w.slots, e) != SENTINEL;
        assert Listed(w, e);
      }
    }
  }

  /** Before round k, the removal of that round is still listed at its slot
      and the addition of that round is still unslotted. */
  lemma ReplaceFirstNextReady(w: Work, add: seq<ElemId>, del: seq<ElemId>, k: nat)
    requires MergeReady(w, add, del)
    requires k < |add| && k < |del|
    ensures var prev := ReplaceFirst(w, add, del, k);
      Listed(prev, del[k]) && SlotOf(prev.slots, add[k]) == SENTINEL
  {
    var a, d := add[k], del[k];
    assert a !in add[..k] && a !in del[..k];
    assert d !in add[..k] && d !in del[..k];
    ReplaceFirstSlotFrame(w, add, del, k, a);
    ReplaceFirstSlotFrame(w, add, del, k, d);
    assert Listed(w, d);
    ReplaceFirstMainFrame(w, add, del, k, SlotOf(w.slots, d));
  }

  /** The replace rounds keep the slot invariant. */
  lemma {:induction false} ReplaceFirstConsistent(w: Work, add: seq<ElemId>, del: seq<ElemId>, k: nat)
    requires Consistent(w) && MergeReady(w, add, del)
    requires k <= |add| && k <= |del|
    ensures Consistent(ReplaceFirst(w, add, del, k))
  {
    if k > 0 {
      ReplaceFirstConsistent(w, add, del, k - 1);
      ReplaceFirstNextReady(w, add, del, k - 1);
      ReplaceStepConsistent(ReplaceFirst(w, add, del, k - 1), add[k - 1], del[k - 1]);
    }
  }

  /** Under the slot invariant, being listed is having a set slot index. */
  lemma ListedIffSlotted(w: Work, e: ElemId)
    requires Consistent(w)
    ensures Listed(w, e) <==> SlotOf(w.slots, e) != SENTINEL
  {
  }

  /** After the replace rounds, the listed elements are the first k additions
      and the previously listed elements other than the first k removals. */
  lemma ReplaceFirstMembers(w: Work, add: seq<ElemId>, del: seq<ElemId>, k: nat)
    requires Consistent(w) && MergeReady(w, add, del)
    requires k <= |add| && k <= |del|
    ensures var r := ReplaceFirst(w, add, del, k);
      && Consistent(r)
      && forall e :: Listed(r, e) <==> e in add[..k] || (Listed(w, e) && e !in del[..k])
  {
    ReplaceFirstConsistent(w, add, del, k);
    forall e {
      ReplaceFirstMember(w, add, del, k, e);
    }
  }

  /** ReplaceFirstMembers for one element. */
  lemma ReplaceFirstMember(w: Work, add: seq<ElemId>, del: seq<ElemId>, k: nat, e: ElemId)
    requires Consistent(w) && MergeReady(w, add, del)
    requires k <= |add| && k <= |del|
    ensures var r := ReplaceFirst(w, add, del, k);
      Listed(r, e) <==> e in add[..k] || (Listed(w, e) && e !in del[..k])
  {
    var r := ReplaceFirst(w, add, del, k);
    ReplaceFirstConsistent(w, add, del, k);
    ListedIffSlotted(r, e);
    ListedIffSlotted(w, e);
    if e in add[..k] {
      var i :| 0 <= i < k && add[i] == e;
      ReplaceFirstPair(w, add, del, k, i);
      assert Listed(w, del[i]);
    } else if e in del[..k] {
      var i :| 0 <= i < k && del[i] == e;
      ReplaceFirstPair(w, add, del, k, i);
    } else {
      ReplaceFirstSlotFrame(w, add, del, k, e);
    }
  }

  // ---------------------------------------------------------------------------
  // The grow branch

  /** Numbering the positions [lo, hi) of m gives each of those elements its
      position and leaves every other element alone. */
  lemma {:induction false} AssignSlotsEffect(slots: map<ElemId, nat>, m: seq<ElemId>, lo: nat, hi: nat)
    requires lo <= hi <= |m|
    requires forall i, j :: lo <= i < j < hi ==> m[i] != m[j]
    ensures var r := AssignSlots(slots, m, lo, hi);
      && (forall i :: lo <= i < hi ==> SlotOf(r, m[i]) == i)
      && (forall e :: e !in m[lo..hi] ==> SlotOf(r, e) == SlotOf(slots, e))
  {
    if hi > lo {
      assert m[lo..hi] == m[lo..hi - 1] + [m[hi - 1]];
      AssignSlotsEffect(slots, m, lo, hi - 1);
    }
  }

  /** Appending unslotted, distinct elements and numbering them keeps the slot
      invariant, and lists exactly the old elements and the new ones. */
  lemma AppendConsistent(w: Work, extra: seq<ElemId>)
    requires Consistent(w)
    requires Distinct(extra)
    requires forall i :: 0 <= i < |extra| ==> SlotOf(w.slots, extra[i]) == SENTINEL
    requires |w.main| + |extra| <= SENTINEL
    ensures var m := w.main + extra;
      var r := Work(m, AssignSlots(w.slots, m, |w.main|, |m|));
      && Consistent(r)
      && |r.main| == |w.main| + |extra|
      && forall e :: Listed(r, e) <==> Listed(w, e) || e in extra
  {
    var n := |w.main|;
    var m := w.main + extra;
    var r := Work(m, AssignSlots(w.slots, m, n, |m|));
    assert m[n..|m|] == extra;
    AssignSlotsEffect(w.slots, m, n, |m|);
    forall p | 0 <= p < n
      ensures w.main[p] !in extra
    {
      assert SlotOf(w.slots, w.main[p]) == p;
    }
    forall p | 0 <= p < |m|
      ensures SlotOf(r.slots, m[p]) == p
    {
      if p < n {
        assert m[p] == w.main[p];
      }
    }
    forall e | SlotOf(r.slots, e) != SENTINEL
      ensures Listed(r, e)
    {
      if e !in extra {
        assert Listed(w, e);
      } else {
        var i :| 0 <= i < |extra| && extra[i] == e;
        assert m[n + i] == e;
      }
    }
    AppendListed(w, extra);
  }

  /** Once the appended list is consistent, it lists the old elements and the
      new ones. */
  lemma AppendListed(w: Work, extra: seq<ElemId>)
    requires Consistent(w)
    requires forall i :: 0 <= i < |extra| ==> SlotOf(w.slots, extra[i]) == SENTINEL
    requires var m := w.main + extra;
      Consistent(Work(m, AssignSlots(w.slots, m, |w.main|, |m|)))
    ensures var m := w.main + extra;
      forall e :: Listed(Work(m, AssignSlots(w.slots, m, |w.main|, |m|)), e) <==> Listed(w, e) || e in extra
  {
    var n := |w.main|;
    var m := w.main + extra;
    var r := Work(m, AssignSlots(w.slots, m, n, |m|));
    assert m[n..|m|] == extra;
    AssignSlotsEffect(w.slots, m, n, |m|);
    forall e
      ensures Listed(r, e) <==> Listed(w, e) || e in extra
    {
      ListedIffSlotted(r, e);
      ListedIffSlotted(w, e);
      if e in extra {
        var i :| 0 <= i < |extra| && extra[i] == e;
        assert m[n + i] == e;
      }
    }
  }

  // ---------------------------------------------------------------------------
  // The shrink branch, as meant: swap-remove

  /** One swap-remove keeps the slot invariant and shortens the list by one. */
  lemma SwapRemoveConsistent(w: Work, d: ElemId)
    requires Consistent(w) && Listed(w, d)
    ensures var r := SwapRemove(w, d);
      && Consistent(r)
      && |r.main| == |w.main| - 1
  {
    var n := |w.main|;
    var p := SlotOf(w.slots, d);
    var last := w.main[n - 1];
    var r := SwapRemove(w, d);
    assert SlotOf(w.slots, last) == n - 1;
    assert last == d ==> p == n - 1;
    forall q | 0 <= q < |r.main|
      ensures SlotOf(r.slots, r.main[q]) == q
    {
      if q != p {
        assert SlotOf(w.slots, w.main[q]) == q;
        assert r.main[q] == w.main[q];
      }
    }
    forall e | SlotOf(r.slots, e) != SENTINEL
      ensures Listed(r, e)
    {
      if e != last {
        assert SlotOf(w.slots, e) != SENTINEL;
        assert Listed(w, e);
      }
    }
  }

  /** One swap-remove unlists exactly d. */
  lemma SwapRemoveMember(w: Work, d: ElemId, e: ElemId)
    requires Consistent(w) && Listed(w, d)
    ensures Listed(SwapRemove(w, d), e) <==> Listed(w, e) && e != d
  {
    SwapRemoveConsistent(w, d);
    ListedIffSlotted(SwapRemove(w, d), e);
    ListedIffSlotted(w, e);
  }

  /** Swap-removing del[lo..hi] keeps the slot invariant and shortens the
      list by hi - lo. */
  lemma {:induction false} SwapRemoveAllConsistent(w: Work, del: seq<ElemId>, lo: nat, hi: nat)
    requires Consistent(w)
    requires lo <= hi <= |del| && Distinct(del)
    requires forall j :: lo <= j < |del| ==> Listed(w, del[j])
    ensures var r := SwapRemoveAll(w, del, lo, hi);
      && Consistent(r)
      && |r.main| == |w.main| - (hi - lo)
    decreases hi, 3
  {
    if hi > lo {
      SwapRemoveAllConsistent(w, del, lo, hi - 1);
      SwapRemoveAllNext(w, del, lo, hi - 1);
      SwapRemoveConsistent(SwapRemoveAll(w, del, lo, hi - 1), del[hi - 1]);
    }
  }

  /** Swap-removing del[lo..hi] unlists exactly those elements. */
  lemma {:induction false} SwapRemoveAllMember(w: Work, del: seq<ElemId>, lo: nat, hi: nat, e: ElemId)
    requires Consistent(w)
    requires lo <= hi <= |del| && Distinct(del)
    requires forall j :: lo <= j < |del| ==> Listed(w, del[j])
    ensures Listed(SwapRemoveAll(w, del, lo, hi), e) <==> Listed(w, e) && e !in del[lo..hi]
    decreases hi, 1
  {
    if hi > lo {
      SwapRemoveAllLast(w, del, lo, hi, e);
      SwapRemoveAllMember(w, del, lo, hi - 1, e);
      SliceStep(del, lo, hi, e);
    }
  }

  /** The last of the swap-remove rounds unlists exactly its own element. */
  lemma SwapRemoveAllLast(w: Work, del: seq<ElemId>, lo: nat, hi: nat, e: ElemId)
    requires Consistent(w)
    requires lo < hi <= |del| && Distinct(del)
    requires forall j :: lo <= j < |del| ==> Listed(w, del[j])
    ensures Listed(SwapRemoveAll(w, del, lo, hi), e)
       <==> Listed(SwapRemoveAll(w, del, lo, hi - 1), e) && e != del[hi - 1]
    decreases hi, 0
  {
    SwapRemoveAllConsistent(w, del, lo, hi - 1);
    SwapRemoveAllNext(w, del, lo, hi - 1);
    SwapRemoveMember(SwapRemoveAll(w, del, lo, hi - 1), del[hi - 1], e);
  }

  lemma SliceStep(s: seq<ElemId>, lo: nat, hi: nat, e: ElemId)
    requires lo < hi <= |s|
    ensures e in s[lo..hi] <==> e in s[lo..hi - 1] || e == s[hi - 1]
  {
    assert s[lo..hi] == s[lo..hi - 1] + [s[hi - 1]];
  }

  /** Before swap-removing del[i], it is still listed: the earlier rounds
      removed only other elements. */
  lemma {:induction false} SwapRemoveAllNext(w: Work, del: seq<ElemId>, lo: nat, i: nat)
    requires Consistent(w)
    requires lo <= i < |del| && Distinct(del)
    requires forall j :: lo <= j < |del| ==> Listed(w, del[j])
    ensures Listed(SwapRemoveAll(w, del, lo, i), del[i])
    decreases i, 2
  {
    SwapRemoveAllMember(w, del, lo, i, del[i]);
    assert del[i] !in del[lo..i];
  }

  // ---------------------------------------------------------------------------
  // The merge as meant

  /** The intended merge keeps the slot invariant, leaves the list
      |add| - |del| longer, and afterwards lists exactly the additions and the
      previously listed elements that were not removed. */
  lemma MergeKeepsSlotInvariant(w: Work, add: seq<ElemId>, del: seq<ElemId>)
    requires Consistent(w) && MergeReady(w, add, del)
    requires |w.main| + |add| <= SENTINEL
    ensures var r := Merge(w, add, del);
      && Consistent(r)
      && |r.main| == |w.main| + |add| - |del|
      && forall e :: Listed(r, e) <==> e in add || (Listed(w, e) && e !in del)
  {
    if |add| == |del| {
      MergeBalanced(w, add, del);
    } else if |add| > |del| {
      MergeGrows(w, add, del);
    } else {
      MergeShrinks(w, add, del);
    }
  }

  lemma MergeBalanced(w: Work, add: seq<ElemId>, del: seq<ElemId>)
    requires Consistent(w) && MergeReady(w, add, del)
    requires |add| == |del|
    ensures var r := Merge(w, add, del);
      && Consistent(r)
      && |r.main| == |w.main|
      && forall e :: Listed(r, e) <==> e in add || (Listed(w, e) && e !in del)
  {
    var k := |add|;
    ReplaceFirstMembers(w, add, del, k);
    ReplaceFirstLength(w, add, del, k);
    assert add[..k] == add && del[..k] == del;
  }

  lemma MergeGrows(w: Work, add: seq<ElemId>, del: seq<ElemId>)
    requires Consistent(w) && MergeReady(w, add, del)
    requires |add| > |del| && |w.main| + |add| <= SENTINEL
    ensures var r := Merge(w, add, del);
      && Consistent(r)
      && |r.main| == |w.main| + |add| - |del|
      && forall e :: Listed(r, e) <==> e in add || (Listed(w, e) && e !in del)
  {
    var k := |del|;
    var w1 := ReplaceFirst(w, add, del, k);
    ReplaceFirstMembers(w, add, del, k);
    ReplaceFirstLength(w, add, del, k);
    assert del[..k] == del;
    var extra := add[k..];
    assert add == add[..k] + extra;
    forall i | 0 <= i < |extra|
      ensures SlotOf(w1.slots, extra[i]) == SENTINEL
    {
      assert extra[i] == add[k + i];
      assert extra[i] !in add[..k] && extra[i] !in del;
      ReplaceFirstSlotFrame(w, add, del, k, extra[i]);
    }
    AppendConsistent(w1, extra);
  }

  lemma MergeShrinks(w: Work, add: seq<ElemId>, del: seq<ElemId>)
    requires Consistent(w) && MergeReady(w, add, del)
    requires |add| < |del|
    ensures var r := Merge(w, add, del);
      && Consistent(r)
      && |r.main| == |w.main| + |add| - |del|
      && forall e :: Listed(r, e) <==> e in add || (Listed(w, e) && e !in del)
  {
    var k := |add|;
    var w1 := ReplaceFirst(w, add, del, k);
    SurplusRemovalsListed(w, add, del);
    SwapRemoveAllConsistent(w1, del, k, |del|);
    var r := SwapRemoveAll(w1, del, k, |del|);
    assert r == Merge(w, add, del);
    assert add[..k] == add;
    forall e
      ensures Listed(r, e) <==> e in add || (Listed(w, e) && e !in del)
    {
      ReplaceFirstMember(w, add, del, k, e);
      SwapRemoveAllMember(w1, del, k, |del|, e);
      SplitMember(del, k, e);
    }
  }

  lemma SplitMember(s: seq<ElemId>, k: nat, e: ElemId)
    requires k <= |s|
    ensures e in s <==> e in s[..k] || e in s[k..|s|]
  {
    assert s == s[..k] + s[k..|s|];
  }

  /** After the replace rounds of a shrinking merge, the surplus removals are
      still listed at their slots. */
  lemma SurplusRemovalsListed(w: Work, add: seq<ElemId>, del: seq<ElemId>)
    requires Consistent(w) && MergeReady(w, add, del)
    requires |add| < |del|
    ensures var w1 := ReplaceFirst(w, add, del, |add|);
      && Consistent(w1)
      && |w1.main| == |w.main|
      && |del| - |add| <= |w.main|
      && forall j :: |add| <= j < |del| ==>
           Listed(w1, del[j]) && SlotOf(w1.slots, del[j]) == SlotOf(w.slots, del[j])
  {
    var k := |add|;
    var w1 := ReplaceFirst(w, add, del, k);
    ReplaceFirstConsistent(w, add, del, k);
    ReplaceFirstLength(w, add, del, k);
    DelFitsInList(w, del);
    assert add[..k] == add;
    forall j | k <= j < |del|
      ensures Listed(w1, del[j]) && SlotOf(w1.slots, del[j]) == SlotOf(w.slots, del[j])
    {
      assert del[j] !in del[..k] && del[j] !in add;
      assert Listed(w, del[j]);
      ReplaceFirstMember(w, add, del, k, del[j]);
      ReplaceFirstSlotFrame(w, add, del, k, del[j]);
    }
  }

  // ---------------------------------------------------------------------------
  // The merge as written

  /** The resetting loop of the shrink branch unsets exactly del[lo..hi]. */
  lemma {:induction false} ClearSlotsEffect(slots: map<ElemId, nat>, del: seq<ElemId>, lo: nat, hi: nat)
    requires lo <= hi <= |del|
    ensures var r := ClearSlots(slots, del, lo, hi);
      && (forall j :: lo <= j < hi ==> SlotOf(r, del[j]) == SENTINEL)
      && (forall e :: e !in del[lo..hi] ==> SlotOf(r, e) == SlotOf(slots, e))
  {
    if hi > lo {
      ClearSlotsEffect(slots, del, lo, hi - 1);
      assert del[lo..hi] == del[lo..hi - 1] + [del[hi - 1]];
    }
  }

  /** The merge as written changes the list's length by |add| in the grow
      branch (the whole add list is appended) and by |add| - |del| otherwise. */
  lemma MergeAsWrittenLength(w: Work, add: seq<ElemId>, del: seq<ElemId>)
    requires MergeReady(w, add, del)
    ensures |MergeAsWritten(w, add, del).main|
         == if |add| > |del| then |w.main| + |add| else |w.main| + |add| - |del|
  {
    ReplaceFirstLength(w, add, del, Min(|add|, |del|));
    DelFitsInList(w, del);
  }

  /** When as many distinct listed elements as the tail is long all sit in the
      tail, the tail holds nothing else. */
  lemma TailHoldsOnly(w: Work, gone: seq<ElemId>, keep: nat)
    requires Consistent(w)
    requires Distinct(gone) && keep + |gone| == |w.main|
    requires forall x :: x in gone ==> Listed(w, x) && SlotOf(w.slots, x) >= keep
    ensures forall q :: keep <= q < |w.main| ==> w.main[q] in gone
  {
    var tail := w.main[keep..];
    forall i, j | 0 <= i < j < |tail|
      ensures tail[i] != tail[j]
    {
      assert SlotOf(w.slots, w.main[keep + i]) == keep + i;
      assert SlotOf(w.slots, w.main[keep + j]) == keep + j;
    }
    DistinctCard(gone);
    DistinctCard(tail);
    forall x | x in Elems(gone)
      ensures x in Elems(tail)
    {
      assert w.main[SlotOf(w.slots, x)] == x;
      assert tail[SlotOf(w.slots, x) - keep] == x;
    }
    SubsetCard(Elems(gone), Elems(tail));
    forall q | keep <= q < |w.main|
      ensures w.main[q] in gone
    {
      assert tail[q - keep] == w.main[q];
      assert w.main[q] in Elems(tail);
    }
  }

  /** Cutting off the tail keeps the slot invariant when the elements whose
      slots are unset are exactly the ones that sat in the tail. */
  lemma TruncateConsistent(w: Work, del: seq<ElemId>, lo: nat)
    requires Consistent(w)
    requires lo <= |del| && Distinct(del)
    requires |del| - lo <= |w.main|
    requires forall j :: lo <= j < |del| ==>
      Listed(w, del[j]) && SlotOf(w.slots, del[j]) >= |w.main| - (|del| - lo)
    ensures var r := Truncate(w, del, lo);
      && Consistent(r)
      && forall e :: Listed(r, e) <==> Listed(w, e) && e !in del[lo..]
  {
    var keep := |w.main| - (|del| - lo);
    var gone := del[lo..];
    var slots := ClearSlots(w.slots, del, lo, |del|);
    var r := Truncate(w, del, lo);
    assert r == Work(w.main[..keep], slots);
    ClearSlotsEffect(w.slots, del, lo, |del|);
    assert del[lo..|del|] == gone;
    assert Distinct(gone);
    forall x | x in gone
      ensures Listed(w, x) && SlotOf(w.slots, x) >= keep
      ensures SlotOf(slots, x) == SENTINEL
    {
      var j :| 0 <= j < |gone| && gone[j] == x;
      assert del[lo + j] == x;
    }
    TailHoldsOnly(w, gone, keep);
    forall q | 0 <= q < keep
      ensures SlotOf(slots, w.main[q]) == q
    {
      assert SlotOf(w.slots, w.main[q]) == q;
    }
    forall e | SlotOf(slots, e) != SENTINEL
      ensures Listed(r, e)
    {
      assert e !in gone;
      assert Listed(w, e);
      assert SlotOf(w.slots, e) < keep;
    }
    forall e
      ensures Listed(r, e) <==> Listed(w, e) && e !in gone
    {
      ListedIffSlotted(r, e);
      ListedIffSlotted(w, e);
    }
  }

  /** Conversely, when a surplus removal sits before the cut, cutting off the
      tail and unsetting the surplus slots breaks the slot invariant: that
      removal stays in the list with its slot index unset. */
  lemma TruncateBreaksSlots(w: Work, del: seq<ElemId>, lo: nat, j: nat)
    requires Consistent(w)
    requires lo <= j < |del| && |del| - lo <= |w.main|
    requires Listed(w, del[j]) && SlotOf(w.slots, del[j]) < |w.main| - (|del| - lo)
    ensures !Consistent(Truncate(w, del, lo))
  {
    var r := Truncate(w, del, lo);
    assert r.main == w.main[..|w.main| - (|del| - lo)];
    var p := SlotOf(w.slots, del[j]);
    ClearSlotsEffect(w.slots, del, lo, |del|);
    assert r.main[p] == del[j];
    assert SlotOf(r.slots, r.main[p]) == SENTINEL != p;
  }

  /** The merge as written keeps the slot invariant when there are no removals,
      when additions and removals balance, or when the surplus removals occupy
      the tail of the list; it then lists exactly the additions and the
      previously listed elements that were not removed. */
  lemma MergeAsWrittenKeepsSlotInvariant(w: Work, add: seq<ElemId>, del: seq<ElemId>)
    requires Consistent(w) && MergeReady(w, add, del)
    requires |w.main| + |add| <= SENTINEL
    requires || |del| == 0
             || |add| == |del|
             || (&& |add| < |del|
                 && forall j :: |add| <= j < |del| ==>
                      SlotOf(w.slots, del[j]) >= |w.main| - (|del| - |add|))
    ensures var r := MergeAsWritten(w, add, del);
      && Consistent(r)
      && forall e :: Listed(r, e) <==> e in add || (Listed(w, e) && e !in del)
  {
    if |add| == |del| {
      MergeBalanced(w, add, del);
    } else if |del| == 0 {
      assert add[0..] == add;
      MergeGrows(w, add, del);
    } else {
      ShrinkAsWrittenFromTail(w, add, del);
    }
  }

  lemma ShrinkAsWrittenFromTail(w: Work, add: seq<ElemId>, del: seq<ElemId>)
    requires Consistent(w) && MergeReady(w, add, del)
    requires |add| < |del|
    requires forall j :: |add| <= j < |del| ==>
      SlotOf(w.slots, del[j]) >= |w.main| - (|del| - |add|)
    ensures var r := MergeAsWritten(w, add, del);
      && Consistent(r)
      && forall e :: Listed(r, e) <==> e in add || (Listed(w, e) && e !in del)
  {
    var k := |add|;
    var w1 := ReplaceFirst(w, add, del, k);
    SurplusRemovalsListed(w, add, del);
    TruncateConsistent(w1, del, k);
    var r := MergeAsWritten(w, add, del);
    assert add[..k] == add;
    assert del[k..] == del[k..|del|];
    forall e
      ensures Listed(r, e) <==> e in add || (Listed(w, e) && e !in del)
    {
      ReplaceFirstMember(w, add, del, k, e);
      SplitMember(del, k, e);
    }
  }

  /** Grow branch as written: one removal and two additions leave the first
      addition listed twice and its slot pointing at the second copy. */
  lemma GrowAsWrittenDuplicates()
    ensures var w := Work([10], map[10 := 0]);
      && Consistent(w)
      && MergeReady(w, [20, 30], [10])
      && MergeAsWritten(w, [20, 30], [10]).main == [20, 20, 30]
      && !Consistent(MergeAsWritten(w, [20, 30], [10]))
      && Merge(w, [20, 30], [10]).main == [20, 30]
  {
    var w := Work([10], map[10 := 0]);
    var w1 := ReplaceFirst(w, [20, 30], [10], 1);
    assert w1 == Work([20], map[10 := SENTINEL, 20 := 0]);
    var m := MergeAsWritten(w, [20, 30], [10]);
    assert m.main == [20, 20, 30];
    assert AssignSlots(w1.slots, m.main, 1, 2) == w1.slots[20 := 1];
    assert m.slots == w1.slots[20 := 1][30 := 2];
    assert SlotOf(m.slots, 20) == 1;
    assert SlotOf(m.slots, m.main[0]) != 0;
  }

  /** Shrink branch as written: removing the head of a three-element list cuts
      off the third element, which keeps its slot, while the removed element
      stays in the list with its slot unset. */
  lemma ShrinkAsWrittenLosesTail()
    ensures var w := Work([10, 20, 30], map[10 := 0, 20 := 1, 30 := 2]);
      && Consistent(w)
      && MergeReady(w, [], [10])
      && MergeAsWritten(w, [], [10]) == Work([10, 20], map[10 := SENTINEL, 20 := 1, 30 := 2])
      && !Consistent(MergeAsWritten(w, [], [10]))
      && Merge(w, [], [10]).main == [30, 20]
  {
    var w := Work([10, 20, 30], map[10 := 0, 20 := 1, 30 := 2]);
    assert Consistent(w) by {
      forall e | SlotOf(w.slots, e) != SENTINEL ensures Listed(w, e) {
        assert e == 10 || e == 20 || e == 30;
      }
    }
    var m := MergeAsWritten(w, [], [10]);
    assert m.main == [10, 20];
    assert SlotOf(m.slots, m.main[0]) == SENTINEL;
  }
  // ---------------------------------------------------------------------------
  // The added flags

  /** The added flag an element carries (a missing id: still false). */
  function Flag(added: map<ElemId, bool>, e: ElemId): bool {
    e in added && added[e]
  }

  /** How one element's added flag agrees with the pending lists: an unslotted
      element is never queued for removal and is queued for adding once, exactly
      when its flag is set; a slotted element is queued for removal as often as
      for adding, or once more, and its flag is set exactly when the two counts
      match. `add` and `del` only queue on a flag transition, which keeps this. */
  predicate Agrees(slots: map<ElemId, nat>, added: map<ElemId, bool>,
                   add: seq<ElemId>, del: seq<ElemId>, e: ElemId)
  {
    var na, nd := multiset(add)[e], multiset(del)[e];
    if SlotOf(slots, e) == SENTINEL then nd == 0 && na <= 1 && (Flag(added, e) <==> na == 1)
    else na <= nd <= na + 1 && (Flag(added, e) <==> na == nd)
  }

  /** An element at two positions of a list is counted at least twice. */
  lemma TwiceCounted(s: seq<ElemId>, i: nat, j: nat)
    requires i < j < |s| && s[i] == s[j]
    ensures multiset(s)[s[i]] >= 2
  {
    assert s == s[..j] + [s[j]] + s[j + 1..];
    assert s[i] in s[..j];
  }

  /** When the flags agree with the pending lists and no element is queued both
      ways, the lists meet everything the merge takes for granted. */
  lemma DisjointQueuesAreReady(w: Work, added: map<ElemId, bool>, add: seq<ElemId>, del: seq<ElemId>)
    requires Consistent(w)
    requires forall e :: Agrees(w.slots, added, add, del, e)
    requires forall i, j :: 0 <= i < |add| && 0 <= j < |del| ==> add[i] != del[j]
    ensures MergeReady(w, add, del)
  {
    forall i | 0 <= i < |add|
      ensures SlotOf(w.slots, add[i]) == SENTINEL && multiset(add)[add[i]] == 1
    {
      assert Agrees(w.slots, added, add, del, add[i]);
      assert add[i] !in del;
    }
    forall i, j | 0 <= i < j < |add|
      ensures add[i] != add[j]
    {
      if add[i] == add[j] {
        TwiceCounted(add, i, j);
      }
    }
    forall j | 0 <= j < |del|
      ensures Listed(w, del[j]) && multiset(del)[del[j]] == 1
    {
      assert Agrees(w.slots, added, add, del, del[j]);
      assert del[j] !in add;
    }
    forall i, j | 0 <= i < j < |del|
      ensures del[i] != del[j]
    {
      if del[i] == del[j] {
        TwiceCounted(del, i, j);
      }
    }
  }

  /** After the intended merge, with both lists emptied, an element's flag is
      set exactly when the element is in the main list. */
  lemma MergeSettlesFlags(w: Work, added: map<ElemId, bool>, add: seq<ElemId>, del: seq<ElemId>)
    requires Consistent(w) && MergeReady(w, add, del)
    requires |w.main| + |add| <= SENTINEL
    requires forall e :: Agrees(w.slots, added, add, del, e)
    ensures var r := Merge(w, add, del);
      && (forall e :: Agrees(r.slots, added, [], [], e))
      && (forall e :: Flag(added, e) <==> Listed(r, e))
  {
    var r := Merge(w, add, del);
    MergeKeepsSlotInvariant(w, add, del);
    forall e
      ensures Agrees(r.slots, added, [], [], e) && (Flag(added, e) <==> Listed(r, e))
    {
      ListedIffSlotted(r, e);
      ListedIffSlotted(w, e);
      assert Agrees(w.slots, added, add, del, e);
      if e in add {
        assert e !in del;
      }
    }
  }

  /** A removal followed by a re-adding before the merge: the flags still agree
      with the lists, but the element is queued both ways, so the lists are not
      ready for the merge. */
  lemma QueuedBothWays()
    ensures var w := Work([10], map[10 := 0]);
      var added := map[10 := true];
      && Consistent(w)
      && (forall e :: Agrees(w.slots, added, [10], [10], e))
      && !MergeReady(w, [10], [10])
  {
    var w := Work([10], map[10 := 0]);
    assert Consistent(w) by {
      forall e | SlotOf(w.slots, e) != SENTINEL ensures Listed(w, e) {
        assert e == 10;
      }
    }
    assert multiset([10])[10] == 1;
    forall e
      ensures Agrees(w.slots, map[10 := true], [10], [10], e)
    {
      if e != 10 {
        assert e !in multiset([10]);
      }
    }
  }

  /** The merge as written on the lists of QueuedBothWays: the replace round
      gives the element its own slot and then unsets it, so the element stays
      in the list with its slot index unset. `del` skips unslotted elements,
      so `del` can never queue it again. */
  lemma QueuedBothWaysAsWritten()
    ensures var r := MergeAsWritten(Work([10], map[10 := 0]), [10], [10]);
      && r == Work([10], map[10 := SENTINEL])
      && r.main[0] == 10 && SlotOf(r.slots, 10) == SENTINEL
      && !Consistent(r)
  {
    var w := Work([10], map[10 := 0]);
    assert ReplaceFirst(w, [10], [10], 1) == ReplaceStep(w, 10, 10);
    assert ReplaceStep(w, 10, 10) == Work([10], map[10 := SENTINEL]);
  }
}
