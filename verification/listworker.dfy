/** The Listworker of lib/multh_listworker.hpp with its threads taken away:
    the configuration and start guards, the add/del queues guarded by the
    elements' added flags, the merge `addel` run between cycles, and the
    leader's end-of-cycle step with the clock read as integer milliseconds.

    The two per-element fields at this worker's index (slot index and added
    flag) are held here as maps from element ids; an id missing from a map
    still has the field's initial value. */
module MulthListworker {
  import opened ListMerge

  /** The settings `ini` takes. The two callbacks are only recorded as set or
      not set; the numbers default as in the settings record (two threads, a
      cycle of 1000 ms, index 0). */
  datatype ListworkerIni = ListworkerIni(
    hasProcessElement: bool,
    hasCycleEnd: bool,
    threadCount: nat := 2,
    cycleTime: int := 1000,
    delItPos: nat := 0)

  /** The anchor of the next cycle, from the anchor of this one, the cycle
      length and two clock readings: `now`, taken before the comparison, and
      `later`, taken again when the cycle overran. The anchor advances by one
      period when the worker is on time, and restarts from the clock when it is
      late, so it never lies behind `now` and missed cycles are not caught up. */
  function NextAnchor(anchor: int, period: int, now: int, later: int): (r: int)
    requires now <= later
    ensures r >= now
    ensures now < anchor + period ==> r == anchor + period
    ensures anchor + period <= now ==> r == later && r - anchor >= period
  {
    var next := anchor + period;
    if now < next then next else later
  }

  class Listworker {
    var isIni: bool
    var delItPos: nat
    var hasProcessElement: bool
    var hasCycleEnd: bool
    var threadCount: nat
    var cycleTime: int

    /** `w`: the workers are running. */
    var running: bool

    var mainList: seq<ElemId>
    var addList: seq<ElemId>
    var delList: seq<ElemId>

    /** The claim counter `main_list_it`. */
    var mainListIt: nat
    var cycleNr: nat
    var cycleStarts: int

    /** Every element's slot index and added flag at this worker's index. */
    var slots: map<ElemId, nat>
    var added: map<ElemId, bool>

    /** The main list with the slot indices. */
    function Current(): Work
      reads this
    {
      Work(mainList, slots)
    }

    /** `is_added`: the element's added flag. While the flags agree with the
        pending lists, an element without a slot index has its flag set
        exactly when it is queued for adding, and an element with one has it
        set exactly when it is queued for adding as often as for removal. */
    function IsAdded(e: ElemId): (r: bool)
      reads this
      ensures Agrees(slots, added, addList, delList, e) ==>
        (r <==> if SlotOf(slots, e) == SENTINEL then e in addList
                else multiset(addList)[e] == multiset(delList)[e])
    {
      Flag(added, e)
    }

    /** Every element's flag agrees with the pending lists. */
    ghost predicate FlagsAgree()
      reads this
    {
      forall e :: Agrees(slots, added, addList, delList, e)
    }

    /** A default-constructed worker: not configured, not running, nothing
        listed or queued, every element field at its initial value. */
    constructor ()
      ensures !isIni && !running && delItPos == 0 && threadCount == 0
      ensures mainList == [] && addList == [] && delList == []
      ensures slots == map[] && added == map[]
      ensures mainListIt == 0 && cycleNr == 0 && cycleStarts == 0
      ensures Consistent(Current()) && FlagsAgree()
    {
      isIni, running := false, false;
      delItPos, threadCount, cycleTime := 0, 0, 0;
      hasProcessElement, hasCycleEnd := false, false;
      mainList, addList, delList := [], [], [];
      slots, added := map[], map[];
      mainListIt, cycleNr, cycleStarts := 0, 0, 0;
    }

    /** A worker built from settings: configured exactly when the element
        callback is set; otherwise it stays as default-constructed. */
    constructor FromIni(ini: ListworkerIni)
      ensures isIni == ini.hasProcessElement && !running
      ensures ini.hasProcessElement ==>
        && hasProcessElement && hasCycleEnd == ini.hasCycleEnd
        && cycleTime == ini.cycleTime && threadCount == ini.threadCount
        && delItPos == ini.delItPos
      ensures !ini.hasProcessElement ==> delItPos == 0 && threadCount == 0
      ensures mainList == [] && addList == [] && delList == []
      ensures slots == map[] && added == map[]
      ensures mainListIt == 0 && cycleNr == 0 && cycleStarts == 0
      ensures Consistent(Current()) && FlagsAgree()
    {
      isIni, running := false, false;
      delItPos, threadCount, cycleTime := 0, 0, 0;
      hasProcessElement, hasCycleEnd := false, false;
      mainList, addList, delList := [], [], [];
      slots, added := map[], map[];
      mainListIt, cycleNr, cycleStarts := 0, 0, 0;
      if ini.hasProcessElement {
        hasProcessElement := ini.hasProcessElement;
        hasCycleEnd := ini.hasCycleEnd;
        cycleTime := ini.cycleTime;
        threadCount := ini.threadCount;
        delItPos := ini.delItPos;
        isIni := true;
      }
    }

    /** `ini`: refused while running or without an element callback; otherwise
        takes over the settings and marks the worker configured. */
    method Ini(ini: ListworkerIni) returns (ok: bool)
      modifies this`hasProcessElement, this`hasCycleEnd, this`cycleTime,
               this`threadCount, this`delItPos, this`isIni
      ensures ok <==> !running && ini.hasProcessElement
      ensures ok ==>
        && isIni && hasProcessElement && hasCycleEnd == ini.hasCycleEnd
        && cycleTime == ini.cycleTime && threadCount == ini.threadCount
        && delItPos == ini.delItPos
      ensures !ok ==>
        && isIni == old(isIni) && hasProcessElement == old(hasProcessElement)
        && hasCycleEnd == old(hasCycleEnd) && cycleTime == old(cycleTime)
        && threadCount == old(threadCount) && delItPos == old(delItPos)
    {
      if running {
        return false;
      }
      if !ini.hasProcessElement {
        return false;
      }
      hasProcessElement := ini.hasProcessElement;
      hasCycleEnd := ini.hasCycleEnd;
      cycleTime := ini.cycleTime;
      threadCount := ini.threadCount;
      delItPos := ini.delItPos;
      isIni := true;
      return true;
    }

    /** `start`: a configured worker that is not yet running starts running;
        otherwise nothing happens. */
    method Start()
      modifies this`running
      ensures running <==> old(running) || isIni
    {
      if !isIni {
        return;
      }
      if running {
        return;
      }
      running := true;
    }

    /** `add`: sets the element's flag, and queues the element only if the flag
        was clear, so a second `add` changes nothing. */
    method Add(e: ElemId)
      modifies this`added, this`addList
      ensures IsAdded(e) && added == old(added)[e := true]
      ensures addList == if old(IsAdded(e)) then old(addList) else old(addList) + [e]
      ensures old(IsAdded(e)) ==> added == old(added) && addList == old(addList)
      ensures old(FlagsAgree()) ==> FlagsAgree()
    {
      var was := IsAdded(e);
      added := added[e := true];
      if !was {
        addList := addList + [e];
      }
      if old(FlagsAgree()) {
        forall x
          ensures Agrees(slots, added, addList, delList, x)
        {
          assert old(Agrees(slots, added, addList, delList, x));
        }
      }
    }

    /** `del`: only an element with a set slot index is considered; its flag is
        cleared, and it is queued only if the flag was set. An element without
        a slot index is left alone. */
    method Del(e: ElemId)
      modifies this`added, this`delList
      ensures var slotted := SlotOf(slots, e) != SENTINEL;
        && added == (if slotted then old(added)[e := false] else old(added))
        && delList == (if slotted && old(IsAdded(e)) then old(delList) + [e] else old(delList))
      ensures SlotOf(slots, e) != SENTINEL ==> !IsAdded(e)
      ensures old(FlagsAgree()) ==> FlagsAgree()
    {
      if SlotOf(slots, e) != SENTINEL {
        var was := IsAdded(e);
        added := added[e := false];
        if was {
          delList := delList + [e];
        }
      }
      if old(FlagsAgree()) {
        forall x
          ensures Agrees(slots, added, addList, delList, x)
        {
          assert old(Agrees(slots, added, addList, delList, x));
        }
      }
    }

    /** The replace loop of `addel`: the first `replace` additions take over
        the slots and positions of the first `replace` removals. */
    method ReplaceRounds(replace: nat)
      requires replace <= |addList| && replace <= |delList|
      requires Pairable(Current(), addList, delList)
      modifies this`mainList, this`slots
      ensures Current() == ReplaceFirst(old(Current()), addList, delList, replace)
    {
      ghost var w0 := Current();
      var i := 0;
      while i < replace
        invariant i <= replace
        invariant Current() == ReplaceFirst(w0, addList, delList, i)
      {
        ReplaceFirstLength(w0, addList, delList, i);
        assert delList[i] !in addList[..i] && delList[i] !in delList[..i];
        ReplaceFirstSlotFrame(w0, addList, delList, i, delList[i]);
        assert Listed(w0, delList[i]);
        var tmp := SlotOf(slots, delList[i]);
        slots := slots[addList[i] := tmp];
        slots := slots[delList[i] := SENTINEL];
        mainList := mainList[tmp := addList[i]];
        i := i + 1;
      }
    }

    /** The numbering loop of the grow branch: every position from `lo` on
        gets written into its element's slot index, in order. */
    method NumberFrom(lo: nat)
      requires lo <= |mainList|
      modifies this`slots
      ensures slots == AssignSlots(old(slots), mainList, lo, |mainList|)
    {
      var i := lo;
      var n := |mainList|;
      while i < n
        invariant lo <= i <= n
        invariant slots == AssignSlots(old(slots), mainList, lo, i)
      {
        slots := slots[mainList[i] := i];
        i := i + 1;
      }
    }

    /** The resetting loop of the shrink branch as written: every removal
        from position `lo` on gets its slot index unset, in order. */
    method ClearFrom(lo: nat)
      requires lo <= |delList|
      modifies this`slots
      ensures slots == ClearSlots(old(slots), delList, lo, |delList|)
    {
      var i := lo;
      while i < |delList|
        invariant lo <= i <= |delList|
        invariant slots == ClearSlots(old(slots), delList, lo, i)
      {
        slots := slots[delList[i] := SENTINEL];
        i := i + 1;
      }
    }

    /** The swap-remove loop of the intended shrink branch: each removal from
        position `lo` on is overwritten by the list's last element, which
        takes over its slot, and the list loses its last position. */
    method SwapRemoveRounds(lo: nat)
      requires Consistent(Current())
      requires lo <= |delList| && Distinct(delList)
      requires forall j :: lo <= j < |delList| ==> Listed(Current(), delList[j])
      modifies this`mainList, this`slots
      ensures Current() == SwapRemoveAll(old(Current()), delList, lo, |delList|)
    {
      ghost var w0 := Current();
      var i := lo;
      while i < |delList|
        invariant lo <= i <= |delList|
        invariant Current() == SwapRemoveAll(w0, delList, lo, i)
      {
        SwapRemoveAllNext(w0, delList, lo, i);
        var d := delList[i];
        var p := SlotOf(slots, d);
        var last := mainList[|mainList| - 1];
        mainList := mainList[p := last][..|mainList| - 1];
        slots := slots[last := p][d := SENTINEL];
        i := i + 1;
      }
    }

    /** `addel` as written: after the replace rounds the grow branch appends
        the whole add list and numbers the new positions, and the shrink branch
        erases the surplus from the end of the list and unsets the surplus
        removals' slots. Both lists are emptied. */
    method AddelAsWritten()
      requires MergeReady(Current(), addList, delList)
      modifies this`mainList, this`slots, this`addList, this`delList
      ensures Current() == MergeAsWritten(old(Current()), old(addList), old(delList))
      ensures |mainList| == if old(|addList| > |delList|) then old(|mainList| + |addList|)
                            else old(|mainList| + |addList| - |delList|)
      ensures addList == [] && delList == []
    {
      ghost var w0 := Current();
      var advance: int := |addList| - |delList|;
      var replace: int := if |addList| < |delList| then |addList| else |delList|;
      ReplaceRounds(replace);
      ghost var w1 := Current();
      ReplaceFirstLength(w0, addList, delList, replace);
      if advance == 0 {
      } else if advance > 0 {
        var i := |mainList|;
        mainList := mainList + addList;
        NumberFrom(i);
      } else {
        DelFitsInList(w0, delList);
        mainList := mainList[..|mainList| + advance];
        ClearFrom(replace);
      }
      MergeAsWrittenLength(w0, addList, delList);
      delList := [];
      addList := [];
    }

    /** `addel` as meant: the grow branch appends only the additions left over
        by the replace rounds, and the shrink branch swap-removes each surplus
        removal. It keeps the slot invariant, changes the length by
        |add| - |del|, lists exactly the additions and the old elements not
        removed, and empties both lists. */
    method Addel()
      requires Consistent(Current()) && MergeReady(Current(), addList, delList)
      requires |mainList| + |addList| <= SENTINEL
      modifies this`mainList, this`slots, this`addList, this`delList
      ensures Current() == Merge(old(Current()), old(addList), old(delList))
      ensures Consistent(Current())
      ensures |mainList| == old(|mainList| + |addList| - |delList|)
      ensures forall e :: Listed(Current(), e) <==>
        e in old(addList) || (old(Listed(Current(), e)) && e !in old(delList))
      ensures addList == [] && delList == []
    {
      ghost var w0 := Current();
      var replace := if |addList| < |delList| then |addList| else |delList|;
      ReplaceRounds(replace);
      ReplaceFirstLength(w0, addList, delList, replace);
      if |addList| == |delList| {
      } else if |addList| > |delList| {
        var i := |mainList|;
        mainList := mainList + addList[replace..];
        NumberFrom(i);
      } else {
        SurplusRemovalsListed(w0, addList, delList);
        SwapRemoveRounds(replace);
      }
      MergeKeepsSlotInvariant(w0, addList, delList);
      delList := [];
      addList := [];
    }

    /** The end of the leader's step: move the anchor on (by one period, or to
        the clock reading `later` on an overrun), reset the claim counter and
        count the cycle. */
    method EndCycle(now: int, later: int)
      requires now <= later
      modifies this`cycleStarts, this`mainListIt, this`cycleNr
      ensures cycleStarts == NextAnchor(old(cycleStarts), cycleTime, now, later)
      ensures cycleStarts >= now
      ensures mainListIt == 0 && cycleNr == old(cycleNr) + 1
    {
      cycleStarts := cycleStarts + cycleTime;
      if now < cycleStarts {
      } else {
        cycleStarts := later;
      }
      mainListIt := 0;
      cycleNr := cycleNr + 1;
    }

    /** The leader's step between cycles as written: `addel` as written runs
        if either list is non-empty, then the cycle ends. */
    method LeaderStepAsWritten(now: int, later: int)
      requires now <= later
      requires MergeReady(Current(), addList, delList)
      modifies this`mainList, this`slots, this`addList, this`delList,
               this`cycleStarts, this`mainListIt, this`cycleNr
      ensures Current() == MergeAsWritten(old(Current()), old(addList), old(delList))
      ensures addList == [] && delList == []
      ensures cycleStarts == NextAnchor(old(cycleStarts), cycleTime, now, later)
      ensures cycleStarts >= now
      ensures mainListIt == 0 && cycleNr == old(cycleNr) + 1
    {
      if |addList| + |delList| > 0 {
        AddelAsWritten();
      } else {
        assert MergeAsWritten(Current(), addList, delList) == Current();
      }
      EndCycle(now, later);
    }

    /** The leader's step between cycles with the intended `addel`: merge the
        pending lists if any are non-empty, then end the cycle. The flags then
        say exactly which elements are in the main list. */
    method LeaderStep(now: int, later: int)
      requires now <= later
      requires Consistent(Current()) && MergeReady(Current(), addList, delList)
      requires |mainList| + |addList| <= SENTINEL
      modifies this`mainList, this`slots, this`addList, this`delList,
               this`cycleStarts, this`mainListIt, this`cycleNr
      ensures Current() == Merge(old(Current()), old(addList), old(delList))
      ensures Consistent(Current()) && addList == [] && delList == []
      ensures old(FlagsAgree()) ==> FlagsAgree() && forall e :: IsAdded(e) <==> Listed(Current(), e)
      ensures cycleStarts == NextAnchor(old(cycleStarts), cycleTime, now, later)
      ensures cycleStarts >= now
      ensures mainListIt == 0 && cycleNr == old(cycleNr) + 1
    {
      if old(FlagsAgree()) {
        MergeSettlesFlags(Current(), added, addList, delList);
      }
      if |addList| + |delList| > 0 {
        Addel();
      } else {
        assert Merge(Current(), addList, delList) == Current();
      }
      EndCycle(now, later);
    }
  }
}
