/** What an iteration over the server list has still to return, and why each step of it keeps that promise. */
module Iteration {
  import opened Basics
  import opened HashChains
  import opened SlotList

  /** The live slots of lo..hi-1 in ascending order. */
  ghost function LiveIn(s: Slots, now: nat, lo: nat, hi: int): (r: seq<nat>)
    ensures forall i :: i in r <==> lo <= i < hi && Live(s, i, now)
    ensures forall x, y | 0 <= x < y < |r| :: r[x] < r[y]
    decreases hi - lo
  {
    if lo >= hi then []
    else
      var rest := LiveIn(s, now, lo + 1, hi);
      assert forall x | 0 <= x < |rest| :: rest[x] in rest;
      if Live(s, lo, now) then [lo] + rest else rest
  }

  /** The slots an iteration returns when it starts at slot `start` of 0..lastUsed: the live ones in cyclic order,
      but nothing at all when none is live from `start` on. */
  ghost function Expected(s: Slots, now: nat, start: nat, lastUsed: int): seq<nat> {
    var upper := LiveIn(s, now, start, lastUsed + 1);
    if upper == [] then [] else upper + LiveIn(s, now, 0, start)
  }

  /** Some slot above `last` will still be in use when the iteration comes to the end of the list. */
  ghost predicate Wraps(s: Slots, now: nat, lastUsed: int, crt: int, last: int) {
    exists i | last < i <= lastUsed && 0 <= i < |s| && s[i].Some? :: i <= crt || Live(s, i, now)
  }

  /** The slots that Sv_GetNext has still to return, one by one, from the present position. */
  ghost function Pending(s: Slots, now: nat, lastUsed: int, crt: int, last: int): seq<nat>
    requires -1 <= crt
  {
    if crt == last then []
    else if crt < last then LiveIn(s, now, crt + 1, last + 1)
    else LiveIn(s, now, crt + 1, lastUsed + 1) + if Wraps(s, now, lastUsed, crt, last) then LiveIn(s, now, 0, last + 1) else []
  }

  /** The number of steps an iteration can still take. */
  function Distance(lastUsed: int, crt: int, last: int): int {
    if crt <= last then last - crt else lastUsed - crt + last + 2
  }

  /** The position is between -1 and the last used slot. */
  ghost predicate Positioned(s: Slots, lastUsed: int, crt: int, last: int) {
    && -1 <= lastUsed < |s| && lastUsed == TopUsed(s, lastUsed + 1)
    && -1 <= crt <= lastUsed && -1 <= last <= lastUsed && (crt == -1 <==> last == -1)
  }

  lemma {:induction false} SameLiveIn(s: Slots, s': Slots, now: nat, lo: nat, hi: int)
    requires forall i | lo <= i < hi :: Live(s', i, now) <==> Live(s, i, now)
    ensures LiveIn(s', now, lo, hi) == LiveIn(s, now, lo, hi)
    decreases hi - lo
  {
    if lo < hi {
      SameLiveIn(s, s', now, lo + 1, hi);
    }
  }

  /** The position after Sv_GetNext has moved to slot k and tested it: removal pulls both ends down to the last used slot. */
  ghost predicate Stepped(s: Slots, now: nat, lastUsed: int, last: int, k: nat, s': Slots, lastUsed': int, crt': int, last': int) {
    && k <= lastUsed < |s| && s' == ExpireAt(s, k, now)
    && lastUsed' == TopUsed(s', lastUsed + 1) && crt' == Min(k, lastUsed') && last' == Min(last, lastUsed')
  }

  /** Removing any other slot than the last used one leaves the end of the list where it is. */
  lemma EndStays(s: Slots, now: nat, lastUsed: int, last: int, k: nat, s': Slots, lastUsed': int, crt': int, last': int)
    requires Stepped(s, now, lastUsed, last, k, s', lastUsed', crt', last')
    requires lastUsed == TopUsed(s, lastUsed + 1) && last <= lastUsed
    requires k < lastUsed || !Expired(s, k, now)
    ensures lastUsed' == lastUsed && crt' == k && last' == last
  {
    assert s'[lastUsed].Some?;
  }

  lemma StepBelow(s: Slots, now: nat, lastUsed: int, crt: int, last: int, s': Slots, lastUsed': int, crt': int, last': int)
    requires Positioned(s, lastUsed, crt, last) && crt < last
    requires Stepped(s, now, lastUsed, last, crt + 1, s', lastUsed', crt', last')
    ensures Pending(s, now, lastUsed, crt, last) ==
      (if Live(s, crt + 1, now) then [crt + 1] else []) + Pending(s', now, lastUsed', crt', last')
  {
    SameLiveIn(s, s', now, crt + 2, last + 1);
    if crt + 1 < lastUsed || !Expired(s, crt + 1, now) {
      EndStays(s, now, lastUsed, last, crt + 1, s', lastUsed', crt', last');
    } else {
      assert LiveIn(s, now, crt + 2, last + 1) == [];
    }
  }

  lemma LiveInFirst(s: Slots, now: nat, lo: nat, hi: int)
    ensures lo < hi ==> LiveIn(s, now, lo, hi) == (if Live(s, lo, now) then [lo] else []) + LiveIn(s, now, lo + 1, hi)
    ensures lo >= hi ==> LiveIn(s, now, lo, hi) == []
  {
  }

  lemma StepAbove(s: Slots, now: nat, lastUsed: int, crt: int, last: int, s': Slots, lastUsed': int, crt': int, last': int)
    requires Positioned(s, lastUsed, crt, last) && last < crt < lastUsed
    requires Stepped(s, now, lastUsed, last, crt + 1, s', lastUsed', crt', last')
    ensures Pending(s, now, lastUsed, crt, last) ==
      (if Live(s, crt + 1, now) then [crt + 1] else []) + Pending(s', now, lastUsed', crt', last')
  {
    hide Wraps, LiveIn, TopUsed;
    var k := crt + 1;
    LiveInFirst(s, now, k, lastUsed + 1);
    SameLiveIn(s, s', now, 0, last + 1);
    if k < lastUsed || !Expired(s, k, now) {
      SameLiveIn(s, s', now, k + 1, lastUsed + 1);
      EndStays(s, now, lastUsed, last, k, s', lastUsed', crt', last');
      SameWraps(s, now, lastUsed, crt, last, s');
    } else {
      StepOffTheEnd(s, now, lastUsed, crt, last, s', lastUsed', crt', last');
    }
  }

  /** The last used slot turns out to have expired. */
  lemma StepOffTheEnd(s: Slots, now: nat, lastUsed: int, crt: int, last: int, s': Slots, lastUsed': int, crt': int, last': int)
    requires Positioned(s, lastUsed, crt, last) && last < crt == lastUsed - 1 && Expired(s, lastUsed, now)
    requires Stepped(s, now, lastUsed, last, lastUsed, s', lastUsed', crt', last')
    ensures Pending(s, now, lastUsed, crt, last) == Pending(s', now, lastUsed', crt', last')
  {
    hide Wraps, LiveIn, TopUsed;
    LiveInFirst(s, now, lastUsed, lastUsed + 1);
    LiveInFirst(s, now, lastUsed + 1, lastUsed + 1);
    SameLiveIn(s, s', now, 0, last + 1);
    WrapsAtTheEnd(s, now, lastUsed, crt, last, s', lastUsed');
    if lastUsed' > last {
      LiveInFirst(s', now, lastUsed' + 1, lastUsed' + 1);
    }
  }

  lemma SameWraps(s: Slots, now: nat, lastUsed: int, crt: int, last: int, s': Slots)
    requires Positioned(s, lastUsed, crt, last) && last < crt < lastUsed && s' == ExpireAt(s, crt + 1, now)
    ensures Wraps(s, now, lastUsed, crt, last) <==> Wraps(s', now, lastUsed, crt + 1, last)
  {
    if Wraps(s, now, lastUsed, crt, last) {
      var i :| last < i <= lastUsed && 0 <= i < |s| && s[i].Some? && (i <= crt || Live(s, i, now));
      assert s'[i].Some?;
    }
    if Wraps(s', now, lastUsed, crt + 1, last) {
      var i :| last < i <= lastUsed && 0 <= i < |s'| && s'[i].Some? && (i <= crt + 1 || Live(s', i, now));
      assert s[i].Some? && (i == crt + 1 ==> Live(s, i, now));
    }
  }

  /** The last used slot has just been removed: the iteration goes on at slot 0 if a used slot above `last` remains. */
  lemma WrapsAtTheEnd(s: Slots, now: nat, lastUsed: int, crt: int, last: int, s': Slots, lastUsed': int)
    requires Positioned(s, lastUsed, crt, last) && last < crt == lastUsed - 1 && Expired(s, lastUsed, now)
    requires s' == s[lastUsed := None] && lastUsed' == TopUsed(s', lastUsed + 1)
    ensures Wraps(s, now, lastUsed, crt, last) <==> lastUsed' > last
    ensures lastUsed' > last ==> Wraps(s', now, lastUsed', lastUsed', last)
  {
    if Wraps(s, now, lastUsed, crt, last) {
      var i :| last < i <= lastUsed && 0 <= i < |s| && s[i].Some? && (i <= crt || Live(s, i, now));
      assert s'[i].Some?;
    }
    if lastUsed' > last {
      assert s'[lastUsed'].Some? && s[lastUsed'].Some?;
    }
  }

  lemma StepAround(s: Slots, now: nat, lastUsed: int, crt: int, last: int, s': Slots, lastUsed': int, crt': int, last': int)
    requires Positioned(s, lastUsed, crt, last) && last < crt == lastUsed
    requires Stepped(s, now, lastUsed, last, 0, s', lastUsed', crt', last')
    ensures Pending(s, now, lastUsed, crt, last) ==
      (if Live(s, 0, now) then [0] else []) + Pending(s', now, lastUsed', crt', last')
  {
    assert s[lastUsed].Some? && Wraps(s, now, lastUsed, crt, last);
    EndStays(s, now, lastUsed, last, 0, s', lastUsed', crt', last');
    SameLiveIn(s, s', now, 1, last + 1);
  }

  /** The next slot in cyclic order. */
  function NextIndex(lastUsed: int, crt: int): (k: nat)
    requires 0 <= lastUsed && -1 <= crt <= lastUsed
    ensures k == if crt == lastUsed then 0 else crt + 1
  {
    (crt + 1) % (lastUsed + 1)
  }

  lemma DistanceDrops(s: Slots, now: nat, lastUsed: int, crt: int, last: int, s': Slots, lastUsed': int, crt': int, last': int)
    requires Positioned(s, lastUsed, crt, last) && crt != last
    requires Stepped(s, now, lastUsed, last, NextIndex(lastUsed, crt), s', lastUsed', crt', last')
    ensures 0 <= Distance(lastUsed', crt', last') < Distance(lastUsed, crt, last)
  {
    var k := NextIndex(lastUsed, crt);
    if k < lastUsed || !Expired(s, k, now) {
      EndStays(s, now, lastUsed, last, k, s', lastUsed', crt', last');
    }
  }

  /** One step of Sv_GetNext: what is pending loses at most its head, and only if that is what the step returns. */
  lemma Step(s: Slots, now: nat, lastUsed: int, crt: int, last: int, s': Slots, lastUsed': int, crt': int, last': int)
    requires Positioned(s, lastUsed, crt, last) && crt != last
    requires Stepped(s, now, lastUsed, last, NextIndex(lastUsed, crt), s', lastUsed', crt', last')
    ensures var k := NextIndex(lastUsed, crt);
      Pending(s, now, lastUsed, crt, last) == (if Live(s, k, now) then [k] else []) + Pending(s', now, lastUsed', crt', last')
  {
    if crt < last {
      StepBelow(s, now, lastUsed, crt, last, s', lastUsed', crt', last');
    } else if crt < lastUsed {
      StepAbove(s, now, lastUsed, crt, last, s', lastUsed', crt', last');
    } else {
      StepAround(s, now, lastUsed, crt, last, s', lastUsed', crt', last');
    }
  }

  /** Sv_GetFirst: the start position and the stop position determine everything that will be returned. */
  lemma FirstStep(s: Slots, now: nat, lastUsed: int, start: nat, last: int, s': Slots, lastUsed': int, crt': int, last': int)
    requires -1 <= lastUsed < |s| && lastUsed == TopUsed(s, lastUsed + 1) && start <= lastUsed
    requires last == if start == 0 then lastUsed else start - 1
    requires Stepped(s, now, lastUsed, last, start, s', lastUsed', crt', last')
    ensures Expected(s, now, start, lastUsed) ==
      (if Live(s, start, now) then [start] else []) + Pending(s', now, lastUsed', crt', last')
  {
    hide Wraps, LiveIn, TopUsed;
    LiveInFirst(s, now, start, lastUsed + 1);
    SameLiveIn(s, s', now, start + 1, lastUsed + 1);
    SameLiveIn(s, s', now, 0, start);
    LiveInFirst(s, now, start + 1, start + 1);
    if start < lastUsed || !Expired(s, start, now) {
      EndStays(s, now, lastUsed, last, start, s', lastUsed', crt', last');
      if start > 0 {
        WrapsFromTheStart(s, now, lastUsed, start, s');
      } else {
        LiveInFirst(s, now, 0, 0);
      }
    } else {
      FirstStepOffTheEnd(s, now, lastUsed, start, last, s', lastUsed', crt', last');
    }
  }

  /** The iteration starts on the last used slot, which has expired: it is over. */
  lemma FirstStepOffTheEnd(s: Slots, now: nat, lastUsed: int, start: nat, last: int, s': Slots, lastUsed': int, crt': int, last': int)
    requires start == lastUsed && Expired(s, start, now) && last == (if start == 0 then lastUsed else start - 1)
    requires Stepped(s, now, lastUsed, last, start, s', lastUsed', crt', last')
    ensures crt' == last' == lastUsed' && Pending(s', now, lastUsed', crt', last') == []
  {
  }

  lemma WrapsFromTheStart(s: Slots, now: nat, lastUsed: int, start: nat, s': Slots)
    requires 0 < start <= lastUsed < |s| && s' == ExpireAt(s, start, now)
    ensures Wraps(s', now, lastUsed, start, start - 1) <==> LiveIn(s, now, start, lastUsed + 1) != []
  {
    var live := LiveIn(s, now, start, lastUsed + 1);
    if live != [] {
      assert live[0] in live && s'[live[0]].Some?;
    }
    if Wraps(s', now, lastUsed, start, start - 1) {
      var i :| start - 1 < i <= lastUsed && 0 <= i < |s'| && s'[i].Some? && (i <= start || Live(s', i, now));
      assert Live(s, i, now) && i in live;
    }
  }

  /** No slot is returned twice, and what is returned is live. Every live slot of the list is returned if and only if one
      is live from the start on, or none is live in front of the start. */
  lemma IterationIsComplete(s: Slots, now: nat, start: nat, lastUsed: int)
    requires Exact(s, lastUsed)
    ensures var all := Expected(s, now, start, lastUsed);
      && (forall x, y | 0 <= x < y < |all| :: all[x] != all[y])
      && (forall i | i in all :: Live(s, i, now))
      && ((forall i: nat | Live(s, i, now) :: i in all) <==>
          (exists i: nat :: i >= start && Live(s, i, now)) || (forall i: nat | Live(s, i, now) :: i >= start))
  {
    var upper, lower, all := LiveIn(s, now, start, lastUsed + 1), LiveIn(s, now, 0, start), Expected(s, now, start, lastUsed);
    forall x, y | 0 <= x < y < |all|
      ensures all[x] != all[y]
    {
      assert x < |upper| ==> all[x] in upper;
      assert y >= |upper| ==> all[y] == lower[y - |upper|] && all[y] in lower;
      assert x >= |upper| ==> all[x] == lower[x - |upper|];
    }
    if upper != [] {
      assert upper[0] in upper;
      assert upper[0] >= start && Live(s, upper[0], now);
    }
    forall i: nat | Live(s, i, now)
      ensures i <= lastUsed && (i in upper <==> i >= start) && (i in lower <==> i < start)
    {
    }
  }

  /** Some slot of the list is live from the start on. */
  ghost predicate SomeLiveFrom(s: Slots, now: nat, start: nat, lastUsed: int) {
    exists j: nat :: start <= j <= lastUsed && Live(s, j, now)
  }

  /** A slot is returned if and only if it is live, not above lastUsed, and some slot is live from the start on. */
  lemma ReturnedExactly(s: Slots, now: nat, start: nat, lastUsed: int, i: nat)
    ensures i in Expected(s, now, start, lastUsed) <==>
      Live(s, i, now) && i <= lastUsed && SomeLiveFrom(s, now, start, lastUsed)
    ensures !SomeLiveFrom(s, now, start, lastUsed) ==> Expected(s, now, start, lastUsed) == []
  {
    var upper := LiveIn(s, now, start, lastUsed + 1);
    if upper != [] {
      assert upper[0] in upper;
    } else {
      assert forall j: nat | start <= j <= lastUsed :: j !in upper;
    }
  }

  /** The family is not empty: a live server in front of the start, and an expired one behind it, give an empty list. */
  lemma IterationMissesServer(r: Record, expired: Record, now: nat)
    requires r.timeout >= now > expired.timeout
    ensures var s: Slots := [Some(r), Some(expired)];
      Exact(s, 1) && Live(s, 0, now) && Expected(s, now, 1, 1) == []
  {
    var s: Slots := [Some(r), Some(expired)];
    assert !Live(s, 1, now);
    TopUsedIs(s, 2, 1);
    assert LiveIn(s, now, 2, 2) == [];
  }
}
