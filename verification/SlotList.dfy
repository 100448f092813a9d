/** The server list seen without its links: which slots are used, and what each one records. */
module SlotList {
  import opened Basics
  import opened Addresses
  import opened HashChains

  type Slots = seq<Option<Record>>

  /** A slot is used unless its state says otherwise; what an unused slot still holds is invisible. */
  ghost function View(servers: seq<Server>): (s: Slots)
    ensures |s| == |servers|
    ensures forall i | 0 <= i < |s| :: s[i] == if servers[i].rec.state == Unused then None else Some(servers[i].rec)
  {
    seq(|servers|, i requires 0 <= i < |servers| => if servers[i].rec.state == Unused then None else Some(servers[i].rec))
  }

  lemma SameView(a: Store, b: Store)
    requires SameShape(a, b)
    ensures View(a.servers) == View(b.servers)
  {
  }

  lemma SameViewOutside(a: Store, b: Store, i: nat)
    requires |a.servers| == |b.servers| && i < |a.servers|
    requires forall k | 0 <= k < |a.servers| && k != i :: a.servers[k].rec == b.servers[k].rec
    requires a.servers[i].rec.state == Unused && b.servers[i].rec.state == Unused
    ensures View(a.servers) == View(b.servers)
  {
  }

  /** A used slot whose time is not over; the test for expiry is strict. */
  predicate Live(s: Slots, i: int, now: nat) {
    0 <= i < |s| && s[i].Some? && s[i].value.timeout >= now
  }

  predicate Expired(s: Slots, i: int, now: nat) {
    0 <= i < |s| && s[i].Some? && s[i].value.timeout < now
  }

  ghost function UsedSet(s: Slots): set<nat> {
    set i | 0 <= i < |s| && s[i].Some?
  }

  /** The greatest used index below n, or -1. */
  ghost function TopUsed(s: Slots, n: int): (r: int)
    requires n <= |s|
    ensures -1 <= r && (0 <= n ==> r < n)
    ensures r >= 0 ==> r < n && s[r].Some?
    ensures forall i | r < i < n && 0 <= i :: s[i].None?
    decreases n
  {
    if n <= 0 then -1 else if s[n - 1].Some? then n - 1 else TopUsed(s, n - 1)
  }

  /** The least unused index from n on, or -1. */
  ghost function FirstFree(s: Slots, n: nat): (r: int)
    requires n <= |s|
    ensures r == -1 || (n <= r < |s| && s[r].None?)
    ensures forall i | n <= i < |s| && (r == -1 || i < r) :: s[i].Some?
    decreases |s| - n
  {
    if n == |s| then -1 else if s[n].None? then n else FirstFree(s, n + 1)
  }

  /** Slot i after the lazy expiry test. */
  function ExpireAt(s: Slots, i: int, now: nat): Slots {
    if Expired(s, i, now) then s[i := None] else s
  }

  /** All that lazy expiry ever does: it frees slots whose time is over. */
  ghost predicate Purged(s: Slots, s': Slots, now: nat) {
    && |s'| == |s|
    && forall i | 0 <= i < |s| :: s'[i] == s[i] || (Expired(s, i, now) && s'[i] == None)
  }

  /** The slots of 0..n-1 after every expired one of them has been freed. */
  ghost predicate SweptBelow(s: Slots, s': Slots, n: int, now: nat) {
    && |s'| == |s|
    && forall i | 0 <= i < |s| :: s'[i] == if i < n && Expired(s, i, now) then None else s[i]
  }

  lemma NothingSwept(s: Slots, now: nat)
    ensures SweptBelow(s, s, 0, now)
  {
  }

  /** Removing the last used slot, or another one, below a bound n: the top below n + 1 is the top below the old one. */
  lemma TopStays(s: Slots, s': Slots, ind: nat, n: int, now: nat)
    requires n < |s| && ind <= TopUsed(s, n + 1) && s' == ExpireAt(s, ind, now)
    ensures |s'| == |s| && TopUsed(s', n + 1) == TopUsed(s', TopUsed(s, n + 1) + 1)
  {
    var top := TopUsed(s', TopUsed(s, n + 1) + 1);
    TopUsedIs(s', n + 1, top);
  }

  lemma SweepAdvances(s: Slots, s1: Slots, s2: Slots, ind: nat, now: nat)
    requires SweptBelow(s, s1, ind, now) && s2 == ExpireAt(s1, ind, now)
    ensures SweptBelow(s, s2, ind + 1, now)
  {
  }

  lemma SweepEnds(s: Slots, s': Slots, top: int, lastUsed: int, ind: nat, now: nat)
    requires SweptBelow(s, s', ind, now) && top < |s| && lastUsed == TopUsed(s', top + 1) && lastUsed < ind <= top + 1
    ensures SweptBelow(s, s', top + 1, now) && Purged(s, s', now)
  {
    forall i | ind <= i <= top
      ensures s[i].None?
    {
      assert s'[i].None?;
    }
  }

  /** The abstract content of the list: the records that have not expired. */
  ghost function LiveRecords(s: Slots, now: nat): set<Record> {
    set i | 0 <= i < |s| && Live(s, i, now) :: s[i].value
  }

  ghost predicate UniqueAddresses(s: Slots) {
    forall i, j | 0 <= i < j < |s| && s[i].Some? && s[j].Some? :: s[i].value.address != s[j].value.address
  }

  /** The used slots that count against the quota of address a. */
  ghost function SamePublic(s: Slots, a: Address): set<nat> {
    set i | 0 <= i < |s| && s[i].Some? && PublicOf(s[i].value.address) == PublicOf(a)
  }

  ghost predicate WithinQuota(s: Slots, max: nat) {
    forall a: Address :: |SamePublic(s, a)| <= max
  }

  /** The used slots that the lookup of address a counts: those of its bucket with its public address. */
  ghost function Counted(s: Slots, hs: Hashing, a: Address): set<nat> {
    set i | 0 <= i < |s| && s[i].Some? && hs.bucket(s[i].value.address) == hs.bucket(a) &&
            PublicOf(s[i].value.address) == PublicOf(a)
  }

  /** No lookup counts more than max servers. */
  ghost predicate WithinCount(s: Slots, hs: Hashing, max: nat) {
    forall a: Address :: |Counted(s, hs, a)| <= max
  }

  /** Without hashed ports that is a quota for each public address, because its servers share a bucket. */
  lemma CountIsQuota(s: Slots, hashSize: nat, max: nat)
    requires WithinCount(s, HashingOf(false, hashSize), max)
    ensures WithinQuota(s, max)
  {
    var hs := HashingOf(false, hashSize);
    forall a: Address
      ensures |SamePublic(s, a)| <= max
    {
      forall i | i in SamePublic(s, a)
        ensures i in Counted(s, hs, a)
      {
        SamePublicSameBucket(s[i].value.address, a, hashSize);
      }
      SubsetSize(SamePublic(s, a), Counted(s, hs, a));
    }
  }

  /** Expiry does not change which records are live, now or later. */
  lemma PurgeIsInvisible(s: Slots, s': Slots, now: nat, later: nat)
    requires Purged(s, s', now) && now <= later
    ensures LiveRecords(s', later) == LiveRecords(s, later)
    ensures forall i :: Live(s', i, later) <==> Live(s, i, later)
  {
    forall r | r in LiveRecords(s, later)
      ensures r in LiveRecords(s', later)
    {
      var i :| 0 <= i < |s| && Live(s, i, later) && s[i].value == r;
      assert Live(s', i, later);
    }
    forall r | r in LiveRecords(s', later)
      ensures r in LiveRecords(s, later)
    {
      var i :| 0 <= i < |s'| && Live(s', i, later) && s'[i].value == r;
      assert Live(s, i, later);
    }
  }

  lemma PurgeKeepsUniqueness(s: Slots, s': Slots, now: nat)
    requires Purged(s, s', now) && UniqueAddresses(s)
    ensures UniqueAddresses(s')
  {
  }

  lemma SubsetSize<T>(a: set<T>, b: set<T>)
    requires a <= b
    ensures |a| <= |b|
  {
    if a != {} {
      var x :| x in a;
      SubsetSize(a - {x}, b - {x});
    }
  }

  lemma PurgeKeepsQuota(s: Slots, s': Slots, hs: Hashing, now: nat, max: nat)
    requires Purged(s, s', now) && WithinCount(s, hs, max)
    ensures WithinCount(s', hs, max)
  {
    forall a: Address
      ensures |Counted(s', hs, a)| <= max
    {
      PurgeCountsLess(s, s', hs, a, now);
    }
  }

  lemma PurgeCountsLess(s: Slots, s': Slots, hs: Hashing, a: Address, now: nat)
    requires Purged(s, s', now)
    ensures |Counted(s', hs, a)| <= |Counted(s, hs, a)|
  {
    SubsetSize(Counted(s', hs, a), Counted(s, hs, a));
  }

  lemma PurgeTransitive(s: Slots, s1: Slots, s2: Slots, now: nat)
    requires Purged(s, s1, now) && Purged(s1, s2, now)
    ensures Purged(s, s2, now)
  {
  }

  /** The list is full exactly when every slot is used. */
  lemma FullWhenAllUsed(s: Slots)
    ensures |UsedSet(s)| <= |s|
    ensures |UsedSet(s)| == |s| <==> FirstFree(s, 0) == -1
  {
    var all := Below(|s|);
    SubsetSize(UsedSet(s), all);
    if FirstFree(s, 0) == -1 {
      assert UsedSet(s) == all;
    } else {
      var f := FirstFree(s, 0);
      SubsetSize(UsedSet(s), all - {f});
    }
  }

  lemma FreeingOne(s: Slots, i: nat)
    requires i < |s| && s[i].Some?
    ensures UsedSet(s[i := None]) == UsedSet(s) - {i}
  {
  }

  lemma FillingOne(s: Slots, i: nat, r: Record)
    requires i < |s| && s[i].None?
    ensures UsedSet(s[i := Some(r)]) == UsedSet(s) + {i}
  {
  }

  /** The counters agree with the slots. `lastUsed` is a used slot or -1, but slots above it may be in use. */
  ghost predicate Consistent(s: Slots, nbServers: int, firstFree: int, lastUsed: int, crt: int, last: int) {
    && nbServers == |UsedSet(s)|
    && firstFree == FirstFree(s, 0)
    && -1 <= lastUsed < |s| && lastUsed == TopUsed(s, lastUsed + 1)
    && -1 <= crt <= lastUsed && -1 <= last <= lastUsed && (crt == -1 <==> last == -1)
  }

  /** `lastUsed` is the greatest used slot. */
  ghost predicate Exact(s: Slots, lastUsed: int) {
    lastUsed == TopUsed(s, |s|)
  }

  lemma TopUsedIs(s: Slots, n: nat, r: int)
    requires n <= |s| && -1 <= r < n && (r >= 0 ==> s[r].Some?)
    requires forall i | r < i < n && 0 <= i :: s[i].None?
    ensures TopUsed(s, n) == r
  {
  }

  lemma FirstFreeIs(s: Slots, n: nat, r: int)
    requires n <= |s| && (r == -1 || (n <= r < |s| && s[r].None?))
    requires forall i | n <= i < |s| && (r == -1 || i < r) :: s[i].Some?
    ensures FirstFree(s, n) == r
  {
  }

  /** The updates made by Sv_Remove keep the counters right, and keep lastUsed exact if it was. */
  lemma RemoveKeepsConsistent(s: Slots, i: nat, nb: int, firstFree: int, lastUsed: int, crt: int, last: int, lastUsed': int)
    requires Consistent(s, nb, firstFree, lastUsed, crt, last) && i < |s| && s[i].Some?
    requires lastUsed' == if lastUsed == i then TopUsed(s[i := None], i) else lastUsed
    ensures Consistent(s[i := None], nb - 1, if firstFree == -1 || i < firstFree then i else firstFree,
                       lastUsed', Min(crt, lastUsed'), Min(last, lastUsed'))
    ensures Exact(s, lastUsed) ==> Exact(s[i := None], lastUsed')
  {
    var s' := s[i := None];
    FreeingOne(s, i);
    FirstFreeIs(s', 0, if firstFree == -1 || i < firstFree then i else firstFree);
    TopUsedIs(s', lastUsed' + 1, lastUsed');
    if Exact(s, lastUsed) {
      TopUsedIs(s', |s|, lastUsed');
    }
  }

  /** New contents of a used slot leave the counters right. */
  lemma UpdateKeepsConsistent(s: Slots, i: nat, r: Record, nb: int, firstFree: int, lastUsed: int, crt: int, last: int)
    requires Consistent(s, nb, firstFree, lastUsed, crt, last) && i < |s| && s[i].Some?
    ensures Consistent(s[i := Some(r)], nb, firstFree, lastUsed, crt, last)
    ensures Exact(s, lastUsed) <==> Exact(s[i := Some(r)], lastUsed)
  {
    var s' := s[i := Some(r)];
    assert UsedSet(s') == UsedSet(s);
    FirstFreeIs(s', 0, firstFree);
    TopUsedIs(s', lastUsed + 1, lastUsed);
    TopUsedIs(s', |s|, TopUsed(s, |s|));
  }

  lemma UpdateKeepsContent(s: Slots, i: nat, r: Record, hs: Hashing, max: nat)
    requires UniqueAddresses(s) && i < |s| && s[i].Some? && s[i].value.address == r.address
    ensures UniqueAddresses(s[i := Some(r)]) && UsedSet(s[i := Some(r)]) == UsedSet(s)
    ensures WithinCount(s, hs, max) ==> WithinCount(s[i := Some(r)], hs, max)
  {
    var s' := s[i := Some(r)];
    if WithinCount(s, hs, max) {
      forall a: Address
        ensures |Counted(s', hs, a)| <= max
      {
        assert Counted(s', hs, a) == Counted(s, hs, a);
      }
    }
  }

  /** The assertions in the source about the counters, which hold whenever lastUsed is exact. */
  lemma AssertionsHold(s: Slots, nb: int, firstFree: int, lastUsed: int, crt: int, last: int)
    requires Consistent(s, nb, firstFree, lastUsed, crt, last) && Exact(s, lastUsed)
    ensures forall i | 0 <= i < |s| && s[i].Some? :: i <= lastUsed
    ensures lastUsed >= nb - 1
    ensures nb == |s| ==> lastUsed == |s| - 1 && firstFree == -1
    ensures nb < |s| ==> firstFree != -1
    ensures nb > 0 ==> lastUsed >= 0
  {
    assert UsedSet(s) <= Below(lastUsed + 1);
    SubsetSize(UsedSet(s), Below(lastUsed + 1));
    FullWhenAllUsed(s);
  }

  /** What the assertions need in the middle of an addition too, where the new slot is not used yet: the count is right,
      and no used slot is above lastUsed. */
  ghost predicate Topped(s: Slots, nb: int, lastUsed: int) {
    nb == |UsedSet(s)| && forall i | 0 <= i < |s| && s[i].Some? :: i <= lastUsed
  }

  lemma ExactIsTopped(s: Slots, nb: int, firstFree: int, lastUsed: int, crt: int, last: int)
    requires Consistent(s, nb, firstFree, lastUsed, crt, last) && Exact(s, lastUsed)
    ensures Topped(s, nb, lastUsed)
  {
  }

  /** The three assertions of Sv_Remove. */
  lemma RemovalAssertionsHold(s: Slots, i: nat, nb: int, lastUsed: int, lastUsed': int)
    requires Topped(s, nb, lastUsed) && -1 <= lastUsed < |s| && i < |s| && s[i].Some?
    requires lastUsed' == if lastUsed == i then TopUsed(s[i := None], i) else lastUsed
    ensures 0 <= i <= lastUsed
    ensures Topped(s[i := None], nb - 1, lastUsed') && lastUsed' >= nb - 1 - 1
  {
    var s' := s[i := None];
    FreeingOne(s, i);
    forall j | 0 <= j < |s'| && s'[j].Some?
      ensures j <= lastUsed'
    {
      assert s[j].Some? && j <= lastUsed;
    }
    assert UsedSet(s') <= Below(lastUsed' + 1);
    SubsetSize(UsedSet(s'), Below(lastUsed' + 1));
  }

  lemma EmptyIsConsistent(s: Slots)
    requires |s| > 0 && forall i | 0 <= i < |s| :: s[i] == None
    ensures Consistent(s, 0, 0, -1, -1, -1) && Exact(s, -1)
    ensures UniqueAddresses(s) && UsedSet(s) == {}
    ensures forall hs: Hashing, max: nat :: WithinCount(s, hs, max)
  {
    assert UsedSet(s) == {};
    TopUsedIs(s, |s|, -1);
    forall hs: Hashing, a: Address
      ensures Counted(s, hs, a) == {}
    {
    }
  }

  lemma NothingUsed(s: Slots, lastUsed: int)
    requires UsedSet(s) == {} && -1 <= lastUsed < |s| && lastUsed == TopUsed(s, lastUsed + 1)
    ensures lastUsed == -1
  {
    assert lastUsed >= 0 ==> lastUsed in UsedSet(s);
  }

  /** The same for a whole expiry test, which may find nothing to remove. */
  lemma ExpireKeepsConsistent(s: Slots, i: nat, now: nat, nb: int, firstFree: int, lastUsed: int, crt: int, last: int,
                              nb': int, firstFree': int, lastUsed': int, crt': int, last': int)
    requires Consistent(s, nb, firstFree, lastUsed, crt, last) && i < |s|
    requires !Expired(s, i, now) ==> nb' == nb && firstFree' == firstFree && lastUsed' == lastUsed && crt' == crt && last' == last
    requires Expired(s, i, now) ==>
      && nb' == nb - 1
      && firstFree' == (if firstFree == -1 || i < firstFree then i else firstFree)
      && lastUsed' == (if lastUsed == i then TopUsed(s[i := None], i) else lastUsed)
      && crt' == Min(crt, lastUsed') && last' == Min(last, lastUsed')
    ensures Consistent(ExpireAt(s, i, now), nb', firstFree', lastUsed', crt', last')
    ensures Purged(s, ExpireAt(s, i, now), now)
    ensures lastUsed' == TopUsed(ExpireAt(s, i, now), lastUsed + 1)
    ensures crt' == Min(crt, lastUsed') && last' == Min(last, lastUsed')
    ensures Exact(s, lastUsed) ==> Exact(ExpireAt(s, i, now), lastUsed')
  {
    if Expired(s, i, now) {
      RemoveKeepsConsistent(s, i, nb, firstFree, lastUsed, crt, last, lastUsed');
      TopUsedIs(s[i := None], lastUsed + 1, lastUsed');
    }
  }

  // ----- The walk along one chain

  ghost predicate Absent(s: Slots, a: Address) {
    forall i | 0 <= i < |s| && s[i].Some? :: s[i].value.address != a
  }

  /** Slot i is used and belongs to bucket b, or it is the -1 at the end of a chain. */
  ghost predicate InBucket(s: Slots, hs: Hashing, b: Bucket, i: int) {
    i == -1 || (0 <= i < |s| && s[i].Some? && hs.bucket(s[i].value.address) == b)
  }

  /** The used slots of bucket b in front of slot i; all of them when i is the -1 at the end. */
  ghost function Passed(s: Slots, rank: seq<nat>, hs: Hashing, b: Bucket, i: int): set<nat>
    requires |rank| == |s|
  {
    set j | 0 <= j < |s| && s[j].Some? && hs.bucket(s[j].value.address) == b && (0 <= i < |s| ==> rank[j] > rank[i])
  }

  /** The walk has reached slot i: what it passed is live and is not the address, and `count` of it is near the address. */
  ghost predicate Searched(s: Slots, rank: seq<nat>, hs: Hashing, b: Bucket, i: int, a: Address, now: nat, count: nat) {
    && |rank| == |s| && b == hs.bucket(a)
    && (forall j | j in Passed(s, rank, hs, b, i) :: Live(s, j, now) && s[j].value.address != a)
    && count == |Counted(s, hs, a) * Passed(s, rank, hs, b, i)|
  }

  /** The list after a walk along the whole chain of address a: what has expired there is gone, and nothing else. */
  ghost function Walked(s: Slots, hs: Hashing, a: Address, now: nat): (r: Slots)
    ensures |r| == |s|
    ensures forall i | 0 <= i < |s| ::
      r[i] == if Expired(s, i, now) && hs.bucket(s[i].value.address) == hs.bucket(a) then None else s[i]
  {
    seq(|s|, i requires 0 <= i < |s| =>
      if Expired(s, i, now) && hs.bucket(s[i].value.address) == hs.bucket(a) then None else s[i])
  }

  /** The walk along bucket b has come to slot i, from list s0 to list s. */
  ghost predicate WalkedTo(s0: Slots, s: Slots, rank: seq<nat>, hs: Hashing, b: Bucket, i: int, now: nat) {
    && |rank| == |s| == |s0|
    && forall j | 0 <= j < |s0| ::
         s[j] == if Expired(s0, j, now) && hs.bucket(s0[j].value.address) == b && (0 <= i < |rank| ==> rank[j] > rank[i])
                 then None else s0[j]
  }

  lemma WalkedNothing(s: Slots, rank: seq<nat>, hs: Hashing, b: Bucket, i: int, now: nat)
    requires |rank| == |s| && Passed(s, rank, hs, b, i) == {}
    ensures WalkedTo(s, s, rank, hs, b, i, now)
  {
    forall j | 0 <= j < |s| && Expired(s, j, now) && hs.bucket(s[j].value.address) == b
      ensures 0 <= i < |rank| && rank[j] <= rank[i]
    {
      assert j !in Passed(s, rank, hs, b, i);
    }
  }

  lemma SearchStarts(s: Slots, rank: seq<nat>, hs: Hashing, i: int, a: Address, now: nat)
    requires |rank| == |s| && Passed(s, rank, hs, hs.bucket(a), i) == {}
    ensures Searched(s, rank, hs, hs.bucket(a), i, a, now, 0)
    ensures WalkedTo(s, s, rank, hs, hs.bucket(a), i, now)
  {
    assert Counted(s, hs, a) * {} == {};
    WalkedNothing(s, rank, hs, hs.bucket(a), i, now);
  }

  lemma WalkedOn(s0: Slots, s: Slots, rank: seq<nat>, hs: Hashing, b: Bucket, i: nat, next: int, now: nat)
    requires WalkedTo(s0, s, rank, hs, b, i, now) && i < |s| && InBucket(s, hs, b, i)
    requires Passed(s, rank, hs, b, next) == Passed(s, rank, hs, b, i) + {i}
    requires next == -1 || (0 <= next < |s| && rank[next] < rank[i])
    ensures WalkedTo(s0, ExpireAt(s, i, now), rank, hs, b, next, now)
  {
    var s' := ExpireAt(s, i, now);
    forall j | 0 <= j < |s0|
      ensures s'[j] == if Expired(s0, j, now) && hs.bucket(s0[j].value.address) == b && (0 <= next < |rank| ==> rank[j] > rank[next])
                       then None else s0[j]
    {
      if s[j].Some? && hs.bucket(s[j].value.address) == b && j != i {
        assert j in Passed(s, rank, hs, b, next) <==> j in Passed(s, rank, hs, b, i);
      }
    }
  }

  lemma WalkedAll(s0: Slots, s: Slots, rank: seq<nat>, hs: Hashing, a: Address, now: nat)
    requires WalkedTo(s0, s, rank, hs, hs.bucket(a), -1, now)
    ensures s == Walked(s0, hs, a, now)
  {
  }

  lemma WalkStarts(st: Store, rank: seq<nat>, hs: Hashing, b: Bucket)
    requires Linked(st, UsedSet(View(st.servers)), rank, hs) && HasCell(st, HeadOf(b))
    ensures InBucket(View(st.servers), hs, b, Read(st, HeadOf(b)))
    ensures Passed(View(st.servers), rank, hs, b, Read(st, HeadOf(b))) == {}
  {
    var m := UsedSet(View(st.servers));
    assert TableEntry(st, m, hs, b);
    forall j | j in m && Home(st, hs, j) == b
      ensures j !in Passed(View(st.servers), rank, hs, b, Read(st, HeadOf(b)))
    {
      assert Anchored(st, rank, hs, j);
    }
  }

  lemma WalkAdvances(st: Store, rank: seq<nat>, hs: Hashing, b: Bucket, i: nat)
    requires Linked(st, UsedSet(View(st.servers)), rank, hs)
    requires InBucket(View(st.servers), hs, b, i)
    ensures var s, next := View(st.servers), st.servers[i].next;
      && InBucket(s, hs, b, next) && next != i
      && Passed(s, rank, hs, b, next) == Passed(s, rank, hs, b, i) + {i}
      && (next != -1 ==> rank[next] < rank[i])
  {
    var m, s, next := UsedSet(View(st.servers)), View(st.servers), st.servers[i].next;
    assert ForwardLink(st, m, rank, hs, i);
    forall j | j in m && Home(st, hs, j) == b && j != i
      ensures j in Passed(s, rank, hs, b, next) <==> j in Passed(s, rank, hs, b, i)
    {
      assert InOrder(st, rank, i, j);
    }
  }

  /** The slot at position i expires: the walk has nothing new behind it. */
  lemma SearchDropsOne(s: Slots, rank: seq<nat>, hs: Hashing, b: Bucket, i: nat, next: int, a: Address, now: nat)
    requires |rank| == |s| && InBucket(s, hs, b, i) && Expired(s, i, now) && next != i
    requires Passed(s, rank, hs, b, next) == Passed(s, rank, hs, b, i) + {i}
    requires i !in Passed(s, rank, hs, b, i)
    ensures var s' := s[i := None];
      Passed(s', rank, hs, b, next) == Passed(s, rank, hs, b, i) &&
      Counted(s', hs, a) * Passed(s', rank, hs, b, next) == Counted(s, hs, a) * Passed(s, rank, hs, b, i)
  {
    var s' := s[i := None];
    var passed, passed', next' := Passed(s, rank, hs, b, i), Passed(s', rank, hs, b, next), Passed(s, rank, hs, b, next);
    assert passed' == next' - {i};
    assert Counted(s', hs, a) == Counted(s, hs, a) - {i};
  }

  lemma OneMore<T>(near: set<T>, passed: set<T>, i: T)
    requires i !in passed
    ensures |near * (passed + {i})| == |near * passed| + if i in near then 1 else 0
  {
    if i in near {
      assert near * (passed + {i}) == near * passed + {i};
    } else {
      assert near * (passed + {i}) == near * passed;
    }
  }

  /** The slot at position i is live: it is behind the walk now, and it counts if it is near the address. */
  lemma SearchKeepsOne(s: Slots, rank: seq<nat>, hs: Hashing, b: Bucket, i: nat, next: int, a: Address, now: nat, count: nat)
    requires |rank| == |s| && InBucket(s, hs, b, i) && Live(s, i, now) && s[i].value.address != a
    requires Passed(s, rank, hs, b, next) == Passed(s, rank, hs, b, i) + {i} && i !in Passed(s, rank, hs, b, i)
    requires Searched(s, rank, hs, b, i, a, now, count)
    ensures Searched(s, rank, hs, b, next, a, now, count + if PublicOf(s[i].value.address) == PublicOf(a) then 1 else 0)
  {
    hide Passed;
    assert i in Counted(s, hs, a) <==> PublicOf(s[i].value.address) == PublicOf(a);
    hide Counted;
    OneMore(Counted(s, hs, a), Passed(s, rank, hs, b, i), i);
  }

  lemma SearchContinues(s: Slots, rank: seq<nat>, hs: Hashing, b: Bucket, i: nat, next: int, a: Address, now: nat, count: nat)
    requires |rank| == |s| && InBucket(s, hs, b, i) && InBucket(s, hs, b, next) && next != i
    requires Passed(s, rank, hs, b, next) == Passed(s, rank, hs, b, i) + {i}
    requires var hit := Live(s, i, now) && PublicOf(s[i].value.address) == PublicOf(a);
      count >= (if hit then 1 else 0) && Searched(s, rank, hs, b, i, a, now, if hit then count - 1 else count)
    requires Live(s, i, now) ==> s[i].value.address != a
    ensures InBucket(ExpireAt(s, i, now), hs, b, next)
    ensures Searched(ExpireAt(s, i, now), rank, hs, b, next, a, now, count)
  {
    assert i !in Passed(s, rank, hs, b, i);
    if Expired(s, i, now) {
      hide Counted;
      SearchDropsOne(s, rank, hs, b, i, next, a, now);
    } else {
      hide Searched, Passed, Counted;
      var hit := PublicOf(s[i].value.address) == PublicOf(a);
      SearchKeepsOne(s, rank, hs, b, i, next, a, now, if hit then count - 1 else count);
    }
  }

  lemma SearchEnds(s: Slots, rank: seq<nat>, hs: Hashing, a: Address, now: nat, count: nat)
    requires Searched(s, rank, hs, hs.bucket(a), -1, a, now, count)
    ensures count == |Counted(s, hs, a)|
    ensures forall i | i in Counted(s, hs, a) :: Live(s, i, now)
    ensures Absent(s, a)
  {
    assert Counted(s, hs, a) <= Passed(s, rank, hs, hs.bucket(a), -1);
    assert Counted(s, hs, a) * Passed(s, rank, hs, hs.bucket(a), -1) == Counted(s, hs, a);
    forall i | 0 <= i < |s| && s[i].Some?
      ensures s[i].value.address != a
    {
      if hs.bucket(s[i].value.address) == hs.bucket(a) {
        assert i in Passed(s, rank, hs, hs.bucket(a), -1);
      }
    }
  }

  // ----- Adding a server

  // Seconds a newly added server may stay without answering.
  const TIMEOUT_HEARTBEAT := 2

  /** The record of a server that has just been added. */
  function Fresh(a: Address, mapping: Option<Address>, timeout: nat): Record {
    Record(a, mapping, timeout, 0, 0, Uninitialized, "", "", "", "", "")
  }

  /** The free slot search of Sv_GetByAddr stopped at slot `stop`; the slots from f + 1 up to it are live. */
  ghost predicate ScanStops(s: Slots, f: nat, stop: nat, now: nat) {
    && f < stop <= |s|
    && (forall j | f < j < stop :: Live(s, j, now))
    && (stop < |s| ==> !Live(s, stop, now))
  }

  /** The first slot from k on that is not live. */
  ghost function NextDead(s: Slots, k: nat, now: nat): (r: nat)
    requires k <= |s|
    ensures k <= r <= |s|
    decreases |s| - k
  {
    if k == |s| || !Live(s, k, now) then k else NextDead(s, k + 1, now)
  }

  lemma {:induction false} ScanEnd(s: Slots, k: nat, stop: nat, now: nat)
    requires k <= stop <= |s| && (forall j | k <= j < stop :: Live(s, j, now)) && (stop < |s| ==> !Live(s, stop, now))
    ensures NextDead(s, k, now) == stop
    decreases stop - k
  {
    if k < stop {
      ScanEnd(s, k + 1, stop, now);
    }
  }

  /** The list after a record has been put into the free slot f and the scan behind it has removed what it stopped at. */
  ghost function Placed(s: Slots, f: nat, r: Record, now: nat): Slots
    requires f < |s|
  {
    ExpireAt(s, NextDead(s, f + 1, now), now)[f := Some(r)]
  }

  lemma ScanPlaces(s: Slots, f: nat, stop: nat, r: Record, now: nat)
    requires f < |s| && ScanStops(s, f, stop, now)
    ensures Placed(s, f, r, now) == ExpireAt(s, stop, now)[f := Some(r)]
  {
    ScanEnd(s, f + 1, stop, now);
  }

  /** The list after a sweep of its first n slots. */
  ghost function Swept(s: Slots, n: int, now: nat): (r: Slots)
    ensures |r| == |s| && forall i | 0 <= i < |s| :: r[i] == if i < n && Expired(s, i, now) then None else s[i]
  {
    seq(|s|, i requires 0 <= i < |s| => if i < n && Expired(s, i, now) then None else s[i])
  }

  /** A list without a free slot is swept, as far as lastUsed, before something is put into it. */
  ghost function Room(s: Slots, lastUsed: int, now: nat): (r: Slots)
    ensures |r| == |s| && Purged(s, r, now)
  {
    if FirstFree(s, 0) >= 0 then s else Swept(s, lastUsed + 1, now)
  }

  lemma SweepIs(s: Slots, s': Slots, n: int, now: nat)
    requires SweptBelow(s, s', n, now)
    ensures s' == Swept(s, n, now)
  {
  }

  /** If the sweep of a full list frees nothing, it changes nothing. */
  lemma NoRoom(s: Slots, lastUsed: int, now: nat)
    requires FirstFree(Room(s, lastUsed, now), 0) == -1
    ensures Room(s, lastUsed, now) == s
  {
    var r := Room(s, lastUsed, now);
    forall i | 0 <= i < |s|
      ensures r[i] == s[i]
    {
      assert r[i].Some?;
    }
  }

  /** No slot has come into use. */
  ghost predicate Freed(s: Slots, s': Slots) {
    |s'| == |s| && forall i | 0 <= i < |s| && s'[i].Some? :: s[i].Some?
  }

  /** Once slots are freed lastUsed is the greatest used slot up to where it was; seen over two such steps too. */
  lemma LoweredTwice(s1: Slots, s2: Slots, top: int)
    requires Freed(s1, s2) && -1 <= top < |s1|
    ensures TopUsed(s1, top + 1) < |s2| && TopUsed(s2, TopUsed(s1, top + 1) + 1) == TopUsed(s2, top + 1)
  {
    TopUsedIs(s2, top + 1, TopUsed(s2, TopUsed(s1, top + 1) + 1));
  }

  /** Up to any bound the greatest used slot is the same. */
  ghost predicate SameTops(s: Slots, s': Slots) {
    |s'| == |s| && forall n | 0 <= n <= |s| :: TopUsed(s', n) == TopUsed(s, n)
  }

  lemma SameTop(s: Slots, i: nat, r: Record)
    requires i < |s| && s[i].Some?
    ensures SameTops(s, s[i := Some(r)])
  {
    forall n | 0 <= n <= |s|
      ensures TopUsed(s[i := Some(r)], n) == TopUsed(s, n)
    {
      TopUsedIs(s[i := Some(r)], n, TopUsed(s, n));
    }
  }

  /** The one case in which the scan leaves lastUsed wrong: the slot after the free one is the last used, and it has expired. */
  ghost predicate Corner(s: Slots, f: int, lastUsed: int, now: nat) {
    lastUsed == f + 1 && Expired(s, f + 1, now)
  }

  /** The same for the list that an addition begins with: a full one is swept, so that nothing expired is left to scan. */
  ghost predicate CornerIn(s: Slots, now: nat) {
    var f := FirstFree(s, 0);
    f >= 0 && Corner(s, f, TopUsed(s, |s|), now)
  }

  lemma CornerIs(s: Slots, f: int, lastUsed: int, now: nat)
    requires f == FirstFree(s, 0) && f >= 0 && Exact(s, lastUsed)
    ensures CornerIn(s, now) <==> Corner(s, f, lastUsed, now)
  {
  }

  lemma NoCornerInRoom(s: Slots, lastUsed: int, now: nat)
    requires Exact(s, lastUsed)
    ensures CornerIn(Room(s, lastUsed, now), now) <==> CornerIn(s, now)
  {
    if FirstFree(s, 0) == -1 {
      var r := Swept(s, lastUsed + 1, now);
      assert forall i :: !Expired(r, i, now);
    }
  }

  /** When lastUsed is the greatest used slot after an addition to any valid list: if it was before, the corner must not be
      met; if slots above it were used, the free slot has to be above them all, or the scan removes the one used slot that
      would still be above it. */
  ghost predicate Mended(s: Slots, f: nat, lastUsed: int, now: nat)
    requires f < |s|
  {
    var top := TopUsed(s, |s|);
    if lastUsed == top then !Corner(s, f, lastUsed, now)
    else f > top || (NextDead(s, f + 1, now) == top && Expired(s, top, now) && Max(lastUsed, f) == top - 1)
  }

  /** When it is after a removal: the removed slot was the only one above it. */
  lemma RemovalMends(s: Slots, i: nat, lastUsed: int, lastUsed': int)
    requires i < |s| && s[i].Some? && -1 <= lastUsed < |s| && lastUsed == TopUsed(s, lastUsed + 1)
    requires lastUsed' == if lastUsed == i then TopUsed(s[i := None], i) else lastUsed
    ensures Exact(s[i := None], lastUsed') <==> Exact(s, lastUsed) || (i == TopUsed(s, |s|) && lastUsed == TopUsed(s, i))
    ensures lastUsed' == TopUsed(s[i := None], lastUsed + 1)
  {
    var s', top := s[i := None], TopUsed(s, |s|);
    TopUsedIs(s', lastUsed + 1, lastUsed');
    if lastUsed == top {
      TopUsedIs(s', |s|, lastUsed');
    } else if i == top {
      assert s'[..i] == s[..i];
      TopUsedIs(s', i, TopUsed(s, i));
      TopUsedIs(s', |s|, TopUsed(s, i));
    } else {
      assert top > lastUsed && s'[top].Some?;
      TopUsedIs(s', |s|, top);
    }
  }

  /** The counters once slot f is filled and the scan has stopped. */
  ghost predicate Allocated(s: Slots, f: nat, stop: nat, r: Record, now: nat, lastUsed: int, s': Slots, lastUsed': int) {
    && Consistent(s, |UsedSet(s)|, f, lastUsed, -1, -1) && ScanStops(s, f, stop, now)
    && s' == ExpireAt(s, stop, now)[f := Some(r)]
    && var top := Max(lastUsed, f);
      lastUsed' == if Expired(s, stop, now) && top == stop then TopUsed(s[stop := None], stop) else top
  }

  lemma AllocateCount(s: Slots, f: nat, stop: nat, r: Record, now: nat)
    requires f < |s| && s[f].None? && ScanStops(s, f, stop, now)
    ensures |UsedSet(ExpireAt(s, stop, now)[f := Some(r)])| == |UsedSet(s)| + if Expired(s, stop, now) then 0 else 1
  {
    if Expired(s, stop, now) {
      FreeingOne(s, stop);
    }
    FillingOne(ExpireAt(s, stop, now), f, r);
  }

  lemma AllocateFirstFree(s: Slots, f: nat, stop: nat, r: Record, now: nat)
    requires f == FirstFree(s, 0) && ScanStops(s, f, stop, now)
    ensures FirstFree(ExpireAt(s, stop, now)[f := Some(r)], 0) == if stop == |s| then -1 else stop
  {
    var s' := ExpireAt(s, stop, now)[f := Some(r)];
    forall i | 0 <= i < stop
      ensures s'[i].Some?
    {
      assert i < f ==> s[i].Some?;
      assert f < i ==> Live(s, i, now);
    }
    FirstFreeIs(s', 0, if stop == |s| then -1 else stop);
  }

  lemma AllocateLastUsed(s: Slots, f: nat, stop: nat, r: Record, now: nat, lastUsed: int, s': Slots, lastUsed': int)
    requires Allocated(s, f, stop, r, now, lastUsed, s', lastUsed')
    ensures -1 <= lastUsed' < |s| && TopUsed(s', lastUsed' + 1) == lastUsed'
    ensures Corner(s, f, lastUsed, now) ==> lastUsed' == f - 1 && !Exact(s', lastUsed')
  {
    TopUsedIs(s', lastUsed' + 1, lastUsed');
    if Corner(s, f, lastUsed, now) {
      assert !Live(s, f + 1, now) && stop == f + 1;
      assert forall i | 0 <= i < f :: s[i].Some?;
      TopUsedIs(s[stop := None], stop, f - 1);
      assert s'[f].Some?;
    }
  }

  lemma AllocateExact(s: Slots, f: nat, stop: nat, r: Record, now: nat, lastUsed: int, s': Slots, lastUsed': int)
    requires Allocated(s, f, stop, r, now, lastUsed, s', lastUsed')
    requires Exact(s, lastUsed) && !Corner(s, f, lastUsed, now)
    ensures Exact(s', lastUsed')
  {
    if Expired(s, stop, now) && lastUsed == stop {
      assert stop - 1 > f && Live(s, stop - 1, now);
      assert s[stop := None][stop - 1].Some?;
    }
    TopUsedIs(s', |s|, lastUsed');
  }

  lemma AllocateMends(s: Slots, f: nat, stop: nat, r: Record, now: nat, lastUsed: int, s': Slots, lastUsed': int)
    requires Allocated(s, f, stop, r, now, lastUsed, s', lastUsed')
    ensures Exact(s', lastUsed') <==> Mended(s, f, lastUsed, now)
  {
    var top := TopUsed(s, |s|);
    ScanEnd(s, f + 1, stop, now);
    if lastUsed == top {
      AllocateLastUsed(s, f, stop, r, now, lastUsed, s', lastUsed');
      if !Corner(s, f, lastUsed, now) {
        AllocateExact(s, f, stop, r, now, lastUsed, s', lastUsed');
      }
    } else if f > top {
      TopUsedIs(s', |s|, f);
    } else if stop == top && Expired(s, top, now) {
      assert top - 1 > f ==> Live(s, top - 1, now);
      TopUsedIs(s', |s|, top - 1);
    } else {
      assert s'[top].Some?;
      TopUsedIs(s', |s|, top);
    }
  }

  lemma AllocateKeepsConsistent(s: Slots, f: nat, stop: nat, r: Record, now: nat, nb: int, lastUsed: int, crt: int, last: int,
                                s': Slots, nb': int, free': int, lastUsed': int, crt': int, last': int)
    requires Consistent(s, nb, f, lastUsed, crt, last) && ScanStops(s, f, stop, now)
    requires s' == ExpireAt(s, stop, now)[f := Some(r)]
    requires nb' == if Expired(s, stop, now) then nb else nb + 1
    requires free' == if stop == |s| then -1 else stop
    requires var top := Max(lastUsed, f);
      lastUsed' == if Expired(s, stop, now) && top == stop then TopUsed(s[stop := None], stop) else top
    requires if Expired(s, stop, now)
             then crt' == Min(crt, lastUsed') && last' == Min(last, lastUsed') else crt' == crt && last' == last
    ensures Consistent(s', nb', free', lastUsed', crt', last')
    ensures Exact(s, lastUsed) ==> (Exact(s', lastUsed') <==> !Corner(s, f, lastUsed, now))
    ensures Corner(s, f, lastUsed, now) ==> lastUsed' == f - 1
    ensures Exact(s, lastUsed) && Corner(s, f, lastUsed, now) ==>
      forall i | 0 <= i < |s| :: s'[i].Some? <==> i <= f
  {
    AllocateCount(s, f, stop, r, now);
    AllocateFirstFree(s, f, stop, r, now);
    AllocateLastUsed(s, f, stop, r, now, lastUsed, s', lastUsed');
    if Exact(s, lastUsed) && !Corner(s, f, lastUsed, now) {
      AllocateExact(s, f, stop, r, now, lastUsed, s', lastUsed');
    }
    assert Corner(s, f, lastUsed, now) ==> !Live(s, f + 1, now) && stop == f + 1;
  }

  lemma AddKeepsUniqueness(s: Slots, f: nat, r: Record)
    requires UniqueAddresses(s) && f < |s| && Absent(s, r.address)
    ensures UniqueAddresses(s[f := Some(r)])
  {
  }

  lemma AddKeepsQuota(s: Slots, f: nat, r: Record, hs: Hashing, max: nat)
    requires WithinCount(s, hs, max) && f < |s| && |Counted(s, hs, r.address)| < max
    ensures WithinCount(s[f := Some(r)], hs, max)
  {
    var s' := s[f := Some(r)];
    forall a: Address
      ensures |Counted(s', hs, a)| <= max
    {
      if PublicOf(a) == PublicOf(r.address) && hs.bucket(a) == hs.bucket(r.address) {
        assert Counted(s, hs, a) == Counted(s, hs, r.address);
        SubsetSize(Counted(s', hs, a), Counted(s, hs, a) + {f});
      } else {
        SubsetSize(Counted(s', hs, a), Counted(s, hs, a));
      }
    }
  }

  lemma AllocateKeepsContent(s: Slots, f: nat, stop: nat, r: Record, now: nat)
    requires UniqueAddresses(s) && f < |s| && s[f].None? && Absent(s, r.address)
    ensures var s' := ExpireAt(s, stop, now)[f := Some(r)]; Purged(s, s'[f := None], now) && UniqueAddresses(s')
  {
    var s1 := ExpireAt(s, stop, now);
    assert Purged(s, s1, now);
    PurgeKeepsUniqueness(s, s1, now);
    AddKeepsUniqueness(s1, f, r);
  }

  lemma AllocateKeepsQuota(s: Slots, f: nat, stop: nat, r: Record, hs: Hashing, now: nat, max: nat)
    requires WithinCount(s, hs, max) && f < |s| && s[f].None? && |Counted(s, hs, r.address)| < max
    ensures WithinCount(ExpireAt(s, stop, now)[f := Some(r)], hs, max)
  {
    var s1 := ExpireAt(s, stop, now);
    assert Purged(s, s1, now);
    PurgeKeepsQuota(s, s1, hs, now, max);
    SubsetSize(Counted(s1, hs, r.address), Counted(s, hs, r.address));
    AddKeepsQuota(s1, f, r, hs, max);
  }

  // ----- Lookup and refusal

  /** Slot i is the live server of address a. */
  predicate Holder(s: Slots, a: Address, now: nat, i: int) {
    Live(s, i, now) && s[i].value.address == a
  }

  ghost predicate Known(s: Slots, a: Address, now: nat) {
    exists i :: Holder(s, a, now, i)
  }

  ghost predicate AllLive(s: Slots, now: nat) {
    forall i | 0 <= i < |s| :: Live(s, i, now)
  }

  /** The live servers that count against address a. */
  ghost function CountedLive(s: Slots, hs: Hashing, a: Address, now: nat): set<nat> {
    set i | i in Counted(s, hs, a) && Live(s, i, now)
  }

  /** Address a was not known, and it has been added in slot i; otherwise only expired servers went. */
  ghost predicate Added(s: Slots, s': Slots, a: Address, mapping: Option<Address>, now: nat, timeout: nat, i: int) {
    && |s'| == |s| && 0 <= i < |s| && !Live(s, i, now) && !Known(s, a, now)
    && s'[i] == Some(Fresh(a, mapping, timeout)) && Purged(s, s'[i := None], now) && Absent(s'[i := None], a)
  }

  /** An addition after a purge, seen from before the purge. */
  lemma AddedAfterPurge(s: Slots, s1: Slots, s': Slots, a: Address, mapping: Option<Address>, now: nat, timeout: nat, i: nat)
    requires Purged(s, s1, now) && !Known(s, a, now) && Absent(s1, a)
    requires |s1| == |s'| && i < |s'| && s'[i] == Some(Fresh(a, mapping, timeout)) && s1[i].None?
    requires Purged(s1, s'[i := None], now)
    ensures Added(s, s', a, mapping, now, timeout, i)
  {
    PurgeTransitive(s, s1, s'[i := None], now);
    assert !Live(s, i, now);
  }

  lemma HitIsHolder(s: Slots, s': Slots, a: Address, now: nat, i: int)
    requires Purged(s, s', now) && UniqueAddresses(s) && Holder(s', a, now, i)
    ensures forall j :: Holder(s, a, now, j) <==> j == i
  {
    assert Holder(s, a, now, i);
  }

  lemma MissIsUnknown(s: Slots, s': Slots, hs: Hashing, a: Address, now: nat)
    requires Purged(s, s', now) && Absent(s', a)
    requires forall i | i in Counted(s', hs, a) :: Live(s', i, now)
    ensures !Known(s, a, now)
    ensures Counted(s', hs, a) == CountedLive(s, hs, a, now)
  {
    PurgeIsInvisible(s, s', now, now);
    forall i
      ensures !Holder(s, a, now, i)
    {
      assert Live(s, i, now) ==> s'[i] == s[i];
    }
    forall i | i in CountedLive(s, hs, a, now)
      ensures i in Counted(s', hs, a)
    {
      assert s'[i] == s[i];
    }
    forall i | i in Counted(s', hs, a)
      ensures i in CountedLive(s, hs, a, now)
    {
      assert Live(s', i, now) && s'[i] == s[i];
    }
  }

  /** The list is full before the sweep and full after it: nothing had expired. */
  lemma StillFull(s: Slots, s': Slots, lastUsed: int, now: nat)
    requires SweptBelow(s, s', lastUsed + 1, now) && FirstFree(s, 0) == -1 && FirstFree(s', 0) == -1
    ensures Exact(s, lastUsed) ==> AllLive(s, now)
  {
    if Exact(s, lastUsed) {
      forall i | 0 <= i < |s|
        ensures Live(s, i, now)
      {
        assert s[i].Some? && s'[i].Some?;
        assert i <= lastUsed;
      }
    }
  }

  /** A list of live servers stays full, whatever is swept. */
  lemma AllLiveStays(s: Slots, s': Slots, now: nat)
    requires AllLive(s, now) && Purged(s, s', now)
    ensures s' == s && FirstFree(s, 0) == -1
  {
    assert forall i | 0 <= i < |s| :: Live(s, i, now) && s'[i] == s[i];
  }

  /** An addition changes the live records by exactly the new one. */
  lemma AddedIsVisible(s: Slots, s': Slots, a: Address, mapping: Option<Address>, now: nat, timeout: nat, i: int)
    requires Added(s, s', a, mapping, now, timeout, i) && timeout >= now
    ensures LiveRecords(s', now) == LiveRecords(s, now) + {Fresh(a, mapping, timeout)}
    ensures forall r | r in LiveRecords(s, now) :: r.address != a
  {
    var f := Fresh(a, mapping, timeout);
    var rest := s'[i := None];
    PurgeIsInvisible(s, rest, now, now);
    forall r
      ensures r in LiveRecords(s', now) <==> r in LiveRecords(rest, now) + {f}
    {
      if r in LiveRecords(s', now) {
        var j :| 0 <= j < |s'| && Live(s', j, now) && s'[j].value == r;
        assert j != i ==> Live(rest, j, now);
      }
      if r in LiveRecords(rest, now) {
        var j :| 0 <= j < |rest| && Live(rest, j, now) && rest[j].value == r;
        assert Live(s', j, now);
      }
      assert Live(s', i, now);
    }
    forall r | r in LiveRecords(s, now)
      ensures r.address != a
    {
      var j :| 0 <= j < |s| && Live(s, j, now) && s[j].value == r;
      assert !Holder(s, a, now, j);
    }
  }
}
