/** The two hash tables and the chains threaded through the server slots.

    A slot is an index into `servers[]` and -1 stands for NULL. The C `prev_ptr` points at the cell
    that holds the pointer to the slot: a table entry, or the `next` field of another slot.
 */
module HashChains {
  import opened Basics
  import opened Addresses

  datatype State = Unused | Uninitialized | Empty | Occupied | Full

  /** The fields of server_t except its two links. `mapping` is the address the server is shown under. */
  datatype Record = Record(
    address: Address,
    mapping: Option<Address>,
    timeout: nat,
    challengeTimeout: nat,
    protocol: int,
    state: State,
    challenge: string,
    gametype: string,
    gamename: string,
    mapname: string,
    hostname: string)

  datatype Cell = HeadOf(bucket: Bucket) | NextOf(slot: nat)

  datatype Server = Server(rec: Record, next: int, prev: Cell)

  /** Everything reachable from the static pointers of servers.c, as a value. */
  datatype Store = Store(servers: seq<Server>, ipv4: seq<int>, ipv6: seq<int>)

  /** The table size and the bucket of each address, fixed once the tables are allocated. */
  datatype Hashing = Hashing(size: nat, bucket: Address -> Bucket)

  function HashingOf(hashPorts: bool, hashSize: nat): Hashing {
    Hashing(Pow2(hashSize), a => BucketOf(a, hashPorts, hashSize))
  }

  predicate HasCell(st: Store, c: Cell) {
    match c
    case HeadOf(b) => b.index < if b.v6 then |st.ipv6| else |st.ipv4|
    case NextOf(i) => i < |st.servers|
  }

  function Read(st: Store, c: Cell): int
    requires HasCell(st, c)
  {
    match c
    case HeadOf(b) => if b.v6 then st.ipv6[b.index] else st.ipv4[b.index]
    case NextOf(i) => st.servers[i].next
  }

  /** Nothing but links may differ. */
  ghost predicate SameShape(st: Store, st': Store) {
    && |st'.servers| == |st.servers| && |st'.ipv4| == |st.ipv4| && |st'.ipv6| == |st.ipv6|
    && forall k | 0 <= k < |st.servers| :: st'.servers[k].rec == st.servers[k].rec
  }

  function Write(st: Store, c: Cell, v: int): (r: Store)
    requires HasCell(st, c)
    ensures SameShape(st, r)
  {
    match c
    case HeadOf(b) =>
      if b.v6 then st.(ipv6 := st.ipv6[b.index := v]) else st.(ipv4 := st.ipv4[b.index := v])
    case NextOf(i) => st.(servers := st.servers[i := st.servers[i].(next := v)])
  }

  function SetPrev(st: Store, i: nat, c: Cell): (r: Store)
    requires i < |st.servers|
    ensures SameShape(st, r)
  {
    st.(servers := st.servers[i := st.servers[i].(prev := c)])
  }

  /** The state after Sv_RemoveFromHashTable. */
  function Unlinked(st: Store, i: nat): (r: Store)
    requires i < |st.servers| && HasCell(st, st.servers[i].prev)
    ensures SameShape(st, r)
  {
    var next := st.servers[i].next;
    var st1 := Write(st, st.servers[i].prev, next);
    if 0 <= next < |st.servers| then SetPrev(st1, next, st1.servers[i].prev) else st1
  }

  /** The state after Sv_AddToHashTable. */
  function Pushed(st: Store, i: nat, b: Bucket): (r: Store)
    requires i < |st.servers| && HasCell(st, HeadOf(b))
    ensures SameShape(st, r)
  {
    var head := Read(st, HeadOf(b));
    var st1 := st.(servers := st.servers[i := st.servers[i].(next := head, prev := HeadOf(b))]);
    var st2 := Write(st1, HeadOf(b), i);
    if 0 <= head < |st.servers| then SetPrev(st2, head, NextOf(i)) else st2
  }

  /** The chains hold exactly the slots of `members`, each in the bucket of its address.

      `rank` is a ghost order: within one bucket ranks are distinct, they decrease along the chain,
      and no member lies between two neighbours. So the chain of a bucket is its members by rank.
   */
  ghost predicate Linked(st: Store, members: set<nat>, rank: seq<nat>, hs: Hashing) {
    && |rank| == |st.servers|
    && |st.ipv4| == |st.ipv6| == hs.size
    && (forall i | i in members :: i < |st.servers|)
    && (forall i | i in members :: ForwardLink(st, members, rank, hs, i))
    && (forall i | i in members :: BackLink(st, members, hs, i))
    && (forall b: Bucket | HasCell(st, HeadOf(b)) :: TableEntry(st, members, hs, b))
    && (forall i | i in members :: Anchored(st, rank, hs, i))
    && (forall i, j | i in members && j in members && Home(st, hs, i) == Home(st, hs, j) && i != j ::
          InOrder(st, rank, i, j))
  }

  function Home(st: Store, hs: Hashing, i: nat): Bucket
    requires i < |st.servers|
  {
    hs.bucket(st.servers[i].rec.address)
  }

  /** The chain of its bucket starts at slot i or before it. */
  ghost predicate Anchored(st: Store, rank: seq<nat>, hs: Hashing, i: nat)
    requires i < |st.servers| == |rank|
  {
    var c := HeadOf(Home(st, hs, i));
    HasCell(st, c) && 0 <= Read(st, c) < |rank| && rank[i] <= rank[Read(st, c)]
  }

  /** Two slots of one bucket: whichever comes first, its successor is not past the other. */
  ghost predicate InOrder(st: Store, rank: seq<nat>, i: nat, j: nat)
    requires i < |st.servers| == |rank| && j < |st.servers|
  {
    && rank[i] != rank[j]
    && (rank[j] < rank[i] ==> 0 <= st.servers[i].next < |rank| && rank[j] <= rank[st.servers[i].next])
  }

  ghost predicate ForwardLink(st: Store, members: set<nat>, rank: seq<nat>, hs: Hashing, i: nat)
    requires i < |st.servers| == |rank|
  {
    var next := st.servers[i].next;
    next == -1 ||
    (0 <= next < |st.servers| && next in members && Home(st, hs, next) == Home(st, hs, i) &&
     rank[next] < rank[i] && st.servers[next].prev == NextOf(i))
  }

  ghost predicate BackLink(st: Store, members: set<nat>, hs: Hashing, i: nat)
    requires i < |st.servers|
  {
    match st.servers[i].prev
    case HeadOf(b) => b == Home(st, hs, i) && HasCell(st, HeadOf(b)) && Read(st, HeadOf(b)) == i
    case NextOf(j) => j in members && j < |st.servers| && st.servers[j].next == i
  }

  ghost predicate TableEntry(st: Store, members: set<nat>, hs: Hashing, b: Bucket)
    requires HasCell(st, HeadOf(b))
  {
    var head := Read(st, HeadOf(b));
    head == -1 ||
    (0 <= head < |st.servers| && head in members && Home(st, hs, head) == b && st.servers[head].prev == HeadOf(b))
  }

  /** What unlinking changes: the cell that named i now names its successor, and the successor's back link. */
  ghost predicate UnlinkEffect(st: Store, st': Store, i: nat)
    requires i < |st.servers|
  {
    var next, prev := st.servers[i].next, st.servers[i].prev;
    && SameShape(st, st')
    && (forall k | 0 <= k < |st.servers| :: st'.servers[k].next == if prev == NextOf(k) then next else st.servers[k].next)
    && (forall k | 0 <= k < |st.servers| :: st'.servers[k].prev == if k == next then prev else st.servers[k].prev)
    && (forall b: Bucket | HasCell(st, HeadOf(b)) ::
          Read(st', HeadOf(b)) == if prev == HeadOf(b) then next else Read(st, HeadOf(b)))
  }

  /** What pushing changes: the links of i, the table entry, and the back link of the former head. */
  ghost predicate PushEffect(st: Store, st': Store, i: nat, c: Bucket)
    requires i < |st.servers| && HasCell(st, HeadOf(c))
  {
    var head := Read(st, HeadOf(c));
    && SameShape(st, st')
    && (forall k | 0 <= k < |st.servers| :: st'.servers[k].next == if k == i then head else st.servers[k].next)
    && (forall k | 0 <= k < |st.servers| :: st'.servers[k].prev ==
          if k == head then NextOf(i) else if k == i then HeadOf(c) else st.servers[k].prev)
    && (forall b: Bucket | HasCell(st, HeadOf(b)) ::
          Read(st', HeadOf(b)) == if b == c then i else Read(st, HeadOf(b)))
  }

  lemma UnlinkDoes(st: Store, i: nat)
    requires i < |st.servers| && HasCell(st, st.servers[i].prev)
    requires st.servers[i].prev != NextOf(i) && st.servers[i].next != i
    requires -1 <= st.servers[i].next < |st.servers|
    ensures UnlinkEffect(st, Unlinked(st, i), i)
  {
  }

  lemma PushDoes(st: Store, i: nat, b: Bucket)
    requires i < |st.servers| && HasCell(st, HeadOf(b))
    requires -1 <= Read(st, HeadOf(b)) < |st.servers| && Read(st, HeadOf(b)) != i
    ensures PushEffect(st, Pushed(st, i, b), i, b)
  {
  }

  lemma UnlinkKeepsNeighbours(st: Store, st': Store, members: set<nat>, rank: seq<nat>, hs: Hashing, i: nat, k: nat)
    requires Linked(st, members, rank, hs) && i in members && UnlinkEffect(st, st', i)
    requires k in members - {i}
    ensures ForwardLink(st', members - {i}, rank, hs, k)
    ensures BackLink(st', members - {i}, hs, k)
  {
    assert ForwardLink(st, members, rank, hs, i) && BackLink(st, members, hs, i);
    assert ForwardLink(st, members, rank, hs, k) && BackLink(st, members, hs, k);
  }

  lemma UnlinkKeepsOrder(st: Store, st': Store, members: set<nat>, rank: seq<nat>, hs: Hashing, i: nat, k: nat)
    requires Linked(st, members, rank, hs) && i in members && UnlinkEffect(st, st', i)
    requires k in members - {i}
    ensures Anchored(st', rank, hs, k)
    ensures forall j | j in members - {i} && Home(st, hs, k) == Home(st, hs, j) && k != j :: InOrder(st', rank, k, j)
  {
    assert ForwardLink(st, members, rank, hs, i) && BackLink(st, members, hs, i);
    assert ForwardLink(st, members, rank, hs, k) && BackLink(st, members, hs, k);
    assert Anchored(st, rank, hs, k);
    if Home(st, hs, k) == Home(st, hs, i) {
      assert InOrder(st, rank, k, i) && InOrder(st, rank, i, k);
    }
    forall j | j in members - {i} && Home(st, hs, k) == Home(st, hs, j) && k != j
      ensures InOrder(st', rank, k, j)
    {
      assert InOrder(st, rank, k, j) && InOrder(st, rank, j, k);
      if Home(st, hs, i) == Home(st, hs, j) {
        assert InOrder(st, rank, i, j);
      }
    }
  }

  lemma UnlinkKeepsTable(st: Store, st': Store, members: set<nat>, rank: seq<nat>, hs: Hashing, i: nat, b: Bucket)
    requires Linked(st, members, rank, hs) && i in members && UnlinkEffect(st, st', i)
    requires HasCell(st, HeadOf(b))
    ensures TableEntry(st', members - {i}, hs, b)
  {
    assert ForwardLink(st, members, rank, hs, i) && BackLink(st, members, hs, i);
    assert TableEntry(st, members, hs, b);
  }

  lemma UnlinkKeepsLinks(st: Store, members: set<nat>, rank: seq<nat>, hs: Hashing, i: nat)
    requires Linked(st, members, rank, hs) && i in members
    ensures HasCell(st, st.servers[i].prev)
    ensures Linked(Unlinked(st, i), members - {i}, rank, hs)
  {
    assert ForwardLink(st, members, rank, hs, i) && BackLink(st, members, hs, i);
    UnlinkDoes(st, i);
    var st' := Unlinked(st, i);
    forall k | k in members - {i}
      ensures ForwardLink(st', members - {i}, rank, hs, k) && BackLink(st', members - {i}, hs, k)
    {
      UnlinkKeepsNeighbours(st, st', members, rank, hs, i, k);
    }
    forall k | k in members - {i}
      ensures Anchored(st', rank, hs, k)
    {
      UnlinkKeepsOrder(st, st', members, rank, hs, i, k);
    }
    forall k, j | k in members - {i} && j in members - {i} && Home(st', hs, k) == Home(st', hs, j) && k != j
      ensures InOrder(st', rank, k, j)
    {
      UnlinkKeepsOrder(st, st', members, rank, hs, i, k);
    }
    forall b: Bucket | HasCell(st', HeadOf(b))
      ensures TableEntry(st', members - {i}, hs, b)
    {
      assert HasCell(st, HeadOf(b));
      UnlinkKeepsTable(st, st', members, rank, hs, i, b);
    }
  }

  lemma PushKeepsNeighbours(st: Store, st': Store, members: set<nat>, rank: seq<nat>, hs: Hashing, i: nat, r: nat, k: nat)
    requires Linked(st, members, rank, hs) && i < |st.servers| && i !in members
    requires HasCell(st, HeadOf(Home(st, hs, i))) && PushEffect(st, st', i, Home(st, hs, i))
    requires forall j | j in members :: rank[j] < r
    requires k in members + {i}
    ensures ForwardLink(st', members + {i}, rank[i := r], hs, k)
    ensures BackLink(st', members + {i}, hs, k)
    ensures Anchored(st', rank[i := r], hs, k)
  {
    hide InOrder;
    assert TableEntry(st, members, hs, Home(st, hs, i));
    if k != i {
      assert ForwardLink(st, members, rank, hs, k) && BackLink(st, members, hs, k);
      assert Anchored(st, rank, hs, k);
    }
  }

  lemma PushKeepsOrder(st: Store, st': Store, members: set<nat>, rank: seq<nat>, hs: Hashing, i: nat, r: nat, k: nat, j: nat)
    requires Linked(st, members, rank, hs) && i < |st.servers| && i !in members
    requires HasCell(st, HeadOf(Home(st, hs, i))) && PushEffect(st, st', i, Home(st, hs, i))
    requires forall j | j in members :: rank[j] < r
    requires k in members + {i} && j in members + {i} && k != j && Home(st, hs, k) == Home(st, hs, j)
    ensures InOrder(st', rank[i := r], k, j)
  {
    if k == i {
      assert Anchored(st, rank, hs, j);
    } else {
      assert ForwardLink(st, members, rank, hs, k);
      assert j != i ==> InOrder(st, rank, k, j);
    }
  }

  lemma PushKeepsTable(st: Store, st': Store, members: set<nat>, rank: seq<nat>, hs: Hashing, i: nat, b: Bucket)
    requires Linked(st, members, rank, hs) && i < |st.servers| && i !in members
    requires HasCell(st, HeadOf(Home(st, hs, i))) && PushEffect(st, st', i, Home(st, hs, i))
    requires HasCell(st, HeadOf(b))
    ensures TableEntry(st', members + {i}, hs, b)
  {
    hide ForwardLink, BackLink, Anchored, InOrder;
    assert TableEntry(st, members, hs, b);
  }

  lemma PushKeepsAllOrder(st: Store, st': Store, members: set<nat>, rank: seq<nat>, hs: Hashing, i: nat, r: nat)
    requires Linked(st, members, rank, hs) && i < |st.servers| && i !in members
    requires HasCell(st, HeadOf(Home(st, hs, i))) && PushEffect(st, st', i, Home(st, hs, i))
    requires forall j | j in members :: rank[j] < r
    ensures forall k, j | k in members + {i} && j in members + {i} && Home(st', hs, k) == Home(st', hs, j) && k != j ::
      InOrder(st', rank[i := r], k, j)
  {
    forall k, j | k in members + {i} && j in members + {i} && Home(st', hs, k) == Home(st', hs, j) && k != j
      ensures InOrder(st', rank[i := r], k, j)
    {
      hide Linked, InOrder;
      PushKeepsOrder(st, st', members, rank, hs, i, r, k, j);
    }
  }

  lemma PushKeepsLinks(st: Store, members: set<nat>, rank: seq<nat>, hs: Hashing, i: nat, r: nat)
    requires Linked(st, members, rank, hs) && i < |st.servers| && i !in members
    requires HasCell(st, HeadOf(Home(st, hs, i)))
    requires forall j | j in members :: rank[j] < r
    ensures Linked(Pushed(st, i, Home(st, hs, i)), members + {i}, rank[i := r], hs)
  {
    var c := Home(st, hs, i);
    assert TableEntry(st, members, hs, c);
    PushDoes(st, i, c);
    hide ForwardLink, BackLink, Anchored, InOrder, TableEntry, Home;
    var st', members', rank' := Pushed(st, i, c), members + {i}, rank[i := r];
    forall k | k in members'
      ensures ForwardLink(st', members', rank', hs, k) && BackLink(st', members', hs, k)
      ensures Anchored(st', rank', hs, k)
    {
      PushKeepsNeighbours(st, st', members, rank, hs, i, r, k);
    }
    PushKeepsAllOrder(st, st', members, rank, hs, i, r);
    forall b: Bucket | HasCell(st', HeadOf(b))
      ensures TableEntry(st', members', hs, b)
    {
      assert HasCell(st, HeadOf(b));
      PushKeepsTable(st, st', members, rank, hs, i, b);
    }
  }

  /** Records may change freely outside the chains, and inside them as long as the address stays. */
  lemma RecordChange(st: Store, st': Store, members: set<nat>, rank: seq<nat>, hs: Hashing, i: nat)
    requires Linked(st, members, rank, hs) && i < |st.servers|
    requires st' == st.(servers := st'.servers) && |st'.servers| == |st.servers|
    requires forall k | 0 <= k < |st.servers| && k != i :: st'.servers[k] == st.servers[k]
    requires i in members ==> st'.servers[i] == st.servers[i].(rec := st'.servers[i].rec)
    requires i in members ==> st'.servers[i].rec.address == st.servers[i].rec.address
    ensures Linked(st', members, rank, hs)
  {
    forall k | k in members
      ensures ForwardLink(st', members, rank, hs, k) && BackLink(st', members, hs, k)
      ensures Anchored(st', rank, hs, k)
    {
      assert ForwardLink(st, members, rank, hs, k) && BackLink(st, members, hs, k);
      assert Anchored(st, rank, hs, k);
    }
    forall k, j | k in members && j in members && Home(st', hs, k) == Home(st', hs, j) && k != j
      ensures InOrder(st', rank, k, j)
    {
      assert InOrder(st, rank, k, j);
    }
    forall b: Bucket | HasCell(st', HeadOf(b))
      ensures TableEntry(st', members, hs, b)
    {
      assert HasCell(st, HeadOf(b)) && TableEntry(st, members, hs, b);
    }
  }

  // ----- The chains as sequences

  /** The slots met by following `next` from slot i. */
  ghost function Chain(st: Store, members: set<nat>, rank: seq<nat>, hs: Hashing, i: int): seq<nat>
    requires Linked(st, members, rank, hs)
    requires i == -1 || (0 <= i < |st.servers| && i in members)
    decreases if i == -1 then 0 else 1 + rank[i]
  {
    if i == -1 then []
    else
      assert ForwardLink(st, members, rank, hs, i);
      [i] + Chain(st, members, rank, hs, st.servers[i].next)
  }

  ghost function BucketChain(st: Store, members: set<nat>, rank: seq<nat>, hs: Hashing, b: Bucket): seq<nat>
    requires Linked(st, members, rank, hs) && HasCell(st, HeadOf(b))
  {
    assert TableEntry(st, members, hs, b);
    Chain(st, members, rank, hs, Read(st, HeadOf(b)))
  }

  lemma {:induction false} ChainContents(st: Store, members: set<nat>, rank: seq<nat>, hs: Hashing, i: int)
    requires Linked(st, members, rank, hs)
    requires i == -1 || (0 <= i < |st.servers| && i in members)
    ensures var c := Chain(st, members, rank, hs, i);
      && (forall j :: j in c <==> i != -1 && j in members && Home(st, hs, j) == Home(st, hs, i) && rank[j] <= rank[i])
      && (forall x, y | 0 <= x < y < |c| :: c[x] != c[y])
      && (forall x | 0 < x < |c| :: c[x] < |st.servers| && st.servers[c[x]].prev == NextOf(c[x - 1]))
    decreases if i == -1 then 0 else 1 + rank[i]
  {
    if i != -1 {
      assert ForwardLink(st, members, rank, hs, i);
      var next := st.servers[i].next;
      ChainContents(st, members, rank, hs, next);
      var c, rest := Chain(st, members, rank, hs, i), Chain(st, members, rank, hs, next);
      forall j | j in members && Home(st, hs, j) == Home(st, hs, i) && rank[j] <= rank[i] && j != i
        ensures j in rest
      {
        assert InOrder(st, rank, i, j);
      }
      forall x | 0 < x < |c|
        ensures st.servers[c[x]].prev == NextOf(c[x - 1])
      {
        assert c[x] == rest[x - 1];
        if x > 1 {
          assert c[x - 1] == rest[x - 2];
        }
      }
    }
  }

  /** The hash index is exact: the chain of a bucket lists, once each, the members whose address hashes
      there, and the back link of each names the cell in front of it. */
  lemma ChainsAreExact(st: Store, members: set<nat>, rank: seq<nat>, hs: Hashing, b: Bucket)
    requires Linked(st, members, rank, hs) && HasCell(st, HeadOf(b))
    ensures var c := BucketChain(st, members, rank, hs, b);
      && (forall j :: j in c <==> j in members && Home(st, hs, j) == b)
      && (forall x, y | 0 <= x < y < |c| :: c[x] != c[y])
      && (forall x | 0 <= x < |c| :: c[x] < |st.servers| &&
            st.servers[c[x]].prev == if x == 0 then HeadOf(b) else NextOf(c[x - 1]))
  {
    var head := Read(st, HeadOf(b));
    assert TableEntry(st, members, hs, b);
    ChainContents(st, members, rank, hs, head);
    forall j | j in members && Home(st, hs, j) == b
      ensures j in BucketChain(st, members, rank, hs, b)
    {
      assert Anchored(st, rank, hs, j);
    }
  }

  /** The lengths of the first n chains of one table, added up. */
  ghost function ChainsTotal(st: Store, members: set<nat>, rank: seq<nat>, hs: Hashing, v6: bool, n: nat): nat
    requires Linked(st, members, rank, hs) && n <= hs.size
  {
    if n == 0 then 0
    else ChainsTotal(st, members, rank, hs, v6, n - 1) + |BucketChain(st, members, rank, hs, Bucket(v6, n - 1))|
  }

  /** The members that hash to the first n buckets of one table. */
  ghost function Homed(st: Store, members: set<nat>, hs: Hashing, v6: bool, n: nat): set<nat> {
    set j | j in members && j < |st.servers| && Home(st, hs, j).v6 == v6 && Home(st, hs, j).index < n
  }

  lemma {:induction false} DistinctSize(c: seq<nat>, s: set<nat>)
    requires forall x, y | 0 <= x < y < |c| :: c[x] != c[y]
    requires forall j :: j in c <==> j in s
    ensures |c| == |s|
  {
    if c != [] {
      var last, front := c[|c| - 1], c[..|c| - 1];
      assert c == front + [last];
      DistinctSize(front, s - {last});
    } else {
      assert s == {};
    }
  }

  lemma {:induction false} ChainsCount(st: Store, members: set<nat>, rank: seq<nat>, hs: Hashing, v6: bool, n: nat)
    requires Linked(st, members, rank, hs) && n <= hs.size
    ensures ChainsTotal(st, members, rank, hs, v6, n) == |Homed(st, members, hs, v6, n)|
  {
    hide Linked, BucketChain, AtHome, HasCell;
    if n > 0 {
      var b := Bucket(v6, n - 1);
      ChainsCount(st, members, rank, hs, v6, n - 1);
      OneChain(st, members, rank, hs, b);
      HomedGrows(st, members, hs, b);
    } else {
      assert Homed(st, members, hs, v6, 0) == {};
    }
  }

  lemma HomedGrows(st: Store, members: set<nat>, hs: Hashing, b: Bucket)
    ensures |Homed(st, members, hs, b.v6, b.index + 1)| == |Homed(st, members, hs, b.v6, b.index)| + |AtHome(st, members, hs, b)|
  {
    hide Home;
    var before, last := Homed(st, members, hs, b.v6, b.index), AtHome(st, members, hs, b);
    assert before !! last;
    assert Homed(st, members, hs, b.v6, b.index + 1) == before + last;
  }

  ghost function AtHome(st: Store, members: set<nat>, hs: Hashing, b: Bucket): set<nat> {
    set j | j in members && j < |st.servers| && Home(st, hs, j) == b
  }

  lemma OneChain(st: Store, members: set<nat>, rank: seq<nat>, hs: Hashing, b: Bucket)
    requires Linked(st, members, rank, hs) && b.index < hs.size
    ensures HasCell(st, HeadOf(b)) && |BucketChain(st, members, rank, hs, b)| == |AtHome(st, members, hs, b)|
  {
    ChainsAreExact(st, members, rank, hs, b);
    DistinctSize(BucketChain(st, members, rank, hs, b), AtHome(st, members, hs, b));
  }

  /** Every member is in exactly one chain: the lengths of all chains add up to the number of members. */
  lemma ChainLengthsSum(st: Store, members: set<nat>, rank: seq<nat>, hs: Hashing)
    requires Linked(st, members, rank, hs)
    ensures ChainsTotal(st, members, rank, hs, false, hs.size) + ChainsTotal(st, members, rank, hs, true, hs.size) == |members|
  {
    ChainsCount(st, members, rank, hs, false, hs.size);
    ChainsCount(st, members, rank, hs, true, hs.size);
    var v4, v6 := Homed(st, members, hs, false, hs.size), Homed(st, members, hs, true, hs.size);
    forall j | j in members
      ensures j in v4 + v6
    {
      assert Anchored(st, rank, hs, j);
    }
    assert v4 + v6 == members && v4 !! v6;
  }
}
