/** The neighbor tables of contiki-ng/os/net/nbr-table.c: one list of neighbor keys and two
    bitmaps per neighbor stand for up to eight maps from link-layer address to item. */
module NbrTable {
  import opened LinkedList
  import opened NbrBits

  datatype Option<T> = None | Some(value: T)

  /** linkaddr_null. */
  const ADDR_NULL: int := 0

  /** The listed neighbors (slots, oldest first), the address of each slot, the bitmaps and
      the items data[table][slot]. */
  datatype Tab = Tab(items: seq<int>, addr: seq<int>, used: seq<bv8>, locked: seq<bv8>, data: seq<seq<int>>)

  ghost predicate Sized(t: Tab, n: int) {
    && |t.addr| == |t.used| == |t.locked| == n && |t.data| == TABLES
    && (forall k :: 0 <= k < TABLES ==> |t.data[k]| == n)
    && (forall i :: 0 <= i < |t.items| ==> 0 <= t.items[i] < n)
  }

  /** Keys are listed once, with pairwise distinct addresses, and only listed neighbors are
      used by a table. */
  ghost predicate Sound(t: Tab, n: int) {
    && Sized(t, n)
    && (forall i, j :: 0 <= i < j < |t.items| ==> t.items[i] != t.items[j] && t.addr[t.items[i]] != t.addr[t.items[j]])
    && (forall s :: 0 <= s < n && s !in t.items ==> t.used[s] == 0)
  }

  ghost function Tables(n: int): iset<Tab> {
    iset t: Tab | Sound(t, n)
  }

  /** The first listed slot with address a, or NULL: what the walk of index_from_lladdr
      finds. */
  ghost function SlotOf(items: seq<int>, addr: seq<int>, a: int): int
    requires forall i :: 0 <= i < |items| ==> 0 <= items[i] < |addr|
    decreases |items|
  {
    if items == [] then NULL else if addr[items[0]] == a then items[0] else SlotOf(items[1..], addr, a)
  }

  lemma {:induction false} SlotFound(items: seq<int>, addr: seq<int>, a: int, i: nat)
    requires forall j :: 0 <= j < |items| ==> 0 <= items[j] < |addr|
    requires i <= |items| && forall j :: 0 <= j < i ==> addr[items[j]] != a
    ensures i == |items| ==> SlotOf(items, addr, a) == NULL
    ensures i < |items| && addr[items[i]] == a ==> SlotOf(items, addr, a) == items[i]
    decreases |items|
  {
    if i > 0 {
      SlotFound(items[1..], addr, a, i - 1);
    }
  }

  /** The maps the table stands for: the item of address a in table k. */
  ghost function ItemOf(t: Tab, n: int, k: int, a: int): Option<int>
    requires Sized(t, n) && 0 <= k < TABLES
  {
    var s := SlotOf(t.items, t.addr, a);
    SlotInRange(t.items, t.addr, a);
    if s != NULL && Test(t.used[s], k) then Some(t.data[k][s]) else None
  }

  lemma {:induction false} SlotInRange(items: seq<int>, addr: seq<int>, a: int)
    requires forall j :: 0 <= j < |items| ==> 0 <= items[j] < |addr|
    ensures var s := SlotOf(items, addr, a);
            s == NULL || (s in items && 0 <= s < |addr| && addr[s] == a)
    ensures SlotOf(items, addr, a) == NULL ==> forall i :: 0 <= i < |items| ==> addr[items[i]] != a
  {
    if items != [] { SlotInRange(items[1..], addr, a); }
  }

  /** With distinct addresses the slot of a listed key's address is that key. */
  lemma SlotOfListed(t: Tab, n: int, i: nat)
    requires Sound(t, n) && i < |t.items|
    ensures SlotOf(t.items, t.addr, t.addr[t.items[i]]) == t.items[i]
  {
    SlotFound(t.items, t.addr, t.addr[t.items[i]], i);
  }

  // ----- the three changes an insertion makes -----

  /** One bit of a bitmap. */
  function Marked(bits: seq<bv8>, s: int, k: int, value: bool): seq<bv8> {
    if 0 <= s < |bits| then bits[s := Put(bits[s], k, value)] else bits
  }

  function Stored<T>(q: seq<T>, s: int, x: T): seq<T> {
    if 0 <= s < |q| then q[s := x] else q
  }

  function Zeroed(data: seq<seq<int>>, k: int, s: int): seq<seq<int>> {
    if 0 <= k < |data| then data[k := Stored(data[k], s, 0)] else data
  }

  ghost function Evicted(t: Tab, s: int): Tab {
    t.(items := Without(t.items, s), used := Stored(t.used, s, 0))
  }

  ghost function Inserted(t: Tab, s: int, a: int): Tab {
    t.(items := t.items + [s], addr := Stored(t.addr, s, a))
  }

  ghost function Cleared(t: Tab, s: int, k: int): Tab {
    t.(data := Zeroed(t.data, k, s), used := Marked(t.used, s, k, true))
  }

  lemma {:induction false} EvictedSlot(items: seq<int>, addr: seq<int>, p: nat, a: int)
    requires forall j :: 0 <= j < |items| ==> 0 <= items[j] < |addr|
    requires forall i, j :: 0 <= i < j < |items| ==> addr[items[i]] != addr[items[j]]
    requires p < |items|
    ensures var rest := items[..p] + items[p + 1..];
            SlotOf(rest, addr, a) == if a == addr[items[p]] then NULL else SlotOf(items, addr, a)
    decreases p
  {
    var rest := items[..p] + items[p + 1..];
    if p == 0 {
      assert rest == items[1..];
      if a == addr[items[0]] { SlotFound(rest, addr, a, |rest|); }
    } else {
      EvictedSlot(items[1..], addr, p - 1, a);
      assert rest[1..] == items[1..][..p - 1] + items[1..][p..];
    }
  }

  lemma EvictedSound(t: Tab, n: int, p: nat)
    requires Sound(t, n) && p < |t.items|
    ensures Evicted(t, t.items[p]).items == t.items[..p] + t.items[p + 1..]
    ensures Sound(Evicted(t, t.items[p]), n)
  {
    WithoutAt(t.items, t.items[p], p);
    var t' := Evicted(t, t.items[p]);
    forall i | 0 <= i < |t'.items| ensures t'.items[i] == t.items[if i < p then i else i + 1] {}
  }

  /** An evicted neighbor disappears from all tables at once; no other item changes. */
  lemma EvictedItems(t: Tab, n: int, p: nat, k: int, a: int)
    requires Sound(t, n) && p < |t.items| && 0 <= k < TABLES
    ensures Sound(Evicted(t, t.items[p]), n)
    ensures ItemOf(Evicted(t, t.items[p]), n, k, a) ==
            if a == t.addr[t.items[p]] then None else ItemOf(t, n, k, a)
  {
    EvictedSound(t, n, p);
    EvictedSlot(t.items, t.addr, p, a);
    SlotInRange(t.items, t.addr, a);
  }

  lemma InsertedSound(t: Tab, n: int, s: int, a: int)
    requires Sound(t, n) && 0 <= s < n && s !in t.items && SlotOf(t.items, t.addr, a) == NULL
    ensures Sound(Inserted(t, s, a), n)
  {
    SlotInRange(t.items, t.addr, a);
    var t' := Inserted(t, s, a);
    forall i | 0 <= i < |t.items| ensures t'.items[i] == t.items[i] && t'.addr[t'.items[i]] == t.addr[t.items[i]] {}
  }

  lemma {:induction false} InsertedSlot(items: seq<int>, addr: seq<int>, s: int, a: int, b: int)
    requires forall j :: 0 <= j < |items| ==> 0 <= items[j] < |addr|
    requires 0 <= s < |addr| && s !in items
    ensures SlotOf(items + [s], addr[s := a], b) ==
            if SlotOf(items, addr, b) != NULL then SlotOf(items, addr, b) else if b == a then s else NULL
    decreases |items|
  {
    var all, addr' := items + [s], addr[s := a];
    if items == [] {
      assert all[1..] == [];
    } else {
      InsertedSlot(items[1..], addr, s, a, b);
      assert all[1..] == items[1..] + [s] && addr'[items[0]] == addr[items[0]];
    }
  }

  /** A listed but unused neighbor has no items. */
  lemma InsertedItems(t: Tab, n: int, s: int, a: int, k: int, b: int)
    requires Sound(t, n) && 0 <= s < n && s !in t.items && SlotOf(t.items, t.addr, a) == NULL
    requires 0 <= k < TABLES
    ensures Sound(Inserted(t, s, a), n)
    ensures ItemOf(Inserted(t, s, a), n, k, b) == ItemOf(t, n, k, b)
  {
    InsertedSound(t, n, s, a);
    InsertedSlot(t.items, t.addr, s, a, b);
    NoBits(k);
  }

  /** Adding a neighbor to table k sets its item there to zero and changes nothing else. */
  lemma ClearedItems(t: Tab, n: int, s: int, k: int, k': int, a: int)
    requires Sound(t, n) && s in t.items && 0 <= k < TABLES && 0 <= k' < TABLES
    ensures 0 <= s < n && Sound(Cleared(t, s, k), n)
    ensures ItemOf(Cleared(t, s, k), n, k', a) == if k' == k && a == t.addr[s] then Some(0) else ItemOf(t, n, k', a)
  {
    var q :| 0 <= q < |t.items| && t.items[q] == s;
    SlotOfListed(t, n, q);
    SlotInRange(t.items, t.addr, a);
    PutBit(t.used[s], k, true, k');
  }

  ghost function Dropped(t: Tab, s: int, k: int): Tab {
    t.(used := Marked(t.used, s, k, false), locked := Marked(t.locked, s, k, false))
  }

  /** Removing a neighbor from table k affects no other table and no other neighbor. */
  lemma DroppedItems(t: Tab, n: int, s: int, k: int, k': int, a: int)
    requires Sound(t, n) && 0 <= s < n && 0 <= k < TABLES && 0 <= k' < TABLES
    ensures Sound(Dropped(t, s, k), n)
    ensures ItemOf(Dropped(t, s, k), n, k', a) ==
            if k' == k && s in t.items && a == t.addr[s] then None else ItemOf(t, n, k', a)
  {
    if s in t.items {
      var q :| 0 <= q < |t.items| && t.items[q] == s;
      SlotOfListed(t, n, q);
    }
    SlotInRange(t.items, t.addr, a);
    PutBit(t.used[s], k, false, k');
  }

  /** It clears table k's use and lock of the neighbor and no other bit. */
  lemma DroppedBits(t: Tab, n: int, s: int, k: int, s': int, k': int)
    requires Sized(t, n) && 0 <= s < n && 0 <= s' < n && 0 <= k < TABLES && 0 <= k' < TABLES
    ensures var t' := Dropped(t, s, k);
            && Sized(t', n) && t'.items == t.items && t'.addr == t.addr && t'.data == t.data
            && (Test(t'.locked[s'], k') <==> Test(t.locked[s'], k') && !(s' == s && k' == k))
            && (Test(t'.used[s'], k') <==> Test(t.used[s'], k') && !(s' == s && k' == k))
  {
    PutBit(t.locked[s], k, false, k');
    PutBit(t.used[s], k, false, k');
  }

  /** No table locks a neighbor. */
  ghost predicate Unlocked(t: Tab, s: int)
    requires 0 <= s < |t.locked|
  {
    forall j {:trigger Test(t.locked[s], j)} :: 0 <= j < TABLES ==> !Test(t.locked[s], j)
  }

  /** Which neighbors can be evicted, bit by bit. */
  lemma UnlockedExactly(t: Tab, s: int)
    requires 0 <= s < |t.locked|
    ensures t.locked[s] == 0 <==> Unlocked(t, s)
  {
    ZeroByte(t.locked[s]);
    if t.locked[s] == 0 {
      forall j ensures !Test(t.locked[s], j) { NoBits(j); }
    }
  }

  /** A neighbor that only table k locked can be evicted again once table k has removed it,
      so an addition to the full table does not fail for want of an unlocked one. */
  lemma RemovedCanBeEvicted(t: Tab, n: int, i: nat, k: int)
    requires Sized(t, n) && i < |t.items| && 0 <= k < TABLES
    requires forall j {:trigger Test(t.locked[t.items[i]], j)} :: 0 <= j < TABLES && j != k ==> !Test(t.locked[t.items[i]], j)
    ensures var t' := Dropped(t, t.items[i], k);
            Sized(t', n) && t'.locked[t.items[i]] == 0 && t' !in Blocked(n)
  {
    var s := t.items[i];
    var t' := Dropped(t, s, k);
    forall j | 0 <= j < TABLES ensures !Test(t'.locked[s], j) { DroppedBits(t, n, s, k, s, j); }
    UnlockedExactly(t', s);
    assert t'.items[i] == s;
  }

  ghost function LockSet(t: Tab, s: int, k: int, value: bool): Tab {
    t.(locked := Marked(t.locked, s, k, value))
  }

  /** Locking and unlocking change table k's lock of the neighbor and no other bit. */
  lemma LockSetBits(t: Tab, n: int, s: int, k: int, value: bool, s': int, k': int)
    requires Sized(t, n) && 0 <= s < n && 0 <= s' < n && 0 <= k < TABLES && 0 <= k' < TABLES
    ensures var t' := LockSet(t, s, k, value);
            && t' == t.(locked := t'.locked) && |t'.locked| == n
            && (Test(t'.locked[s'], k') <==> if s' == s && k' == k then value else Test(t.locked[s'], k'))
  {
    PutBit(t.locked[s], k, value, k');
  }

  /** Only table k's lock of the neighbor changes, and no item does. */
  lemma LockSetItems(t: Tab, n: int, s: int, k: int, value: bool, k': int, a: int)
    requires Sound(t, n) && 0 <= s < n && 0 <= k < TABLES && 0 <= k' < TABLES
    ensures var t' := LockSet(t, s, k, value);
            && Sound(t', n) && ItemOf(t', n, k', a) == ItemOf(t, n, k', a)
            && (Test(t'.locked[s], k') <==> if k' == k then value else Test(t.locked[s], k'))
  {
    PutBit(t.locked[s], k, value, k');
  }

  // ----- enumeration of one table -----

  predicate Uses(used: seq<bv8>, s: int, k: int) {
    0 <= s < |used| && Test(used[s], k)
  }

  /** The neighbors listed from place i on that table k uses, oldest first. */
  function Listing(items: seq<int>, used: seq<bv8>, k: int, i: nat): seq<int>
    decreases |items| - i
  {
    if i >= |items| then []
    else if Uses(used, items[i], k) then [items[i]] + Listing(items, used, k, i + 1)
    else Listing(items, used, k, i + 1)
  }

  lemma {:induction false} ListingFirst(items: seq<int>, used: seq<bv8>, k: int, i: nat) returns (j: int)
    requires Listing(items, used, k, i) != []
    ensures i <= j < |items| && Listing(items, used, k, i) == [items[j]] + Listing(items, used, k, j + 1)
    decreases |items| - i
  {
    if Uses(used, items[i], k) { j := i; } else { j := ListingFirst(items, used, k, i + 1); }
  }

  /** The place after an element of the list; the end if it is not listed. */
  function After(items: seq<int>, x: int, i: nat): nat
    decreases |items| - i
  {
    if i >= |items| || items[i] == x then i + 1 else After(items, x, i + 1)
  }

  lemma {:induction false} AfterAt(items: seq<int>, p: nat, i: nat)
    requires i <= p < |items| && forall i, j :: 0 <= i < j < |items| ==> items[i] != items[j]
    ensures After(items, items[p], i) == p + 1
    decreases p - i
  {
    if i < p { AfterAt(items, p, i + 1); }
  }

  lemma {:induction false} AfterNone(items: seq<int>, x: int, i: nat)
    requires x !in items && i <= |items|
    ensures After(items, x, i) == |items| + 1
    decreases |items| - i
  {
    if i < |items| { AfterNone(items, x, i + 1); }
  }

  /** The loop of nbr_table_next, from the key after the given item. */
  method SkipUnused(next: map<int, int>, used: seq<bv8>, k: int, key: int, ghost items: seq<int>, ghost p: nat) returns (r: int)
    requires Chain(next, At(items, 0), items) && forall i :: 0 <= i < |items| ==> 0 <= items[i] < |used|
    requires key == At(items, p)
    ensures r == At(Listing(items, used, k, p), 0)
  {
    r := key;
    ghost var i := p;
    while r != NULL && !Test(used[r], k)
      invariant r == At(items, i) && i >= p
      invariant Listing(items, used, k, p) == Listing(items, used, k, i)
      decreases |items| - i
    {
      r, i := next[r], i + 1;
    }
  }

  lemma Placed(s: Shape, p: Pool, n: int, x: int)
    requires s in Shapes() && p in Pools(n, NULL) && p.items == s.items && p.next == s.next
    requires x == NULL || 0 <= x < n
    ensures x != NULL ==> x in s.next
    ensures At(s.items, After(s.items, x, 0)) == if x == NULL then NULL else s.next[x]
  {
    if x in s.items {
      var i :| 0 <= i < |s.items| && s.items[i] == x;
      AfterAt(s.items, i, 0);
    } else {
      AfterNone(s.items, x, 0);
    }
  }

  /** One step of an enumeration. */
  lemma ListingNext(t: Tab, n: int, k: int, i: nat) returns (j: nat)
    requires t in Tables(n)
    ensures var item, l := At(Listing(t.items, t.used, k, i), 0), Listing(t.items, t.used, k, i);
            if item == NULL then l == []
            else i < j <= |t.items| && 0 <= item < n && After(t.items, item, 0) == j && l == [item] + Listing(t.items, t.used, k, j)
  {
    j := 0;
    if Listing(t.items, t.used, k, i) != [] {
      j := ListingFirst(t.items, t.used, k, i);
      AfterAt(t.items, j, 0);
      j := j + 1;
    }
  }

  /** Each used item is listed exactly once. */
  lemma {:induction false} ListingExact(items: seq<int>, used: seq<bv8>, k: int, s: int, i: nat)
    requires i <= |items| && forall a, b :: 0 <= a < b < |items| ==> items[a] != items[b]
    ensures multiset(Listing(items, used, k, i))[s] == if s in items[i..] && Uses(used, s, k) then 1 else 0
    decreases |items| - i
  {
    if i < |items| {
      ListingExact(items, used, k, s, i + 1);
      assert items[i..] == [items[i]] + items[i + 1..];
    }
  }

  /** It follows the order of the list: what is listed before place j comes before what is
      listed from there on. */
  lemma {:induction false} ListingInOrder(items: seq<int>, used: seq<bv8>, k: int, i: nat, j: nat)
    requires i <= j <= |items|
    ensures Listing(items, used, k, i) == Listing(items[..j], used, k, i) + Listing(items, used, k, j)
    decreases j - i
  {
    if i < j {
      ListingInOrder(items, used, k, i + 1, j);
      assert items[..j][i] == items[i];
    }
  }

  /** An address maps to an item of table k exactly when the enumeration has its slot. */
  lemma EnumerationIsDomain(t: Tab, n: int, k: int, a: int)
    requires Sound(t, n) && 0 <= k < TABLES
    ensures ItemOf(t, n, k, a) != None <==> exists s :: s in Listing(t.items, t.used, k, 0) && 0 <= s < n && t.addr[s] == a
  {
    var s := SlotOf(t.items, t.addr, a);
    SlotInRange(t.items, t.addr, a);
    if s != NULL { ListingExact(t.items, t.used, k, s, 0); }
    forall s' | s' in Listing(t.items, t.used, k, 0) && 0 <= s' < n && t.addr[s'] == a
      ensures s' == s && ItemOf(t, n, k, a) != None
    {
      ListingExact(t.items, t.used, k, s', 0);
      var q :| 0 <= q < |t.items| && t.items[q] == s';
      SlotOfListed(t, n, q);
    }
  }

  // ----- the neighbor to evict -----

  /** Slot p of the list is the one to evict: not locked, used by the fewest tables among
      those not locked, and the oldest of these. */
  ghost predicate IsVictim(t: Tab, n: int, p: int)
    requires Sized(t, n)
  {
    && 0 <= p < |t.items| && t.locked[t.items[p]] == 0
    && (forall i :: 0 <= i < |t.items| && t.locked[t.items[i]] == 0 ==>
          && Users(t.used[t.items[p]]) <= Users(t.used[t.items[i]])
          && (i < p ==> Users(t.used[t.items[p]]) < Users(t.used[t.items[i]])))
  }

  ghost predicate AllLocked(t: Tab, n: int)
    requires Sized(t, n)
  {
    forall i :: 0 <= i < |t.items| ==> t.locked[t.items[i]] != 0
  }

  /** The places (i, p) where p is the one to evict among the first i listed; NULL where
      these are all locked. */
  ghost function Choices(t: Tab, n: int): iset<(int, int)> {
    iset c: (int, int) |
      && Sized(t, n) && c.1 < c.0 && 0 <= c.0 <= |t.items|
      && if c.1 == NULL then forall j :: 0 <= j < c.0 ==> t.locked[t.items[j]] != 0
         else && 0 <= c.1 && t.locked[t.items[c.1]] == 0
              && (forall i :: 0 <= i < c.0 && t.locked[t.items[i]] == 0 ==>
                    && Users(t.used[t.items[c.1]]) <= Users(t.used[t.items[i]])
                    && (i < c.1 ==> Users(t.used[t.items[c.1]]) < Users(t.used[t.items[i]])))
  }

  lemma ChoiceStep(t: Tab, n: int, i: int, p: int, take: bool)
    requires (i, p) in Choices(t, n) && i < |t.items|
    requires take <==> t.locked[t.items[i]] == 0
                       && (p == NULL || Users(t.used[t.items[i]]) < Users(t.used[t.items[p]]))
    ensures (i + 1, if take then i else p) in Choices(t, n)
  {}

  lemma ChoiceDone(t: Tab, n: int, i: int, p: int)
    requires (i, p) in Choices(t, n)
    requires i == |t.items| || (p != NULL && Users(t.used[t.items[p]]) == 0)
    ensures Sized(t, n) && if p == NULL then AllLocked(t, n) else IsVictim(t, n, p)
    ensures p == NULL <==> AllLocked(t, n)
    ensures p != NULL ==> At(t.items, p) in t.items && t.locked[At(t.items, p)] == 0
  {}

  /** One neighbor in the search of nbr_table_allocate. */
  method Consider(used: bv8, locked: bv8, none: bool, leastCount: nat) returns (take: bool, count: nat)
    ensures take <==> locked == 0 && (none || Users(used) < leastCount)
    ensures take ==> count == Users(used)
  {
    take, count := false, 0;
    if locked == 0 {
      count := CountUsers(used);
      take := none || count < leastCount;
    }
  }

  /** The search of nbr_table_allocate. */
  method FindVictim(next: map<int, int>, head: int, used: seq<bv8>, locked: seq<bv8>, ghost t: Tab, ghost n: int)
      returns (least: int, ghost p: int)
    requires Sized(t, n) && Chain(next, head, t.items) && t.used == used && t.locked == locked
    ensures least == At(t.items, p) && if least == NULL then AllLocked(t, n) else IsVictim(t, n, p)
    ensures least == NULL <==> AllLocked(t, n)
    ensures least != NULL ==> least in t.items && locked[least] == 0
  {
    var leastCount := 0;
    var key := head;
    least, p := NULL, NULL;
    ghost var i := 0;
    while key != NULL
      invariant key == At(t.items, i) && least == At(t.items, p) && (i, p) in Choices(t, n)
      invariant p != NULL ==> leastCount == Users(used[t.items[p]])
      decreases |t.items| - i
    {
      var take, count := Consider(used[key], locked[key], least == NULL, leastCount);
      ChoiceStep(t, n, i, p, take);
      if take {
        least, leastCount, p := key, count, i;
        if count == 0 {
          ChoiceDone(t, n, i + 1, p);
          return;
        }
      }
      key, i := next[key], i + 1;
    }
    ChoiceDone(t, n, i, p);
  }

  // ----- the slot pool (contiki-ng/os/lib/memb.c) and the list over it -----

  datatype Pool = Pool(count: seq<int>, next: map<int, int>, items: seq<int>)

  datatype Whole = Whole(tab: Tab, pool: Pool)

  ghost function Wholes(n: int, extra: int): iset<Whole> {
    iset w: Whole | w.tab in Tables(n) && w.pool in Pools(n, extra)
  }

  function Slots(n: int): (r: set<int>)
    ensures forall i :: i in r <==> 0 <= i < n
    decreases if n > 0 then n else 0
  {
    if n <= 0 then {} else Slots(n - 1) + {n - 1}
  }

  /** A slot's count is 1 when it is listed, or is `extra`, and 0 otherwise; an unlisted
      slot points nowhere. */
  ghost function Pools(n: int, extra: int): iset<Pool> {
    iset p: Pool |
      && |p.count| == n && p.next.Keys == Slots(n)
      && (forall i :: 0 <= i < n ==> p.count[i] == if i in p.items || i == extra then 1 else 0)
      && (forall i :: 0 <= i < n && i !in p.items ==> p.next[i] == NULL)
      && (extra != NULL ==> 0 <= extra < n && extra !in p.items)
  }

  /** memb_alloc over the counts: the first free slot. */
  method FirstFree(count: seq<int>) returns (i: int)
    ensures i == NULL ==> forall j :: 0 <= j < |count| ==> count[j] != 0
    ensures i != NULL ==> 0 <= i < |count| && count[i] == 0 && forall j :: 0 <= j < i ==> count[j] != 0
  {
    i := 0;
    while i < |count|
      invariant 0 <= i <= |count| && forall j :: 0 <= j < i ==> count[j] != 0
    {
      if count[i] == 0 { return; }
      i := i + 1;
    }
    i := NULL;
  }

  /** Every slot holds a listed neighbor. */
  ghost predicate Full(t: Tab, n: int) {
    forall i :: 0 <= i < n ==> i in t.items
  }

  ghost function Fulls(n: int): iset<Tab> {
    iset t: Tab | Full(t, n)
  }

  /** Which tables use a neighbor and have a callback. */
  function Wants(callbacks: seq<bool>, used: bv8): (want: seq<bool>)
    requires |callbacks| == TABLES
    ensures |want| == TABLES && forall i :: 0 <= i < TABLES ==> want[i] == (callbacks[i] && Test(used, i))
  {
    seq(TABLES, i requires 0 <= i < TABLES => callbacks[i] && Test(used, i))
  }

  /** Calls about slot s to the wanted tables below i. */
  function CallsTo(want: seq<bool>, s: int, i: nat): seq<(int, int)>
    requires i <= |want|
  {
    if i == 0 then [] else CallsTo(want, s, i - 1) + (if want[i - 1] then [(i - 1, s)] else [])
  }

  /** The callbacks of remove_key. */
  function Calls(callbacks: seq<bool>, used: bv8, s: int): seq<(int, int)>
    requires |callbacks| == TABLES
  {
    CallsTo(Wants(callbacks, used), s, |callbacks|)
  }

  lemma {:induction false} CallsToExact(want: seq<bool>, s: int, i: nat, call: (int, int))
    requires i <= |want|
    ensures multiset(CallsTo(want, s, i))[call] == if call.1 == s && 0 <= call.0 < i && want[call.0] then 1 else 0
  {
    if i > 0 {
      CallsToExact(want, s, i - 1, call);
      CountLast(CallsTo(want, s, i - 1), want[i - 1], (i - 1, s), call);
    }
  }

  /** One callback for each table that has one and uses the neighbor, no other. */
  lemma CallsExact(callbacks: seq<bool>, used: bv8, s: int, call: (int, int))
    requires |callbacks| == TABLES
    ensures multiset(Calls(callbacks, used, s))[call] ==
            if call.1 == s && 0 <= call.0 < TABLES && callbacks[call.0] && Test(used, call.0) then 1 else 0
  {
    CallsToExact(Wants(callbacks, used), s, |callbacks|, call);
  }

  lemma CountLast(before: seq<(int, int)>, add: bool, x: (int, int), call: (int, int))
    ensures multiset(before + if add then [x] else [])[call] == multiset(before)[call] + if add && x == call then 1 else 0
  {
    var last := if add then [x] else [];
    assert multiset(before + last) == multiset(before) + multiset(last);
  }

  /** The loop of remove_key. */
  method Announce(callbacks: seq<bool>, used: bv8, s: int) returns (calls: seq<(int, int)>)
    requires |callbacks| == TABLES
    ensures calls == Calls(callbacks, used, s)
  {
    calls := [];
    ghost var want := Wants(callbacks, used);
    var i := 0;
    while i < TABLES
      invariant 0 <= i <= TABLES && calls == CallsTo(want, s, i)
    {
      if callbacks[i] && Test(used, i) {
        calls := calls + [(i, s)];
      }
      i := i + 1;
    }
  }

  /** The callbacks an addition causes. */
  ghost function VictimCalls(callbacks: seq<bool>, t: Tab, victim: int): seq<(int, int)> {
    if |callbacks| == TABLES && 0 <= victim < |t.items| && 0 <= t.items[victim] < |t.used|
    then Calls(callbacks, t.used[t.items[victim]], t.items[victim]) else []
  }

  class Neighbors {
    const size: int
    const keys: List
    const callbacks: seq<bool>
    var count: seq<int>
    var addr: seq<int>
    var used: seq<bv8>
    var locked: seq<bv8>
    var data: seq<seq<int>>
    var calls: seq<(int, int)>

    ghost function View(): Tab
      reads this, keys
    {
      Tab(keys.items, addr, used, locked, data)
    }

    /** In order, except that slot `extra` is allocated and not listed. */
    ghost predicate ValidBut(extra: int)
      reads this, keys
    {
      |callbacks| == TABLES && keys.Valid() && Whole(View(), Pool(count, keys.next, keys.items)) in Wholes(size, extra)
    }

    ghost predicate Valid()
      reads this, keys
    {
      ValidBut(NULL)
    }

    constructor (size: nat, callbacks: seq<bool>)
      requires |callbacks| == TABLES
      ensures Valid() && keys.items == [] && calls == [] && this.size == size && fresh(keys)
    {
      this.size, this.callbacks := size, callbacks;
      keys := new List(Slots(size));
      count, addr := seq(size, _ => 0), seq(size, _ => 0);
      used, locked := seq(size, _ => 0), seq(size, _ => 0);
      data, calls := seq(TABLES, _ => seq(size, _ => 0)), [];
    }

    /** index_from_lladdr. */
    method IndexFromAddr(a: int) returns (s: int)
      requires Valid()
      ensures s == SlotOf(keys.items, addr, a)
    {
      s := keys.head;
      ghost var i := 0;
      while s != NULL
        invariant 0 <= i <= |keys.items| && s == At(keys.items, i)
        invariant forall j :: 0 <= j < i ==> addr[keys.items[j]] != a
        decreases |keys.items| - i
      {
        SlotFound(keys.items, addr, a, i);
        if addr[s] == a { return; }
        s, i := keys.next[s], i + 1;
      }
      SlotFound(keys.items, addr, a, i);
    }

    /** remove_key: callbacks for the tables that use the neighbor, then it is unlisted and
        unused. */
    method RemoveKey(s: int, ghost p: int)
      requires Valid() && 0 <= p < |keys.items| && s == keys.items[p]
      modifies this`used, this`calls, keys
      ensures ValidBut(s) && View() == Evicted(old(View()), s)
      ensures calls == old(calls) + Calls(callbacks, old(used[s]), s)
    {
      var announced := Announce(callbacks, used[s], s);
      calls := calls + announced;
      Unlist(s, p);
    }

    method Unlist(s: int, ghost p: int)
      requires Valid() && 0 <= p < |keys.items| && s == keys.items[p]
      modifies this`used, keys
      ensures ValidBut(s) && View() == Evicted(old(View()), s)
    {
      ghost var t, nx := View(), keys.next;
      EvictedTable(t, size, p);
      used := Stored(used, s, 0);
      keys.Remove(s);
      Unpooled(size, count, nx, t.items, keys.next, s);
      assert View() == Evicted(t, s);
    }

    /** memb_alloc. */
    method MembAlloc() returns (s: int)
      requires Valid()
      modifies this`count
      ensures s == NULL ==> Valid() && count == old(count)
      ensures s != NULL ==> ValidBut(s)
      ensures s == NULL <==> View() in Fulls(size)
    {
      ghost var t, nx := View(), keys.next;
      OnlyPool(t, Pool(count, nx, t.items), size, NULL);
      s, count := TakeFree(count, nx, t, size);
      WholeOf(t, Pool(count, nx, t.items), size, s);
    }

    /** nbr_table_allocate: a free slot if there is one; otherwise the slot of the evicted
        neighbor; none exactly when the table is full and every neighbor is locked. */
    method Allocate() returns (s: int, ghost victim: int)
      requires Valid()
      modifies this`count, this`used, this`calls, keys
      ensures s == NULL <==> old(View()) in Blocked(size)
      ensures s == NULL ==> Valid() && View() == old(View()) && calls == old(calls)
      ensures s != NULL ==>
                && ValidBut(s) && (s, victim) in Grants(old(View()), size)
                && View() == Vacated(old(View()), s, victim)
                && calls == old(calls) + VictimCalls(callbacks, old(View()), victim)
    {
      ghost var t := View();
      victim := NULL;
      s := MembAlloc();
      if s == NULL {
        s, victim := Replace();
      } else {
        GrantedFree(t, size, s, Pool(count, keys.next, keys.items));
      }
    }

    /** The replacement policy of nbr_table_allocate, once the pool is exhausted. */
    method Replace() returns (s: int, ghost victim: int)
      requires Valid() && View() in Fulls(size)
      modifies this`used, this`calls, keys
      ensures s == NULL <==> old(View()) in Blocked(size)
      ensures s == NULL ==> Valid() && View() == old(View()) && calls == old(calls)
      ensures s != NULL ==>
                && ValidBut(s) && (s, victim) in Grants(old(View()), size)
                && View() == Vacated(old(View()), s, victim)
                && calls == old(calls) + VictimCalls(callbacks, old(View()), victim)
    {
      s, victim := ChooseVictim();
      if s != NULL { RemoveKey(s, victim); }
    }

    method ChooseVictim() returns (s: int, ghost victim: int)
      requires Valid() && View() in Fulls(size)
      ensures s == NULL <==> View() in Blocked(size)
      ensures s != NULL ==>
                (s, victim) in Grants(View(), size) && 0 <= victim < |keys.items| && s == keys.items[victim]
    {
      ghost var t := View();
      s, victim := FindVictim(keys.next, keys.head, used, locked, t, size);
      VictimGranted(t, size, s, victim);
    }

    /** list_add and linkaddr_copy for a fresh key. */
    method Enlist(s: int, a: int)
      requires ValidBut(s) && s != NULL && SlotOf(keys.items, addr, a) == NULL
      modifies this`addr, keys
      ensures Valid() && View() == Inserted(old(View()), s, a)
    {
      ghost var t, nx := View(), keys.next;
      InsertedTable(t, size, s, a, Pool(count, nx, t.items));
      keys.Add(s);
      addr := Stored(addr, s, a);
      WithoutNone(t.items, s);
      Repooled(size, count, nx, t.items, keys.next, s);
      assert View() == Inserted(t, s, a);
    }

    /** memset of the item and the used bit. */
    method Clear(k: int, s: int)
      requires Valid() && 0 <= k < TABLES && s in keys.items
      modifies this`data, this`used
      ensures Valid() && View() == Cleared(old(View()), s, k)
    {
      ghost var t := View();
      ClearedTable(t, size, s, k);
      data, used := Zeroed(data, k, s), Marked(used, s, k, true);
      assert View() == Cleared(t, s, k);
    }

    /** The branch of nbr_table_add_lladdr for an address that is not in the table. */
    method AddNew(k: int, a: int) returns (item: int, ghost victim: int)
      requires Valid() && 0 <= k < TABLES && SlotOf(keys.items, addr, a) == NULL
      modifies this`count, this`addr, this`used, this`data, this`calls, keys
      ensures Valid()
      ensures item == NULL <==> old(View()) in Blocked(size)
      ensures item == NULL ==> View() == old(View()) && calls == old(calls)
      ensures item != NULL ==>
                && View() in Additions(old(View()), size, k, a, victim) && item == SlotOf(View().items, View().addr, a)
                && calls == old(calls) + VictimCalls(callbacks, old(View()), victim)
    {
      ghost var t := View();
      item, victim := Allocate();
      if item != NULL { Occupy(k, a, item, t, victim); }
    }

    /** Listing a granted slot under its new address, then its item in table k. */
    method Occupy(k: int, a: int, s: int, ghost t: Tab, ghost victim: int)
      requires ValidBut(s) && s != NULL && 0 <= k < TABLES && View() == Vacated(t, s, victim)
      requires t in Tables(size) && (s, victim) in Grants(t, size) && SlotOf(t.items, t.addr, a) == NULL
      modifies this`addr, this`used, this`data, keys
      ensures Valid() && View() in Additions(t, size, k, a, victim) && s == SlotOf(View().items, View().addr, a)
    {
      VacatedAbsent(t, size, a, s, victim);
      AddedNew(t, size, k, a, s, victim);
      Enlist(s, a);
      Clear(k, s);
    }

    /** nbr_table_add_lladdr.  Afterwards table k maps the address to a zeroed item.  If the
        address was new and the table full, the victim is gone from all tables and its
        callbacks were called; no other item changed.  It fails exactly when a new address
        finds the table full of locked neighbors. */
    method Add(k: int, lladdr: Option<int>) returns (item: int, ghost victim: int)
      requires Valid() && 0 <= k < TABLES
      modifies this`count, this`addr, this`used, this`data, this`calls, keys
      ensures Valid()
      ensures var a, t := Address(lladdr), old(View());
              item == NULL <==> SlotOf(t.items, t.addr, a) == NULL && t in Blocked(size)
      ensures item == NULL ==> View() == old(View()) && calls == old(calls)
      ensures item != NULL ==>
                && View() in Additions(old(View()), size, k, Address(lladdr), victim)
                && item == SlotOf(View().items, View().addr, Address(lladdr))
                && calls == old(calls) + VictimCalls(callbacks, old(View()), victim)
    {
      var a := Address(lladdr);
      item := IndexFromAddr(a);
      if item == NULL {
        item, victim := AddNew(k, a);
      } else {
        victim := NULL;
        Renew(k, a, item);
      }
    }

    /** The branch of nbr_table_add_lladdr for an address that is in the table. */
    method Renew(k: int, a: int, item: int)
      requires Valid() && 0 <= k < TABLES && item == SlotOf(keys.items, addr, a) && item != NULL
      modifies this`used, this`data
      ensures Valid() && View() in Additions(old(View()), size, k, a, NULL)
      ensures item == SlotOf(View().items, View().addr, a)
    {
      AddedOld(View(), size, k, a, item);
      Clear(k, item);
    }

    /** nbr_table_get_from_lladdr: lookup agrees with the abstract map. */
    method Get(k: int, lladdr: Option<int>) returns (item: int)
      requires Valid() && 0 <= k < TABLES
      ensures item == NULL <==> ItemOf(View(), size, k, Address(lladdr)) == None
      ensures item != NULL ==> item in keys.items && ItemOf(View(), size, k, Address(lladdr)) == Some(data[k][item])
    {
      item := IndexFromAddr(Address(lladdr));
      SlotInRange(keys.items, addr, Address(lladdr));
      if item != NULL && !Test(used[item], k) { item := NULL; }
    }

    /** nbr_table_remove. */
    method Remove(k: int, item: int) returns (ok: bool)
      requires Valid() && 0 <= k < TABLES && (item == NULL || 0 <= item < size)
      modifies this`used, this`locked
      ensures Valid() && ok == (item != NULL)
      ensures View() == if item == NULL then old(View()) else Dropped(old(View()), item, k)
    {
      ghost var t := View();
      ok := item != NULL;
      if ok {
        DroppedTable(t, size, item, k);
        used := Marked(used, item, k, false);
        locked := Marked(locked, item, k, false);
        assert View() == Dropped(t, item, k);
      }
    }

    /** nbr_table_lock and nbr_table_unlock. */
    method SetLock(k: int, item: int, value: bool) returns (ok: bool)
      requires Valid() && 0 <= k < TABLES && (item == NULL || 0 <= item < size)
      modifies this`locked
      ensures Valid() && ok == (item != NULL)
      ensures View() == if item == NULL then old(View()) else LockSet(old(View()), item, k, value)
    {
      ghost var t := View();
      ok := item != NULL;
      if ok {
        LockSetTable(t, size, item, k, value);
        locked := Marked(locked, item, k, value);
        assert View() == LockSet(t, item, k, value);
      }
    }

    /** nbr_table_next: the next used item in list order; none after an unlisted item. */
    method Next(k: int, item: int) returns (r: int)
      requires Valid() && 0 <= k < TABLES && (item == NULL || 0 <= item < size)
      ensures r == At(Listing(keys.items, used, k, After(keys.items, item, 0)), 0)
    {
      Placed(Shape(keys.next, keys.head, keys.items), Pool(count, keys.next, keys.items), size, item);
      r := keys.ItemNext(item);
      r := SkipUnused(keys.next, used, k, r, keys.items, After(keys.items, item, 0));
    }

    /** nbr_table_head. */
    method Head(k: int) returns (r: int)
      requires Valid() && 0 <= k < TABLES
      ensures r == At(Listing(keys.items, used, k, 0), 0)
    {
      r := keys.head;
      if r == NULL || !Test(used[r], k) {
        r := Next(k, r);
      }
    }

    /** The items a walk with nbr_table_next visits from `item`, at place i or later. */
    method Visit(k: int, item: int, ghost i: nat) returns (out: seq<int>)
      requires Valid() && 0 <= k < TABLES && item == At(Listing(keys.items, used, k, i), 0)
      ensures out == Listing(keys.items, used, k, i)
      decreases |keys.items| - i
    {
      ghost var j := ListingNext(View(), size, k, i);
      if item == NULL { return []; }
      var following := Next(k, item);
      out := Visit(k, following, j);
      out := [item] + out;
    }

    /** A whole walk with nbr_table_head and nbr_table_next over table k. */
    method Enumerate(k: int) returns (out: seq<int>)
      requires Valid() && 0 <= k < TABLES
      ensures out == Listing(keys.items, used, k, 0)
    {
      var first := Head(k);
      out := Visit(k, first, 0);
    }
  }

  /** A neighbor given without an address is entered under the null address. */
  function Address(lladdr: Option<int>): int {
    match lladdr case None => ADDR_NULL case Some(a) => a
  }

  /** The list after a was added in slot s: as it was, or with the new neighbor at its end. */
  ghost function ListedBy(t: Tab, s: int, a: int): seq<int>
    requires forall i :: 0 <= i < |t.items| ==> 0 <= t.items[i] < |t.addr|
  {
    if SlotOf(t.items, t.addr, a) != NULL then t.items else Without(t.items, s) + [s]
  }

  /** Table t' is t after a was added to table k and, unless victim is NULL, the neighbor at
      that place of the list was evicted. */
  ghost predicate AddedTo(t: Tab, t': Tab, n: int, k: int, a: int, victim: int)
    requires 0 <= k < TABLES
  {
    && Sized(t, n) && Sized(t', n)
    && (victim == NULL <==> SlotOf(t.items, t.addr, a) != NULL || !Full(t, n))
    && (victim != NULL ==> IsVictim(t, n, victim))
    && t'.locked == t.locked && t'.items == ListedBy(t, SlotOf(t'.items, t'.addr, a), a)
    && (forall x :: x in t'.items && t'.addr[x] != a ==>
          x in t.items && t'.addr[x] == t.addr[x] && t'.used[x] == t.used[x])
    && forall k', a' :: 0 <= k' < TABLES ==>
         ItemOf(t', n, k', a') ==
           if k' == k && a' == a then Some(0)
           else if victim != NULL && a' == t.addr[t.items[victim]] then None
           else ItemOf(t, n, k', a')
  }

  /** The tables that adding a to table k may lead to. */
  ghost function Additions(t: Tab, n: int, k: int, a: int, victim: int): iset<Tab>
    requires 0 <= k < TABLES
  {
    iset t': Tab | AddedTo(t, t', n, k, a, victim)
  }

  lemma EvictedTable(t: Tab, n: int, p: nat)
    requires t in Tables(n) && p < |t.items|
    ensures 0 <= t.items[p] < n && t.items[p] in t.items && Evicted(t, t.items[p]) in Tables(n)
  {
    EvictedSound(t, n, p);
  }

  lemma InsertedTable(t: Tab, n: int, s: int, a: int, p: Pool)
    requires t in Tables(n) && p in Pools(n, s) && s != NULL && p.items == t.items && SlotOf(t.items, t.addr, a) == NULL
    ensures 0 <= s < n && s !in t.items && s in p.next && Inserted(t, s, a) in Tables(n)
  {
    InsertedSound(t, n, s, a);
  }

  lemma DroppedTable(t: Tab, n: int, s: int, k: int)
    requires t in Tables(n) && 0 <= s < n && 0 <= k < TABLES
    ensures |t.used| == |t.locked| == n && Dropped(t, s, k) in Tables(n)
  {
    DroppedItems(t, n, s, k, k, 0);
  }

  lemma LockSetTable(t: Tab, n: int, s: int, k: int, value: bool)
    requires t in Tables(n) && 0 <= s < n && 0 <= k < TABLES
    ensures |t.locked| == n && LockSet(t, s, k, value) in Tables(n)
  {
    LockSetItems(t, n, s, k, value, k, 0);
  }

  /** While any table locks a neighbor, additions leave its items in all tables alone,
      except the one item that the addition itself clears. */
  lemma LockedStays(t: Tab, t': Tab, n: int, k: int, a: int, victim: int, i: nat, holder: int, k': int)
    requires t in Tables(n) && 0 <= k < TABLES && t' in Additions(t, n, k, a, victim)
    requires i < |t.items| && Test(t.locked[t.items[i]], holder) && 0 <= k' < TABLES
    requires !(k' == k && t.addr[t.items[i]] == a)
    ensures Sized(t', n) && ItemOf(t', n, k', t.addr[t.items[i]]) == ItemOf(t, n, k', t.addr[t.items[i]])
  {
    NoBits(holder);
    assert victim != i;
  }

  lemma ClearedTable(t: Tab, n: int, s: int, k: int)
    requires t in Tables(n) && s in t.items && 0 <= k < TABLES
    ensures 0 <= s < n && Cleared(t, s, k) in Tables(n)
  {
    ClearedItems(t, n, s, k, k, 0);
  }

  /** The full tables whose neighbors are all locked. */
  ghost function Blocked(n: int): iset<Tab> {
    iset t: Tab | Sized(t, n) && Full(t, n) && AllLocked(t, n)
  }

  /** The slots, each with the place of the neighbor evicted for it (NULL for none), that
      an allocation may grant. */
  ghost function Grants(t: Tab, n: int): iset<(int, int)> {
    iset g: (int, int) |
      && Sized(t, n) && 0 <= g.0 < n
      && if g.1 == NULL then !Full(t, n) && g.0 !in t.items
         else Full(t, n) && IsVictim(t, n, g.1) && g.0 == t.items[g.1]
  }

  /** The table once slot s has been granted. */
  ghost function Vacated(t: Tab, s: int, victim: int): Tab {
    if victim == NULL then t else Evicted(t, s)
  }

  lemma VictimGranted(t: Tab, n: int, s: int, p: int)
    requires t in Tables(n) && t in Fulls(n) && s == At(t.items, p)
    requires Sized(t, n) && if s == NULL then AllLocked(t, n) else IsVictim(t, n, p)
    ensures s == NULL <==> t in Blocked(n)
    ensures s != NULL ==> p != NULL && (s, p) in Grants(t, n)
  {}

  lemma GrantedFree(t: Tab, n: int, s: int, p: Pool)
    requires t in Tables(n) && t !in Fulls(n) && p in Pools(n, s) && p.items == t.items && s != NULL
    ensures (s, NULL) in Grants(t, n) && t !in Blocked(n)
  {}

  /** An address that was absent is still absent after an eviction. */
  lemma VacatedAbsent(t: Tab, n: int, a: int, s: int, victim: int)
    requires t in Tables(n) && SlotOf(t.items, t.addr, a) == NULL && (s, victim) in Grants(t, n)
    ensures var t0 := Vacated(t, s, victim);
            Sound(t0, n) && s !in t0.items && SlotOf(t0.items, t0.addr, a) == NULL
  {
    if victim != NULL {
      EvictedSound(t, n, victim);
      EvictedSlot(t.items, t.addr, victim, a);
    }
  }

  /** The table after a was given slot s, in place of the victim if there is one. */
  ghost function WithSlot(t: Tab, s: int, a: int, victim: int): Tab {
    Inserted(Vacated(t, s, victim), s, a)
  }

  lemma WithSlotTable(t: Tab, n: int, a: int, s: int, victim: int)
    requires t in Tables(n) && SlotOf(t.items, t.addr, a) == NULL && (s, victim) in Grants(t, n)
    ensures var t1 := WithSlot(t, s, a, victim);
            t1 in Tables(n) && s in t1.items && t1.addr[s] == a && SlotOf(t1.items, t1.addr, a) == s
  {
    var t0 := Vacated(t, s, victim);
    VacatedAbsent(t, n, a, s, victim);
    InsertedSound(t0, n, s, a);
    InsertedSlot(t0.items, t0.addr, s, a, a);
  }

  lemma WithSlotItems(t: Tab, n: int, a: int, s: int, victim: int, k: int, b: int)
    requires t in Tables(n) && SlotOf(t.items, t.addr, a) == NULL && (s, victim) in Grants(t, n) && 0 <= k < TABLES
    ensures Sized(WithSlot(t, s, a, victim), n)
    ensures ItemOf(WithSlot(t, s, a, victim), n, k, b) ==
            if victim != NULL && b == t.addr[t.items[victim]] then None else ItemOf(t, n, k, b)
  {
    var t0 := Vacated(t, s, victim);
    VacatedAbsent(t, n, a, s, victim);
    if victim != NULL { EvictedItems(t, n, victim, k, b); }
    InsertedItems(t0, n, s, a, k, b);
  }

  lemma AddedItem(t: Tab, n: int, a: int, s: int, victim: int, k: int, k': int, b: int)
    requires t in Tables(n) && SlotOf(t.items, t.addr, a) == NULL && (s, victim) in Grants(t, n) && 0 <= k < TABLES && 0 <= k' < TABLES
    ensures var t1 := WithSlot(t, s, a, victim);
            && Sized(t1, n) && Sized(Cleared(t1, s, k), n)
            && ItemOf(Cleared(t1, s, k), n, k', b) ==
                 if k' == k && b == a then Some(0)
                 else if victim != NULL && b == t.addr[t.items[victim]] then None
                 else ItemOf(t, n, k', b)
  {
    WithSlotTable(t, n, a, s, victim);
    WithSlotItems(t, n, a, s, victim, k', b);
    ClearedItems(WithSlot(t, s, a, victim), n, s, k, k', b);
  }

  lemma AddedNew(t: Tab, n: int, k: int, a: int, s: int, victim: int)
    requires t in Tables(n) && 0 <= k < TABLES && SlotOf(t.items, t.addr, a) == NULL && (s, victim) in Grants(t, n)
    ensures var t1 := WithSlot(t, s, a, victim);
            && t1 in Tables(n) && s in t1.items
            && Cleared(t1, s, k) in Additions(t, n, k, a, victim)
            && SlotOf(Cleared(t1, s, k).items, Cleared(t1, s, k).addr, a) == s
  {
    WithSlotTable(t, n, a, s, victim);
    var t1 := WithSlot(t, s, a, victim);
    AddedItem(t, n, a, s, victim, k, k, a);
    if victim == NULL { WithoutNone(t.items, s); }
    forall k', b | 0 <= k' < TABLES
      ensures ItemOf(Cleared(t1, s, k), n, k', b) ==
                if k' == k && b == a then Some(0)
                else if victim != NULL && b == t.addr[t.items[victim]] then None
                else ItemOf(t, n, k', b)
    {
      AddedItem(t, n, a, s, victim, k, k', b);
    }
    assert AddedTo(t, Cleared(t1, s, k), n, k, a, victim);
  }

  lemma AddedOld(t: Tab, n: int, k: int, a: int, s: int)
    requires t in Tables(n) && 0 <= k < TABLES && s == SlotOf(t.items, t.addr, a) && s != NULL
    ensures s in t.items && 0 <= s < n && Cleared(t, s, k) in Additions(t, n, k, a, NULL)
    ensures SlotOf(Cleared(t, s, k).items, Cleared(t, s, k).addr, a) == s
  {
    SlotInRange(t.items, t.addr, a);
    ClearedItems(t, n, s, k, k, a);
    forall k', b | 0 <= k' < TABLES
      ensures ItemOf(Cleared(t, s, k), n, k', b) == if k' == k && b == a then Some(0) else ItemOf(t, n, k', b)
    {
      ClearedItems(t, n, s, k, k', b);
    }
    assert AddedTo(t, Cleared(t, s, k), n, k, a, NULL);
  }

  lemma WholeOf(t: Tab, p: Pool, n: int, extra: int)
    requires t in Tables(n) && p in Pools(n, extra)
    ensures Whole(t, p) in Wholes(n, extra)
  {}

  lemma OnlyPool(t: Tab, p: Pool, n: int, extra: int)
    requires Whole(t, p) in Wholes(n, extra)
    ensures t in Tables(n) && p in Pools(n, extra)
  {}

  /** memb_alloc: the first free slot, counted; none exactly when all are listed. */
  method TakeFree(count: seq<int>, ghost next: map<int, int>, ghost t: Tab, ghost n: int) returns (s: int, count': seq<int>)
    requires Pool(count, next, t.items) in Pools(n, NULL)
    ensures s == NULL <==> t in Fulls(n)
    ensures s == NULL ==> count' == count
    ensures Pool(count', next, t.items) in Pools(n, s)
  {
    s := FirstFree(count);
    count' := count;
    if s == NULL {
      Exhausted(n, count, next, t);
    } else {
      Pooled(n, count, next, t, s);
      count' := Stored(count, s, count[s] + 1);
    }
  }

  lemma Exhausted(n: int, count: seq<int>, next: map<int, int>, t: Tab)
    requires Pool(count, next, t.items) in Pools(n, NULL) && forall j :: 0 <= j < |count| ==> count[j] != 0
    ensures t in Fulls(n)
  {}

  lemma Pooled(n: int, count: seq<int>, next: map<int, int>, t: Tab, s: int)
    requires Pool(count, next, t.items) in Pools(n, NULL) && 0 <= s < |count| && count[s] == 0
    ensures t !in Fulls(n) && Pool(Stored(count, s, count[s] + 1), next, t.items) in Pools(n, s)
  {}

  lemma Repooled(n: int, count: seq<int>, next: map<int, int>, items: seq<int>, next': map<int, int>, s: int)
    requires Pool(count, next, items) in Pools(n, s) && s != NULL
    requires next'.Keys == next.Keys && forall y :: y in next' && y !in items && y != s ==> next'[y] == next[y]
    ensures Pool(count, next', items + [s]) in Pools(n, NULL)
  {}

  lemma Unpooled(n: int, count: seq<int>, next: map<int, int>, items: seq<int>, next': map<int, int>, s: int)
    requires Pool(count, next, items) in Pools(n, NULL) && s in items && 0 <= s < n
    requires next'.Keys == next.Keys && (s in next' ==> next'[s] == NULL)
    requires forall y :: y in next' && y !in items ==> next'[y] == next[y]
    ensures Pool(count, next', Without(items, s)) in Pools(n, s)
  {}
}
