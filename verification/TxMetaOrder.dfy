/**
When the metadata store and the plain list go on agreeing: a hash queued more than once at one instant is evicted by
its first queue entry, while the list knows it by its last insertion.
*/
module TxMetaOrder {
  import opened Common
  import opened TxMetaStore

  /** The live entries in the order of their last insertion, which is the order of the list. */
  function ByLast(m: Table, q: Queue): seq<Entry>
    decreases |q|
  {
    if q == [] then []
    else
      var n := |q| - 1;
      if Matches(m, q[n]) then ByLast(m - {q[n].0}, q[..n]) + [Entry(q[n].0, m[q[n].0].0, q[n].1)]
      else ByLast(m, q[..n])
  }

  lemma {:induction false} ByLastMember(m: Table, q: Queue, e: Entry)
    ensures e in ByLast(m, q) <==> e.hash in m && m[e.hash] == (e.meta, e.at) && (e.hash, e.at) in q
    decreases |q|
  {
    if q != [] {
      var n := |q| - 1;
      assert q == q[..n] + [q[n]];
      ByLastMember(if Matches(m, q[n]) then m - {q[n].0} else m, q[..n], e);
    }
  }

  // ----- first and last places in the queue

  /** The first place of `e` in the queue, its length when it is not there. */
  function First(q: Queue, e: (Hash, nat)): nat {
    if q == [] || q[0] == e then 0 else 1 + First(q[1..], e)
  }

  /** One more than the last place of `e` in the queue, zero when it is not there. */
  function Last(q: Queue, e: (Hash, nat)): nat
    decreases |q|
  {
    if q == [] then 0 else if q[|q| - 1] == e then |q| else Last(q[..|q| - 1], e)
  }

  function KeyOf(e: Entry): (Hash, nat) { (e.hash, e.at) }

  function KeyIn(s: State, h: Hash): (Hash, nat)
    requires h in s.table
  {
    (h, s.table[h].1)
  }

  /** Of any two live hashes, the one queued first is the one inserted last no later. */
  ghost predicate InOrder(s: State) {
    forall g, h | g in s.table && h in s.table ::
      First(s.order, KeyIn(s, g)) < First(s.order, KeyIn(s, h)) <==>
      Last(s.order, KeyIn(s, g)) < Last(s.order, KeyIn(s, h))
  }

  lemma {:induction false} LiveByFirst(m: Table, q: Queue, i: nat, j: nat)
    requires i < j < |Live(m, q)|
    ensures First(q, KeyOf(Live(m, q)[i])) < First(q, KeyOf(Live(m, q)[j]))
    decreases |q|
  {
    var l := Live(m, q);
    LiveMember(m, q, l[i]);
    LiveMember(m, q, l[j]);
    if Matches(m, q[0]) {
      LiveMember(m - {q[0].0}, q[1..], l[j]);
      if i > 0 {
        LiveMember(m - {q[0].0}, q[1..], l[i]);
        LiveByFirst(m - {q[0].0}, q[1..], i - 1, j - 1);
      }
    } else {
      LiveByFirst(m, q[1..], i, j);
    }
  }

  lemma {:induction false} ByLastSorted(m: Table, q: Queue, i: nat, j: nat)
    requires i < j < |ByLast(m, q)|
    ensures Last(q, KeyOf(ByLast(m, q)[i])) < Last(q, KeyOf(ByLast(m, q)[j]))
    decreases |q|
  {
    var l, n := ByLast(m, q), |q| - 1;
    ByLastMember(m, q, l[i]);
    ByLastMember(m, q, l[j]);
    if Matches(m, q[n]) {
      ByLastMember(m - {q[n].0}, q[..n], l[i]);
      LastBound(q[..n], KeyOf(l[i]));
      if j < |l| - 1 {
        ByLastMember(m - {q[n].0}, q[..n], l[j]);
        ByLastSorted(m - {q[n].0}, q[..n], i, j);
      }
    } else {
      ByLastSorted(m, q[..n], i, j);
    }
  }

  lemma {:induction false} LastBound(q: Queue, e: (Hash, nat))
    ensures Last(q, e) <= |q|
    decreases |q|
  {
    if q != [] {
      LastBound(q[..|q| - 1], e);
    }
  }

  /** Two sequences of the same members in strictly increasing order of the same key are equal. */
  lemma {:induction false} SortedOnce(a: seq<Entry>, b: seq<Entry>, key: Entry -> nat)
    requires forall i, j :: 0 <= i < j < |a| ==> key(a[i]) < key(a[j])
    requires forall i, j :: 0 <= i < j < |b| ==> key(b[i]) < key(b[j])
    requires forall e :: e in a <==> e in b
    ensures a == b
  {
    if a == [] {
      HasMember(b);
    } else {
      assert a[0] in b;
      assert b[0] in a;
      var j :| 0 <= j < |b| && b[j] == a[0];
      var i :| 0 <= i < |a| && a[i] == b[0];
      assert i == 0 && j == 0;
      forall e
        ensures e in a[1..] <==> e in b[1..]
      {
        TailMember(a, e, key);
        TailMember(b, e, key);
      }
      SortedOnce(a[1..], b[1..], key);
    }
  }

  lemma HasMember(b: seq<Entry>)
    ensures b != [] ==> exists e :: e in b
  {
    if b != [] {
      assert b[0] in b;
    }
  }

  lemma TailMember(a: seq<Entry>, e: Entry, key: Entry -> nat)
    requires a != [] && forall i, j :: 0 <= i < j < |a| ==> key(a[i]) < key(a[j])
    ensures e in a[1..] <==> e in a && e != a[0]
  {
    assert a == [a[0]] + a[1..];
  }

  lemma SameMembers(s: State, e: Entry)
    ensures e in Live(s.table, s.order) <==> e in ByLast(s.table, s.order)
  {
    LiveMember(s.table, s.order, e);
    ByLastMember(s.table, s.order, e);
  }

  /** The two orders are one exactly when first and last places order the live hashes alike. */
  lemma InOrderExactlyWhen(s: State)
    requires Covered(s)
    ensures InOrder(s) <==> Live(s.table, s.order) == ByLast(s.table, s.order)
  {
    if InOrder(s) {
      OrdersMeet(s);
    } else if Live(s.table, s.order) == ByLast(s.table, s.order) {
      OneOrder(s);
    }
  }

  lemma OrdersMeet(s: State)
    requires Covered(s) && InOrder(s)
    ensures Live(s.table, s.order) == ByLast(s.table, s.order)
  {
    var m, q := s.table, s.order;
    var a, b, key := Live(m, q), ByLast(m, q), (e: Entry) => First(q, KeyOf(e));
    forall i, j | 0 <= i < j < |a|
      ensures key(a[i]) < key(a[j])
    {
      LiveByFirst(m, q, i, j);
    }
    forall i, j | 0 <= i < j < |b|
      ensures key(b[i]) < key(b[j])
    {
      ByLastSorted(m, q, i, j);
      ByLastMember(m, q, b[i]);
      ByLastMember(m, q, b[j]);
      assert KeyIn(s, b[i].hash) == KeyOf(b[i]) && KeyIn(s, b[j].hash) == KeyOf(b[j]);
    }
    forall e
      ensures e in a <==> e in b
    {
      SameMembers(s, e);
    }
    SortedOnce(a, b, key);
  }

  lemma OneOrder(s: State)
    requires Covered(s) && Live(s.table, s.order) == ByLast(s.table, s.order)
    ensures InOrder(s)
  {
    var m, q := s.table, s.order;
    var l := Live(m, q);
    forall g, h | g in m && h in m
      ensures First(q, KeyIn(s, g)) < First(q, KeyIn(s, h)) <==> Last(q, KeyIn(s, g)) < Last(q, KeyIn(s, h))
    {
      var i := PlaceOf(s, g);
      var j := PlaceOf(s, h);
      if i < j {
        LiveByFirst(m, q, i, j);
        ByLastSorted(m, q, i, j);
      } else if j < i {
        LiveByFirst(m, q, j, i);
        ByLastSorted(m, q, j, i);
      }
    }
  }

  lemma PlaceOf(s: State, h: Hash) returns (i: nat)
    requires Covered(s) && h in s.table
    ensures i < |Live(s.table, s.order)| && KeyOf(Live(s.table, s.order)[i]) == KeyIn(s, h)
  {
    var e := Entry(h, s.table[h].0, s.table[h].1);
    LiveIsTable(s, e);
    i :| 0 <= i < |Live(s.table, s.order)| && Live(s.table, s.order)[i] == e;
  }

  // ----- agreeing from now on

  /** The list holds exactly the table's entries. */
  ghost predicate Agree(s: State, l: seq<Entry>) {
    forall e: Entry :: e in l <==> e.hash in s.table && s.table[e.hash] == (e.meta, e.at)
  }

  /** However the store goes on, as long as it inserts no hash that is still queued at that instant, it agrees. */
  ghost predicate AgreesForever(s: State, l: seq<Entry>, now: nat, cap: nat, ttl: nat) {
    forall ops | Clocked(now, ops) && Ticks(s, ops, cap, ttl) ::
      Agree(RunFrom(s, ops, cap, ttl), ListRunFrom(l, ops, cap, ttl))
  }

  lemma OwnOrderAgrees(s: State, now: nat, cap: nat, ttl: nat)
    requires Fine(s, now, cap, ttl)
    ensures AgreesForever(s, Live(s.table, s.order), now, cap, ttl)
  {
    forall ops | Clocked(now, ops) && Ticks(s, ops, cap, ttl)
      ensures Agree(RunFrom(s, ops, cap, ttl), ListRunFrom(Live(s.table, s.order), ops, cap, ttl))
    {
      RunKeeps(s, now, ops, cap, ttl);
      StoreIsListFrom(s, now, ops, cap, ttl);
      forall e: Entry
        ensures e in ListRunFrom(Live(s.table, s.order), ops, cap, ttl) <==>
                e.hash in RunFrom(s, ops, cap, ttl).table && RunFrom(s, ops, cap, ttl).table[e.hash] == (e.meta, e.at)
      {
        LiveIsTable(RunFrom(s, ops, cap, ttl), e);
      }
    }
  }

  // ----- inserting hashes that are new

  function NewHash(k: nat): Hash { seq(k, _ => 0) }

  function NewPuts(base: nat, meta: TxMeta, now: nat, n: nat): (r: seq<Op>)
    ensures |r| == n && forall i :: 0 <= i < n ==> r[i] == Put(NewHash(base + i), meta, now)
  {
    seq(n, i requires 0 <= i < n => Put(NewHash(base + i), meta, now))
  }

  function NewEntries(base: nat, meta: TxMeta, now: nat, n: nat): (r: seq<Entry>)
    ensures |r| == n && forall i :: 0 <= i < n ==> r[i] == Entry(NewHash(base + i), meta, now)
  {
    seq(n, i requires 0 <= i < n => Entry(NewHash(base + i), meta, now))
  }

  lemma NewSnoc(base: nat, meta: TxMeta, now: nat, n: nat)
    ensures NewPuts(base, meta, now, n + 1)[..n] == NewPuts(base, meta, now, n)
    ensures NewEntries(base, meta, now, n + 1) ==
            NewEntries(base, meta, now, n) + [Entry(NewHash(base + n), meta, now)]
  {
  }

  lemma {:induction false} NewClocked(base: nat, meta: TxMeta, now: nat, n: nat)
    ensures Clocked(now, NewPuts(base, meta, now, n)) && LastTime(now, NewPuts(base, meta, now, n)) == now
  {
    if n > 0 {
      NewClocked(base, meta, now, n - 1);
      NewSnoc(base, meta, now, n - 1);
    }
  }

  /** All hashes of a store are shorter than the new ones. */
  ghost predicate Below(s: State, base: nat) {
    (forall h <- s.table :: |h| < base) && forall e <- s.order :: |e.0| < base
  }

  lemma {:induction false} NewTicks(s: State, base: nat, meta: TxMeta, now: nat, n: nat, cap: nat, ttl: nat)
    requires Below(s, base)
    ensures Ticks(s, NewPuts(base, meta, now, n), cap, ttl)
  {
    if n > 0 {
      var before, e := NewPuts(base, meta, now, n - 1), (NewHash(base + n - 1), now);
      NewTicks(s, base, meta, now, n - 1, cap, ttl);
      NewSnoc(base, meta, now, n - 1);
      if e in RunFrom(s, before, cap, ttl).order {
        RunQueues(s, before, cap, ttl, e);
        NewNotQueued(base, meta, now, n - 1);
        assert false;
      }
    }
  }

  lemma NewNotQueued(base: nat, meta: TxMeta, now: nat, n: nat)
    ensures !Queued(NewPuts(base, meta, now, n), (NewHash(base + n), now))
  {
    var puts := NewPuts(base, meta, now, n);
    forall i | 0 <= i < |puts|
      ensures puts[i].hash != NewHash(base + n)
    {
      assert |puts[i].hash| == base + i;
    }
  }

  lemma NewestTwice(l: seq<Entry>, e: Entry, cap: nat)
    ensures Newest(Newest(l, cap) + [e], cap) == Newest(l + [e], cap)
  {
  }

  lemma NewestWithin(l: seq<Entry>, cap: nat, e: Entry)
    requires e in Newest(l, cap)
    ensures e in l
  {
  }

  lemma ListInsertNew(l: seq<Entry>, base: nat, k: nat, meta: TxMeta, now: nat, cap: nat, ttl: nat)
    requires forall e <- l :: |e.hash| < base + k && Age(now, e.at) < ttl
    requires ttl > 0
    ensures ListInsert(l, NewHash(base + k), meta, now, cap, ttl) == Newest(l + [Entry(NewHash(base + k), meta, now)], cap)
  {
    assert |NewHash(base + k)| == base + k;
    WithoutAbsent(l, NewHash(base + k));
    YoungAll(l + [Entry(NewHash(base + k), meta, now)], now, ttl);
  }

  lemma NewestFits(l: seq<Entry>, base: nat, meta: TxMeta, now: nat, k: nat, cap: nat, ttl: nat)
    requires ttl > 0 && forall e <- l :: |e.hash| < base && Age(now, e.at) < ttl
    ensures forall e <- Newest(l + NewEntries(base, meta, now, k), cap) :: |e.hash| < base + k && Age(now, e.at) < ttl
  {
    var more := NewEntries(base, meta, now, k);
    forall e | e in Newest(l + more, cap)
      ensures |e.hash| < base + k && Age(now, e.at) < ttl
    {
      NewestWithin(l + more, cap, e);
      if e !in l {
        var i :| 0 <= i < k && more[i] == e;
        assert |NewHash(base + i)| == base + i;
      }
    }
  }

  lemma {:induction false} ListNew(l: seq<Entry>, base: nat, meta: TxMeta, now: nat, n: nat, cap: nat, ttl: nat)
    requires |l| <= cap && ttl > 0 && forall e <- l :: |e.hash| < base && Age(now, e.at) < ttl
    ensures ListRunFrom(l, NewPuts(base, meta, now, n), cap, ttl) == Newest(l + NewEntries(base, meta, now, n), cap)
  {
    if n == 0 {
      assert l + [] == l;
    } else {
      var k := n - 1;
      var all, more := l + NewEntries(base, meta, now, k), Entry(NewHash(base + k), meta, now);
      ListNew(l, base, meta, now, k, cap, ttl);
      NewSnoc(base, meta, now, k);
      NewestFits(l, base, meta, now, k, cap, ttl);
      ListInsertNew(Newest(all, cap), base, k, meta, now, cap, ttl);
      NewestTwice(all, more, cap);
      assert all + [more] == l + NewEntries(base, meta, now, n);
    }
  }

  // ----- the two orders apart

  lemma PopBackCovers(m: Table, q: Queue)
    requires Covered(State(m, q)) && q != []
    ensures var n := |q| - 1; Covered(State(if Matches(m, q[n]) then m - {q[n].0} else m, q[..n]))
  {
    var n := |q| - 1;
    forall h | h in m && (h != q[n].0 || !Matches(m, q[n]))
      ensures (h, m[h].1) in q[..n]
    {
      assert (h, m[h].1) in q && q == q[..n] + [q[n]];
    }
  }

  lemma {:induction false} ByLastCount(m: Table, q: Queue)
    requires Covered(State(m, q))
    ensures |ByLast(m, q)| == |m|
    decreases |q|
  {
    if q == [] {
      if |m| > 0 {
        CoveredNotEmpty(State(m, q));
      }
    } else {
      var n := |q| - 1;
      PopBackCovers(m, q);
      if Matches(m, q[n]) {
        ByLastCount(m - {q[n].0}, q[..n]);
        assert (m - {q[n].0}).Keys == m.Keys - {q[n].0};
        assert |m.Keys - {q[n].0}| == |m.Keys| - 1;
      } else {
        ByLastCount(m, q[..n]);
      }
    }
  }

  lemma {:induction false} FirstDifference(a: seq<Entry>, b: seq<Entry>) returns (k: nat)
    requires |a| == |b| && a != b
    ensures k < |a| && a[k] != b[k] && a[..k] == b[..k]
  {
    if a[0] != b[0] {
      k := 0;
    } else {
      assert a == [a[0]] + a[1..] && b == [b[0]] + b[1..];
      k := FirstDifference(a[1..], b[1..]);
      assert a[..k + 1] == [a[0]] + a[1..][..k] && b[..k + 1] == [b[0]] + b[1..][..k];
      k := k + 1;
    }
  }

  lemma NewestTail(l: seq<Entry>, f: seq<Entry>, k: nat, cap: nat)
    requires k < |l| <= cap && |f| == cap - |l| + k + 1
    ensures Newest(l + f, cap) == l[k + 1..] + f
  {
  }

  /** The member at the first difference is still to come in the other sequence, and gone from its own. */
  lemma StillToCome(a: seq<Entry>, b: seq<Entry>, k: nat)
    requires k < |a| == |b| && a[k] != b[k] && a[..k] == b[..k] && a[k] in b
    requires forall i, j :: 0 <= i < j < |a| ==> a[i] != a[j]
    ensures a[k] in b[k + 1..] && a[k] !in a[k + 1..]
  {
    forall j | 0 <= j < k
      ensures b[j] != a[k]
    {
      assert b[j] == b[..k][j] == a[..k][j] == a[j];
    }
    var j :| 0 <= j < |b| && b[j] == a[k];
    assert j > k && b[k + 1..][j - k - 1] == a[k];
  }

  lemma Longest(s: State) returns (base: nat)
    ensures Below(s, base)
  {
    var b1 := LongestKey(s.table.Keys);
    var b2 := LongestQueued(s.order);
    base := if b1 < b2 then b2 else b1;
  }

  lemma LongestKey(keys: set<Hash>) returns (base: nat)
    ensures forall h <- keys :: |h| < base
    decreases |keys|
  {
    if keys == {} {
      base := 0;
    } else {
      var h :| h in keys;
      base := LongestKey(keys - {h});
      base := if |h| < base then base else |h| + 1;
    }
  }

  lemma LongestQueued(q: Queue) returns (base: nat)
    ensures forall e <- q :: |e.0| < base
    decreases |q|
  {
    if q == [] {
      base := 0;
    } else {
      base := LongestQueued(q[1..]);
      base := if |q[0].0| < base then base else |q[0].0| + 1;
      assert q == [q[0]] + q[1..];
    }
  }

  /** With two different orders, as many new hashes as push the first difference out make the store lose the wrong one. */
  lemma OrdersApart(s: State, now: nat, cap: nat, ttl: nat, meta: TxMeta) returns (ops: seq<Op>, lost: Entry)
    requires Fine(s, now, cap, ttl) && Live(s.table, s.order) != ByLast(s.table, s.order)
    ensures Clocked(now, ops) && Ticks(s, ops, cap, ttl)
    ensures lost in ListRunFrom(ByLast(s.table, s.order), ops, cap, ttl)
    ensures lost.hash in RunFrom(s, ops, cap, ttl).table ==>
              RunFrom(s, ops, cap, ttl).table[lost.hash] != (lost.meta, lost.at)
  {
    var a, b := Live(s.table, s.order), ByLast(s.table, s.order);
    LiveCount(s.table, s.order);
    ByLastCount(s.table, s.order);
    var k := FirstDifference(a, b);
    lost := a[k];
    SameMembers(s, lost);
    forall i, j | 0 <= i < j < |a|
      ensures a[i] != a[j]
    {
      LiveByFirst(s.table, s.order, i, j);
    }
    StillToCome(a, b, k);
    var base := Longest(s);
    var n := cap - |a| + k + 1;
    ops := NewPuts(base, meta, now, n);
    var f := NewEntries(base, meta, now, n);
    NewClocked(base, meta, now, n);
    NewTicks(s, base, meta, now, n, cap, ttl);
    MembersFit(s, now, cap, ttl, base);
    ListNew(a, base, meta, now, n, cap, ttl);
    ListNew(b, base, meta, now, n, cap, ttl);
    NewestTail(a, f, k, cap);
    NewestTail(b, f, k, cap);
    LostIsGone(s, now, ops, cap, ttl, lost, a[k + 1..] + f);
  }

  lemma MembersFit(s: State, now: nat, cap: nat, ttl: nat, base: nat)
    requires Fine(s, now, cap, ttl) && Below(s, base)
    ensures forall e <- Live(s.table, s.order) :: |e.hash| < base && Age(now, e.at) < ttl
    ensures forall e <- ByLast(s.table, s.order) :: |e.hash| < base && Age(now, e.at) < ttl
  {
    forall e | e in Live(s.table, s.order)
      ensures |e.hash| < base && Age(now, e.at) < ttl
    {
      LiveMember(s.table, s.order, e);
    }
    forall e | e in ByLast(s.table, s.order)
      ensures |e.hash| < base && Age(now, e.at) < ttl
    {
      ByLastMember(s.table, s.order, e);
    }
  }

  lemma LostIsGone(s: State, now: nat, ops: seq<Op>, cap: nat, ttl: nat, lost: Entry, left: seq<Entry>)
    requires Fine(s, now, cap, ttl) && Clocked(now, ops) && Ticks(s, ops, cap, ttl)
    requires ListRunFrom(Live(s.table, s.order), ops, cap, ttl) == left && lost !in left
    ensures lost.hash in RunFrom(s, ops, cap, ttl).table ==>
              RunFrom(s, ops, cap, ttl).table[lost.hash] != (lost.meta, lost.at)
  {
    RunKeeps(s, now, ops, cap, ttl);
    StoreIsListFrom(s, now, ops, cap, ttl);
    LiveIsTable(RunFrom(s, ops, cap, ttl), lost);
  }

  /**
  The store goes on agreeing with the list of its insertions if and only if the first and last places of its live
  hashes in the queue are in the same order.
  */
  lemma AgreesExactlyWhen(s: State, now: nat, cap: nat, ttl: nat)
    requires Fine(s, now, cap, ttl)
    ensures AgreesForever(s, ByLast(s.table, s.order), now, cap, ttl) <==> InOrder(s)
  {
    InOrderExactlyWhen(s);
    if InOrder(s) {
      OwnOrderAgrees(s, now, cap, ttl);
    } else {
      var ops, lost := OrdersApart(s, now, cap, ttl, TxMeta([], []));
      assert !Agree(RunFrom(s, ops, cap, ttl), ListRunFrom(ByLast(s.table, s.order), ops, cap, ttl));
    }
  }

  /** And so after every run. */
  lemma RunAgreesExactlyWhen(ops: seq<Op>, cap: nat, ttl: nat)
    requires Clocked(0, ops)
    ensures var s := Run(ops, cap, ttl);
            AgreesForever(s, ByLast(s.table, s.order), LastTime(0, ops), cap, ttl) <==> InOrder(s)
  {
    EmptyIsFine(0, cap, ttl);
    RunKeeps(Empty(), 0, ops, cap, ttl);
    AgreesExactlyWhen(Run(ops, cap, ttl), LastTime(0, ops), cap, ttl);
  }

  // ----- inserting a hash again at one instant

  lemma {:induction false} WithoutSnoc(l: seq<Entry>, x: Entry, hash: Hash)
    ensures Without(l + [x], hash) == Without(l, hash) + if x.hash == hash then [] else [x]
  {
    var all := l + [x];
    if l == [] {
      assert all == [x] && [x][1..] == [];
    } else {
      assert all[1..] == l[1..] + [x] && all[0] == l[0];
      WithoutSnoc(l[1..], x, hash);
    }
  }

  lemma {:induction false} ByLastRemove(m: Table, q: Queue, hash: Hash)
    ensures ByLast(m - {hash}, q) == Without(ByLast(m, q), hash)
    decreases |q|
  {
    if q != [] {
      var n := |q| - 1;
      var h, front := q[n].0, q[..n];
      if Matches(m, q[n]) {
        ByLastRemove(m - {h}, front, hash);
        WithoutSnoc(ByLast(m - {h}, front), Entry(h, m[h].0, q[n].1), hash);
        assert m - {hash} - {h} == m - {h} - {hash};
        if h == hash {
          assert m - {h} - {hash} == m - {h};
        }
      } else {
        ByLastRemove(m, front, hash);
      }
    }
  }

  lemma {:induction false} ByLastStale(m: Table, q: Queue)
    requires q != [] && !Matches(m, q[0])
    ensures ByLast(m, q[1..]) == ByLast(m, q)
    decreases |q|
  {
    var n := |q| - 1;
    if n > 0 {
      assert q[1..][n - 1] == q[n] && q[1..][..n - 1] == q[..n][1..];
      ByLastStale(if Matches(m, q[n]) then m - {q[n].0} else m, q[..n]);
    }
  }

  /** Popping the front entry, with its table entry if they match, takes at most that hash off the list. */
  lemma ByLastPop(m: Table, q: Queue)
    requires q != []
    ensures !Matches(m, q[0]) ==> ByLast(m, q[1..]) == ByLast(m, q)
    ensures Matches(m, q[0]) ==> ByLast(m - {q[0].0}, q[1..]) == Without(ByLast(m, q), q[0].0)
  {
    if Matches(m, q[0]) {
      ByLastStale(m - {q[0].0}, q);
      ByLastRemove(m, q, q[0].0);
    } else {
      ByLastStale(m, q);
    }
  }

  lemma YoungCons(x: Entry, l: seq<Entry>, now: nat, ttl: nat)
    ensures Young([x] + l, now, ttl) == (if Age(now, x.at) >= ttl then [] else [x]) + Young(l, now, ttl)
  {
    assert ([x] + l)[1..] == l;
  }

  lemma {:induction false} YoungWithout(l: seq<Entry>, hash: Hash, now: nat, ttl: nat)
    requires forall e <- l :: e.hash == hash ==> Age(now, e.at) >= ttl
    ensures Young(Without(l, hash), now, ttl) == Young(l, now, ttl)
  {
    if l != [] {
      var x, rest := l[0], l[1..];
      YoungWithout(rest, hash, now, ttl);
      assert l == [x] + rest;
      YoungCons(x, rest, now, ttl);
      YoungCons(x, Without(rest, hash), now, ttl);
      if x.hash == hash {
        assert Without(l, hash) == Without(rest, hash) && Young(l, now, ttl) == Young(rest, now, ttl);
      } else {
        assert Without(l, hash) == [x] + Without(rest, hash);
      }
    }
  }

  lemma {:induction false} ExpireByLast(s: State, now: nat, ttl: nat)
    requires Ascending(s.order, now)
    ensures var s' := Expire(s, now, ttl); ByLast(s'.table, s'.order) == Young(ByLast(s.table, s.order), now, ttl)
    decreases |s.order|
  {
    var l := ByLast(s.table, s.order);
    if s.order != [] {
      var e, rest := s.order[0], s.order[1..];
      ByLastPop(s.table, s.order);
      if !Matches(s.table, e) {
        ExpireByLast(State(s.table, rest), now, ttl);
      } else if Age(now, e.1) >= ttl {
        ExpireByLast(State(s.table - {e.0}, rest), now, ttl);
        forall x | x in l && x.hash == e.0
          ensures Age(now, x.at) >= ttl
        {
          ByLastMember(s.table, s.order, x);
        }
        YoungWithout(l, e.0, now, ttl);
      } else {
        forall x | x in l
          ensures Age(now, x.at) < ttl
        {
          ByLastMember(s.table, s.order, x);
        }
        YoungAll(l, now, ttl);
      }
    }
  }

  lemma {:induction false} LastShifts(q: Queue, e: (Hash, nat))
    requires q != [] && e in q[1..]
    ensures Last(q, e) == Last(q[1..], e) + 1
    decreases |q|
  {
    var n := |q| - 1;
    assert q[1..][n - 1] == q[n] && q[1..][..n - 1] == q[..n][1..];
    if q[n] != e {
      assert q[1..] == q[1..][..n - 1] + [q[n]];
      LastShifts(q[..n], e);
    }
  }

  function Popped(s: State): State
    requires s.order != []
  {
    State(if Matches(s.table, s.order[0]) then s.table - {s.order[0].0} else s.table, s.order[1..])
  }

  lemma PopKeepsOrder(s: State)
    requires Covered(s) && InOrder(s) && s.order != []
    ensures Covered(Popped(s)) && InOrder(Popped(s))
  {
    PopCovers(s);
    var s', q := Popped(s), s.order;
    forall g, h | g in s'.table && h in s'.table
      ensures First(s'.order, KeyIn(s', g)) < First(s'.order, KeyIn(s', h)) <==>
              Last(s'.order, KeyIn(s', g)) < Last(s'.order, KeyIn(s', h))
    {
      LastShifts(q, KeyIn(s, g));
      LastShifts(q, KeyIn(s, h));
      assert q[0] != KeyIn(s, g) && q[0] != KeyIn(s, h);
    }
  }

  lemma {:induction false} TrimKeepsOrder(s: State, cap: nat)
    requires Covered(s) && InOrder(s)
    ensures Covered(Trim(s, cap)) && InOrder(Trim(s, cap))
    decreases |s.order|
  {
    if |s.table| > cap && s.order != [] {
      PopKeepsOrder(s);
      TrimKeepsOrder(Popped(s), cap);
    }
  }

  lemma InsertedByLast(s: State, hash: Hash, meta: TxMeta, now: nat)
    ensures var s' := Inserted(s, hash, meta, now);
            ByLast(s'.table, s'.order) == Without(ByLast(s.table, s.order), hash) + [Entry(hash, meta, now)]
  {
    var s' := Inserted(s, hash, meta, now);
    assert s'.order[..|s.order|] == s.order && s'.table - {hash} == s.table - {hash};
    ByLastRemove(s.table, s.order, hash);
  }

  /** Any insert, at whatever instant, does what it does to the list, if what is left to trim is in order. */
  lemma OrderlyInsert(s: State, hash: Hash, meta: TxMeta, now: nat, cap: nat, ttl: nat)
    requires Covered(s) && Ascending(s.order, now) && InOrder(Expire(Inserted(s, hash, meta, now), now, ttl))
    ensures var s' := Insert(s, hash, meta, now, cap, ttl);
            && InOrder(s')
            && ByLast(s'.table, s'.order) == ListInsert(ByLast(s.table, s.order), hash, meta, now, cap, ttl)
  {
    var s1 := Inserted(s, hash, meta, now);
    InsertedCovers(s, hash, meta, now);
    InsertedAscends(s.order, (hash, now));
    InsertedByLast(s, hash, meta, now);
    ExpireByLast(s1, now, ttl);
    ExpireKeeps(s1, now, ttl);
    TrimsAlike(Expire(s1, now, ttl), cap);
  }

  lemma TrimsAlike(s: State, cap: nat)
    requires Covered(s) && InOrder(s)
    ensures var s' := Trim(s, cap); InOrder(s') && ByLast(s'.table, s'.order) == Newest(ByLast(s.table, s.order), cap)
  {
    InOrderExactlyWhen(s);
    TrimKeepsOrder(s, cap);
    InOrderExactlyWhen(Trim(s, cap));
    TrimLive(s, cap);
  }

  /** Whenever the run is about to trim, the live hashes are in order. */
  ghost predicate Orderly(ops: seq<Op>, cap: nat, ttl: nat) {
    ops != [] ==>
      var before, op := ops[..|ops| - 1], ops[|ops| - 1];
      && Orderly(before, cap, ttl)
      && (op.Put? ==> InOrder(Expire(Inserted(Run(before, cap, ttl), op.hash, op.meta, op.now), op.now, ttl)))
  }

  lemma {:induction false} PatchByLast(m: Table, q: Queue, hash: Hash, id: seq<byte>)
    ensures ByLast(Patched(m, hash, id), q) == WithId(ByLast(m, q), hash, id)
    decreases |q|
  {
    if q != [] {
      var n := |q| - 1;
      var h, front := q[n].0, q[..n];
      if Matches(m, q[n]) {
        PatchByLast(m - {h}, front, hash, id);
        assert Patched(m, hash, id) - {h} == Patched(m - {h}, hash, id);
        WithIdSnoc(ByLast(m - {h}, front), Entry(h, m[h].0, q[n].1), hash, id);
      } else {
        PatchByLast(m, front, hash, id);
      }
    }
  }

  lemma {:induction false} WithIdSnoc(l: seq<Entry>, x: Entry, hash: Hash, id: seq<byte>)
    ensures WithId(l + [x], hash, id) == WithId(l, hash, id) + WithId([x], hash, id)
  {
    var all := l + [x];
    if l == [] {
      assert all == [x] && [] + WithId([x], hash, id) == WithId([x], hash, id);
    } else {
      assert all[1..] == l[1..] + [x] && all[0] == l[0];
      WithIdSnoc(l[1..], x, hash, id);
      var first := WithId(l, hash, id)[..1];
      assert WithId(all, hash, id) == first + (WithId(l[1..], hash, id) + WithId([x], hash, id));
      assert WithId(l, hash, id) == first + WithId(l[1..], hash, id);
    }
  }

  /** Over every orderly run, ticking or not, the store is the plain list. */
  lemma {:induction false} OrderlyRunIsList(ops: seq<Op>, cap: nat, ttl: nat)
    requires Clocked(0, ops) && Orderly(ops, cap, ttl)
    ensures var s := Run(ops, cap, ttl); ByLast(s.table, s.order) == ListRun(ops, cap, ttl)
  {
    if ops != [] {
      var before, op := ops[..|ops| - 1], ops[|ops| - 1];
      var s := Run(before, cap, ttl);
      OrderlyRunIsList(before, cap, ttl);
      EmptyIsFine(0, cap, ttl);
      RunKeeps(Empty(), 0, before, cap, ttl);
      match op {
        case Put(hash, meta, now) =>
          AscendingLater(s.order, LastTime(0, before), now);
          OrderlyInsert(s, hash, meta, now, cap, ttl);
        case Delete(hash) =>
          ByLastRemove(s.table, s.order, hash);
        case Patch(hash, id) =>
          PatchByLast(s.table, s.order, hash, id);
      }
    }
  }

  // ----- one hash twice at one instant

  lemma RunSnoc(ops: seq<Op>, op: Op, cap: nat, ttl: nat)
    ensures Run(ops + [op], cap, ttl) == Apply(Run(ops, cap, ttl), op, cap, ttl)
    ensures ListRun(ops + [op], cap, ttl) == ListApply(ListRun(ops, cap, ttl), op, cap, ttl)
    ensures Clocked(0, ops + [op]) <==> Clocked(0, ops) && (op.Put? ==> op.now >= LastTime(0, ops))
    ensures LastTime(0, ops + [op]) == if op.Put? then op.now else LastTime(0, ops)
  {
    assert (ops + [op])[..|ops|] == ops;
  }

  /** With every age zero and the front entry live, an insert only trims. */
  lemma PutNow(s: State, hash: Hash, meta: TxMeta, cap: nat)
    requires s.order != [] ==> Matches(s.table[hash := (meta, 0)], s.order[0]) && s.order[0].1 == 0
    ensures Insert(s, hash, meta, 0, cap, 1) == Trim(Inserted(s, hash, meta, 0), cap)
  {
  }

  lemma ListPutNow(l: seq<Entry>, hash: Hash, meta: TxMeta, cap: nat)
    requires forall e <- l :: e.at == 0 && e.hash != hash
    ensures ListInsert(l, hash, meta, 0, cap, 1) == Newest(l + [Entry(hash, meta, 0)], cap)
  {
    WithoutAbsent(l, hash);
    YoungAll(l + [Entry(hash, meta, 0)], 0, 1);
  }

  ghost predicate Reaches(ops: seq<Op>, s: State, l: seq<Entry>) {
    Run(ops, 2, 1) == s && ListRun(ops, 2, 1) == l && Clocked(0, ops) && LastTime(0, ops) == 0
  }

  lemma ThenPut(ops: seq<Op>, s: State, l: seq<Entry>, hash: Hash, meta: TxMeta)
    requires Reaches(ops, s, l) && forall e <- l :: e.at == 0 && e.hash != hash
    requires s.order != [] ==> Matches(s.table[hash := (meta, 0)], s.order[0]) && s.order[0].1 == 0
    ensures Reaches(ops + [Put(hash, meta, 0)], Trim(Inserted(s, hash, meta, 0), 2), Newest(l + [Entry(hash, meta, 0)], 2))
  {
    RunSnoc(ops, Put(hash, meta, 0), 2, 1);
    PutNow(s, hash, meta, 2);
    ListPutNow(l, hash, meta, 2);
  }

  lemma ThenDelete(ops: seq<Op>, s: State, l: seq<Entry>, hash: Hash)
    requires Reaches(ops, s, l)
    ensures Reaches(ops + [Delete(hash)], State(s.table - {hash}, s.order), Without(l, hash))
  {
    RunSnoc(ops, Delete(hash), 2, 1);
  }

  lemma Pairs(a: Hash, b: Hash, c: Hash, x: (TxMeta, nat))
    requires a != b && a != c && b != c
    ensures |map[a := x, b := x]| == 2 && |map[a := x, b := x, c := x]| == 3
    ensures map[a := x, b := x, c := x] - {a} == map[b := x, c := x]
    ensures map[a := x, b := x] - {b} == map[a := x]
  {
    assert map[a := x, b := x].Keys == {a, b};
    assert map[a := x, b := x, c := x].Keys == {a, b, c};
  }

  lemma TrimFirst(s: State, a: Hash, b: Hash, c: Hash, x: (TxMeta, nat), rest: Queue)
    requires a != b && a != c && b != c
    requires s == State(map[a := x, b := x, c := x], [(a, x.1)] + rest)
    ensures Trim(s, 2) == State(map[b := x, c := x], rest)
  {
    Pairs(a, b, c, x);
    Pairs(b, c, a, x);
    assert s.order[0] == (a, x.1) && s.order[1..] == rest;
  }

  lemma StalePut(ops: seq<Op>, a: Hash, h: Hash, q: Queue, meta: TxMeta)
    requires a != h && q != [] && q[0] == (a, 0)
    requires Reaches(ops, State(map[a := (meta, 0)], q), [Entry(a, meta, 0)])
    ensures Reaches(ops + [Put(h, meta, 0)], State(map[a := (meta, 0), h := (meta, 0)], q + [(h, 0)]),
                    [Entry(a, meta, 0), Entry(h, meta, 0)])
  {
    var s := State(map[a := (meta, 0)], q);
    ThenPut(ops, s, [Entry(a, meta, 0)], h, meta);
    assert |map[a := (meta, 0), h := (meta, 0)]| == 2;
    assert Inserted(s, h, meta, 0) == State(map[a := (meta, 0), h := (meta, 0)], q + [(h, 0)]);
    assert [Entry(a, meta, 0)] + [Entry(h, meta, 0)] == [Entry(a, meta, 0), Entry(h, meta, 0)];
  }

  lemma StaleDelete(ops: seq<Op>, a: Hash, h: Hash, q: Queue, meta: TxMeta)
    requires a != h
    requires Reaches(ops, State(map[a := (meta, 0), h := (meta, 0)], q), [Entry(a, meta, 0), Entry(h, meta, 0)])
    ensures Reaches(ops + [Delete(h)], State(map[a := (meta, 0)], q), [Entry(a, meta, 0)])
  {
    var l := [Entry(a, meta, 0), Entry(h, meta, 0)];
    ThenDelete(ops, State(map[a := (meta, 0), h := (meta, 0)], q), l, h);
    assert map[a := (meta, 0), h := (meta, 0)] - {h} == map[a := (meta, 0)];
    assert l[1..] == [Entry(h, meta, 0)] && l[1..][1..] == [];
    assert Without(l[1..], h) == [];
  }

  lemma NewestOfThree(l: seq<Entry>, e: Entry)
    requires |l| == 2
    ensures Newest(l + [e], 2) == [l[1], e]
  {
  }

  lemma InsertedThird(s: State, front: Hash, other: Hash, h: Hash, rest: Queue, meta: TxMeta)
    requires s == State(map[front := (meta, 0), other := (meta, 0)], [(front, 0)] + rest)
    ensures Inserted(s, h, meta, 0) == State(map[front := (meta, 0), other := (meta, 0), h := (meta, 0)],
                                             [(front, 0)] + (rest + [(h, 0)]))
  {
  }

  /** Inserting a third hash trims the one at the front of the queue, whichever insertion it belonged to. */
  lemma TrimmingPut(ops: seq<Op>, front: Hash, other: Hash, h: Hash, rest: Queue, l: seq<Entry>, meta: TxMeta)
    requires front != other && front != h && other != h && |l| == 2
    requires forall e <- l :: e.at == 0 && e.hash != h
    requires Reaches(ops, State(map[front := (meta, 0), other := (meta, 0)], [(front, 0)] + rest), l)
    ensures Reaches(ops + [Put(h, meta, 0)], State(map[other := (meta, 0), h := (meta, 0)], rest + [(h, 0)]),
                    [l[1], Entry(h, meta, 0)])
  {
    var s := State(map[front := (meta, 0), other := (meta, 0)], [(front, 0)] + rest);
    ThenPut(ops, s, l, h, meta);
    InsertedThird(s, front, other, h, rest, meta);
    TrimFirst(Inserted(s, h, meta, 0), front, other, h, (meta, 0), rest + [(h, 0)]);
    NewestOfThree(l, Entry(h, meta, 0));
  }

  lemma FirstPut(a: Hash, meta: TxMeta)
    ensures Reaches([Put(a, meta, 0)], State(map[a := (meta, 0)], [(a, 0)]), [Entry(a, meta, 0)])
  {
    ThenPut([], State(map[], []), [], a, meta);
    assert [] + [Put(a, meta, 0)] == [Put(a, meta, 0)];
    assert [] + [Entry(a, meta, 0)] == [Entry(a, meta, 0)];
    assert Inserted(State(map[], []), a, meta, 0) == State(map[a := (meta, 0)], [(a, 0)]);
  }

  lemma ReachDouble(ops: seq<Op>, a: Hash, g: Hash, h: Hash, meta: TxMeta)
    requires a != g && a != h && g != h
    requires Reaches(ops, State(map[a := (meta, 0), g := (meta, 0)], [(a, 0)] + [(h, 0)] + [(g, 0)]),
                     [Entry(a, meta, 0), Entry(g, meta, 0)])
    ensures Reaches(ops + [Put(h, meta, 0)], State(map[h := (meta, 0), g := (meta, 0)], [(h, 0)] + [(g, 0), (h, 0)]),
                    [Entry(g, meta, 0), Entry(h, meta, 0)])
  {
    var rest := [(h, 0), (g, 0)];
    assert [(a, 0)] + [(h, 0)] + [(g, 0)] == [(a, 0)] + rest;
    TrimmingPut(ops, a, g, h, rest, [Entry(a, meta, 0), Entry(g, meta, 0)], meta);
    assert map[g := (meta, 0), h := (meta, 0)] == map[h := (meta, 0), g := (meta, 0)];
    assert rest + [(h, 0)] == [(h, 0)] + [(g, 0), (h, 0)];
  }

  lemma LoseNewer(ops: seq<Op>, g: Hash, h: Hash, k: Hash, meta: TxMeta)
    requires g != h && g != k && h != k
    requires Reaches(ops, State(map[h := (meta, 0), g := (meta, 0)], [(h, 0)] + [(g, 0), (h, 0)]),
                     [Entry(g, meta, 0), Entry(h, meta, 0)])
    ensures Reaches(ops + [Put(k, meta, 0)], State(map[g := (meta, 0), k := (meta, 0)], [(g, 0), (h, 0)] + [(k, 0)]),
                    [Entry(h, meta, 0), Entry(k, meta, 0)])
  {
    TrimmingPut(ops, h, g, k, [(g, 0), (h, 0)], [Entry(g, meta, 0), Entry(h, meta, 0)], meta);
  }

  lemma ReachStale(ops: seq<Op>, a: Hash, g: Hash, h: Hash, meta: TxMeta)
    requires a != g && a != h && g != h
    requires Reaches(ops, State(map[a := (meta, 0)], [(a, 0)]), [Entry(a, meta, 0)])
    ensures Reaches(ops + [Put(h, meta, 0)] + [Delete(h)] + [Put(g, meta, 0)],
                    State(map[a := (meta, 0), g := (meta, 0)], [(a, 0)] + [(h, 0)] + [(g, 0)]),
                    [Entry(a, meta, 0), Entry(g, meta, 0)])
  {
    StalePut(ops, a, h, [(a, 0)], meta);
    StaleDelete(ops + [Put(h, meta, 0)], a, h, [(a, 0)] + [(h, 0)], meta);
    StalePut(ops + [Put(h, meta, 0)] + [Delete(h)], a, g, [(a, 0)] + [(h, 0)], meta);
  }

  /**
   Without a ticking clock the store can lose a newer insertion and keep an older one: a hash removed and inserted
   again at the same instant is found through its stale queue entry.
   */
  lemma EqualInstantsLoseNewer(a: Hash, g: Hash, h: Hash, k: Hash, meta: TxMeta) returns (ops: seq<Op>)
    requires a != g && a != h && g != h && g != k && h != k
    ensures Clocked(0, ops) && ListRun(ops, 2, 1) == [Entry(h, meta, 0), Entry(k, meta, 0)]
    ensures Run(ops, 2, 1).table == map[g := (meta, 0), k := (meta, 0)]
  {
    FirstPut(a, meta);
    ReachStale([Put(a, meta, 0)], a, g, h, meta);
    ops := [Put(a, meta, 0)] + [Put(h, meta, 0)] + [Delete(h)] + [Put(g, meta, 0)];
    ReachDouble(ops, a, g, h, meta);
    ops := ops + [Put(h, meta, 0)];
    LoseNewer(ops, g, h, k, meta);
    ops := ops + [Put(k, meta, 0)];
  }
}
