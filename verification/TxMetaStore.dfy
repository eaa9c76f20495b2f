/**
The relay's bounded transaction-metadata store: a map with insertion instants and a FIFO queue that may hold stale
entries, evicted by age and then by size on every insert. The simple form it refines is an ordered list of live
insertions.
*/
module TxMetaStore {
  import opened Common

  type Hash = seq<byte>

  /** The one field the store patches, and everything else about the transaction. */
  datatype TxMeta = TxMeta(koinosTxId: seq<byte>, details: seq<byte>)

  type Queue = seq<(Hash, nat)>
  type Table = map<Hash, (TxMeta, nat)>

  datatype State = State(table: Table, order: Queue)

  predicate Matches(m: Table, e: (Hash, nat)) { e.0 in m && m[e.0].1 == e.1 }

  /** `duration_since`, which saturates at zero. */
  function Age(now: nat, then_: nat): nat { if now < then_ then 0 else now - then_ }

  // ----- what the operations do

  /** The first eviction loop: stale and expired entries off the front. */
  function Expire(s: State, now: nat, ttl: nat): State
    decreases |s.order|
  {
    if s.order == [] then s
    else
      var e, rest := s.order[0], s.order[1..];
      if !Matches(s.table, e) then Expire(State(s.table, rest), now, ttl)
      else if Age(now, e.1) >= ttl then Expire(State(s.table - {e.0}, rest), now, ttl)
      else s
  }

  /** The second: entries off the front until the table fits. */
  function Trim(s: State, cap: nat): State
    decreases |s.order|
  {
    if |s.table| <= cap || s.order == [] then s
    else
      var e, rest := s.order[0], s.order[1..];
      Trim(State(if Matches(s.table, e) then s.table - {e.0} else s.table, rest), cap)
  }

  function Inserted(s: State, hash: Hash, meta: TxMeta, now: nat): State {
    State(s.table[hash := (meta, now)], s.order + [(hash, now)])
  }

  function Insert(s: State, hash: Hash, meta: TxMeta, now: nat, cap: nat, ttl: nat): State {
    Trim(Expire(Inserted(s, hash, meta, now), now, ttl), cap)
  }

  function Patched(m: Table, hash: Hash, id: seq<byte>): Table {
    if hash in m then m[hash := (m[hash].0.(koinosTxId := id), m[hash].1)] else m
  }

  class TxMetaStore {
    var table: Table
    var order: Queue
    const cap: nat
    const ttl: nat

    function View(): State
      reads this
    {
      State(table, order)
    }

    constructor (cap: nat, ttl: nat)
      ensures this.cap == (if cap < 1 then 1 else cap) && this.ttl == ttl && View() == State(map[], [])
    {
      this.cap := if cap < 1 then 1 else cap;
      this.ttl := ttl;
      table, order := map[], [];
    }

    method Contains(hash: Hash) returns (found: bool)
      ensures found <==> hash in table
    {
      found := hash in table;
    }

    method Get(hash: Hash) returns (meta: Option<TxMeta>)
      ensures meta == if hash in table then Some(table[hash].0) else None
    {
      meta := if hash in table then Some(table[hash].0) else None;
    }

    method Add(hash: Hash, meta: TxMeta, now: nat)
      requires Covered(View())
      modifies this`table, this`order
      ensures View() == Insert(old(View()), hash, meta, now, cap, ttl)
    {
      table := table[hash := (meta, now)];
      order := order + [(hash, now)];
      InsertedCovers(old(View()), hash, meta, now);
      Evict(now);
    }

    method SetKoinosTxId(hash: Hash, id: seq<byte>)
      modifies this`table
      ensures table == Patched(old(table), hash, id)
    {
      if hash in table {
        table := table[hash := (table[hash].0.(koinosTxId := id), table[hash].1)];
      }
    }

    method Remove(hash: Hash)
      modifies this`table
      ensures table == old(table) - {hash}
    {
      table := table - {hash};
    }

    method Evict(now: nat)
      requires Covered(View())
      modifies this`table, this`order
      ensures View() == Trim(Expire(old(View()), now, ttl), cap)
    {
      while order != []
        invariant Covered(View()) && Expire(View(), now, ttl) == Expire(old(View()), now, ttl)
        decreases |order|
      {
        var (hash, inserted) := order[0];
        PopCovers(View());
        if !(hash in table && table[hash].1 == inserted) {
          order := order[1..];
        } else if Age(now, inserted) >= ttl {
          order := order[1..];
          table := table - {hash};
        } else {
          break;
        }
      }
      ghost var swept := View();
      assert swept == Expire(old(View()), now, ttl);
      while |table| > cap
        invariant Covered(View()) && Trim(View(), cap) == Trim(swept, cap)
        decreases |order|
      {
        CoveredNotEmpty(View());
        assert order != [];  // the source's "unreachable" branch is for an empty queue here
        var (hash, inserted) := order[0];
        PopCovers(View());
        order := order[1..];
        if hash in table && table[hash].1 == inserted {
          table := table - {hash};
        }
      }
    }
  }

  // ----- what holds for any clock that does not go back

  /** Every entry of the table has its queue entry. */
  ghost predicate Covered(s: State) {
    forall h | h in s.table :: (h, s.table[h].1) in s.order
  }

  ghost predicate Ascending(q: Queue, now: nat) {
    && (forall i, j :: 0 <= i < j < |q| ==> q[i].1 <= q[j].1)
    && (forall i :: 0 <= i < |q| ==> q[i].1 <= now)
  }

  lemma CoveredNotEmpty(s: State)
    requires Covered(s) && |s.table| > 0
    ensures s.order != []
  {
    assert s.table.Keys != {};
    var h :| h in s.table;
    assert (h, s.table[h].1) in s.order;
  }

  lemma InsertedCovers(s: State, hash: Hash, meta: TxMeta, now: nat)
    requires Covered(s)
    ensures Covered(Inserted(s, hash, meta, now))
  {
    var s' := Inserted(s, hash, meta, now);
    assert s'.order[|s.order|] == (hash, now);
  }

  /** Popping the front entry, with its table entry when they match, or alone when they do not. */
  lemma PopCovers(s: State)
    requires Covered(s) && s.order != []
    ensures Covered(State(s.table - {s.order[0].0}, s.order[1..]))
    ensures !Matches(s.table, s.order[0]) ==> Covered(State(s.table, s.order[1..]))
  {
    var e, rest := s.order[0], s.order[1..];
    forall h | h in s.table && (h != e.0 || !Matches(s.table, e))
      ensures (h, s.table[h].1) in rest
    {
      assert (h, s.table[h].1) in s.order;
      assert s.order == [e] + rest;
    }
  }

  lemma {:induction false} ExpireKeeps(s: State, now: nat, ttl: nat)
    requires Covered(s) && Ascending(s.order, now)
    ensures var s' := Expire(s, now, ttl);
            Covered(s') && Ascending(s'.order, now) && AllYoung(s'.order, now, ttl)
    decreases |s.order|
  {
    if s.order != [] {
      var e, rest := s.order[0], s.order[1..];
      PopCovers(s);
      if !Matches(s.table, e) {
        ExpireKeeps(State(s.table, rest), now, ttl);
      } else if Age(now, e.1) >= ttl {
        ExpireKeeps(State(s.table - {e.0}, rest), now, ttl);
      }
    }
  }

  lemma {:induction false} TrimKeeps(s: State, cap: nat) returns (k: nat)
    requires Covered(s)
    ensures Covered(Trim(s, cap)) && |Trim(s, cap).table| <= cap
    ensures k <= |s.order| && Trim(s, cap).order == s.order[k..]
    decreases |s.order|
  {
    k := 0;
    if |s.table| > cap {
      CoveredNotEmpty(s);
      PopCovers(s);
      var e, rest := s.order[0], s.order[1..];
      k := TrimKeeps(State(if Matches(s.table, e) then s.table - {e.0} else s.table, rest), cap);
      assert s.order[k + 1..] == rest[k..];
      k := k + 1;
    }
  }

  /** Every queued entry is younger than the TTL. */
  ghost predicate AllYoung(q: Queue, now: nat, ttl: nat) {
    forall i :: 0 <= i < |q| ==> Age(now, q[i].1) < ttl
  }

  lemma SweptAndTrimmed(s1: State, s2: State, s3: State, now: nat, cap: nat, ttl: nat)
    requires Covered(s1) && Ascending(s1.order, now) && s2 == Expire(s1, now, ttl) && s3 == Trim(s2, cap)
    ensures Covered(s3) && Ascending(s3.order, now) && |s3.table| <= cap && AllYoung(s3.order, now, ttl)
  {
    ExpireKeeps(s1, now, ttl);
    var k := TrimKeeps(s2, cap);
    SuffixKeeps(s2.order, k, now, ttl);
  }

  lemma SuffixKeeps(q: Queue, k: nat, now: nat, ttl: nat)
    requires k <= |q| && Ascending(q, now) && AllYoung(q, now, ttl)
    ensures Ascending(q[k..], now) && AllYoung(q[k..], now, ttl)
  {
  }

  /** After every insert the table fits, each of its entries is queued, and every queued entry is younger than the TTL. */
  lemma InsertKeeps(s: State, hash: Hash, meta: TxMeta, now: nat, cap: nat, ttl: nat)
    requires Covered(s) && Ascending(s.order, now)
    ensures var s' := Insert(s, hash, meta, now, cap, ttl);
            Covered(s') && Ascending(s'.order, now) && |s'.table| <= cap && AllYoung(s'.order, now, ttl)
  {
    var s1 := Inserted(s, hash, meta, now);
    InsertedCovers(s, hash, meta, now);
    InsertedAscends(s.order, (hash, now));
    SweptAndTrimmed(s1, Expire(s1, now, ttl), Insert(s, hash, meta, now, cap, ttl), now, cap, ttl);
  }

  lemma InsertedAscends(q: Queue, e: (Hash, nat))
    requires Ascending(q, e.1)
    ensures Ascending(q + [e], e.1)
  {
  }

  // ----- the plain list of live insertions

  datatype Entry = Entry(hash: Hash, meta: TxMeta, at: nat)

  function Without(l: seq<Entry>, hash: Hash): seq<Entry> {
    if l == [] then [] else (if l[0].hash == hash then [] else [l[0]]) + Without(l[1..], hash)
  }

  function Young(l: seq<Entry>, now: nat, ttl: nat): seq<Entry> {
    if l == [] then [] else (if Age(now, l[0].at) >= ttl then [] else [l[0]]) + Young(l[1..], now, ttl)
  }

  function Newest(l: seq<Entry>, cap: nat): seq<Entry> { if |l| <= cap then l else l[|l| - cap..] }

  function WithId(l: seq<Entry>, hash: Hash, id: seq<byte>): seq<Entry> {
    if l == [] then []
    else [if l[0].hash == hash then l[0].(meta := l[0].meta.(koinosTxId := id)) else l[0]] + WithId(l[1..], hash, id)
  }

  function ListInsert(l: seq<Entry>, hash: Hash, meta: TxMeta, now: nat, cap: nat, ttl: nat): seq<Entry> {
    Newest(Young(Without(l, hash) + [Entry(hash, meta, now)], now, ttl), cap)
  }

  /**
  The live entries of a store, in the order in which it would evict them: by the first queue entry that matches the
  table.
  */
  function Live(m: Table, q: Queue): seq<Entry>
    decreases |q|
  {
    if q == [] then []
    else if Matches(m, q[0]) then [Entry(q[0].0, m[q[0].0].0, q[0].1)] + Live(m - {q[0].0}, q[1..])
    else Live(m, q[1..])
  }

  lemma {:induction false} LiveMember(m: Table, q: Queue, e: Entry)
    ensures e in Live(m, q) <==> e.hash in m && m[e.hash] == (e.meta, e.at) && (e.hash, e.at) in q
    decreases |q|
  {
    if q != [] {
      assert q == [q[0]] + q[1..];
      LiveMember(if Matches(m, q[0]) then m - {q[0].0} else m, q[1..], e);
    }
  }

  /** The live entries are exactly the table's. */
  lemma LiveIsTable(s: State, e: Entry)
    requires Covered(s)
    ensures e in Live(s.table, s.order) <==> e.hash in s.table && s.table[e.hash] == (e.meta, e.at)
  {
    LiveMember(s.table, s.order, e);
  }

  lemma {:induction false} LiveRemove(m: Table, q: Queue, hash: Hash)
    ensures Live(m - {hash}, q) == Without(Live(m, q), hash)
    decreases |q|
  {
    if q != [] {
      var h, rest := q[0].0, q[1..];
      if Matches(m, q[0]) {
        LiveRemove(m - {h}, rest, hash);
        assert m - {hash} - {h} == m - {h} - {hash};
        if h == hash {
          assert m - {h} - {hash} == m - {h};
        }
        assert Live(m, q)[1..] == Live(m - {h}, rest);
      } else {
        LiveRemove(m, rest, hash);
      }
    }
  }

  lemma {:induction false} WithoutAbsent(l: seq<Entry>, hash: Hash)
    requires forall e <- l :: e.hash != hash
    ensures Without(l, hash) == l
  {
    if l != [] {
      WithoutAbsent(l[1..], hash);
    }
  }

  lemma {:induction false} YoungAll(l: seq<Entry>, now: nat, ttl: nat)
    requires forall e <- l :: Age(now, e.at) < ttl
    ensures Young(l, now, ttl) == l
  {
    if l != [] {
      YoungAll(l[1..], now, ttl);
    }
  }

  lemma YoungDropsFirst(x: Entry, l: seq<Entry>, now: nat, ttl: nat)
    requires Age(now, x.at) >= ttl
    ensures Young([x] + l, now, ttl) == Young(l, now, ttl)
  {
    assert ([x] + l)[1..] == l;
  }

  lemma {:induction false} ExpireLive(s: State, now: nat, ttl: nat)
    requires Ascending(s.order, now)
    ensures var s' := Expire(s, now, ttl); Live(s'.table, s'.order) == Young(Live(s.table, s.order), now, ttl)
    decreases |s.order|
  {
    if s.order != [] {
      var e, rest := s.order[0], s.order[1..];
      if !Matches(s.table, e) {
        ExpireLive(State(s.table, rest), now, ttl);
      } else if Age(now, e.1) >= ttl {
        YoungDropsFirst(Entry(e.0, s.table[e.0].0, e.1), Live(s.table - {e.0}, rest), now, ttl);
        ExpireLive(State(s.table - {e.0}, rest), now, ttl);
      } else {
        forall x | x in Live(s.table, s.order)
          ensures Age(now, x.at) < ttl
        {
          LiveMember(s.table, s.order, x);
        }
        YoungAll(Live(s.table, s.order), now, ttl);
      }
    }
  }

  lemma {:induction false} LiveCount(m: Table, q: Queue)
    requires Covered(State(m, q))
    ensures |Live(m, q)| == |m|
    decreases |q|
  {
    if q == [] {
      if |m| > 0 {
        CoveredNotEmpty(State(m, q));
      }
    } else {
      var h, rest := q[0].0, q[1..];
      PopCovers(State(m, q));
      if Matches(m, q[0]) {
        LiveCount(m - {h}, rest);
        assert (m - {h}).Keys == m.Keys - {h};
        assert |m.Keys - {h}| == |m.Keys| - 1;
      } else {
        LiveCount(m, rest);
      }
    }
  }

  lemma NewestOfMore(x: Entry, l: seq<Entry>, cap: nat)
    requires |l| >= cap
    ensures Newest([x] + l, cap) == Newest(l, cap)
  {
  }

  lemma {:induction false} TrimLive(s: State, cap: nat)
    requires Covered(s)
    ensures var s' := Trim(s, cap); Live(s'.table, s'.order) == Newest(Live(s.table, s.order), cap)
    decreases |s.order|
  {
    LiveCount(s.table, s.order);
    if |s.table| > cap {
      CoveredNotEmpty(s);
      PopCovers(s);
      var e, rest := s.order[0], s.order[1..];
      if Matches(s.table, e) {
        NewestOfMore(Entry(e.0, s.table[e.0].0, e.1), Live(s.table - {e.0}, rest), cap);
        TrimLive(State(s.table - {e.0}, rest), cap);
      } else {
        TrimLive(State(s.table, rest), cap);
      }
    }
  }

  /** An entry queued last that was not queued before. */
  lemma {:induction false} LiveSnoc(m: Table, q: Queue, e: (Hash, nat))
    requires Matches(m, e) && e !in q
    ensures Live(m, q + [e]) == Live(m - {e.0}, q) + [Entry(e.0, m[e.0].0, e.1)]
    decreases |q|
  {
    var all := q + [e];
    if q == [] {
      assert all == [e] && [e][1..] == [];
    } else {
      var h, rest := q[0].0, q[1..];
      assert all[1..] == rest + [e] && all[0] == q[0];
      if Matches(m, q[0]) {
        assert h != e.0;
        LiveSnoc(m - {h}, rest, e);
        assert m - {h} - {e.0} == m - {e.0} - {h};
      } else {
        LiveSnoc(m, rest, e);
      }
    }
  }

  lemma InsertedLive(s: State, hash: Hash, meta: TxMeta, now: nat)
    requires (hash, now) !in s.order
    ensures var s' := Inserted(s, hash, meta, now);
            Live(s'.table, s'.order) == Without(Live(s.table, s.order), hash) + [Entry(hash, meta, now)]
  {
    var m := s.table[hash := (meta, now)];
    LiveSnoc(m, s.order, (hash, now));
    assert m - {hash} == s.table - {hash};
    LiveRemove(s.table, s.order, hash);
  }

  /** An insert does to the store what it does to the list, unless its hash is still queued at this very instant. */
  lemma InsertRefines(s: State, hash: Hash, meta: TxMeta, now: nat, cap: nat, ttl: nat)
    requires Covered(s) && Ascending(s.order, now) && (hash, now) !in s.order
    ensures var s' := Insert(s, hash, meta, now, cap, ttl);
            Live(s'.table, s'.order) == ListInsert(Live(s.table, s.order), hash, meta, now, cap, ttl)
  {
    var s1 := Inserted(s, hash, meta, now);
    InsertedCovers(s, hash, meta, now);
    InsertedAscends(s.order, (hash, now));
    InsertedLive(s, hash, meta, now);
    ExpireLive(s1, now, ttl);
    ExpireKeeps(s1, now, ttl);
    TrimLive(Expire(s1, now, ttl), cap);
  }

  lemma {:induction false} PatchLive(m: Table, q: Queue, hash: Hash, id: seq<byte>)
    ensures Live(Patched(m, hash, id), q) == WithId(Live(m, q), hash, id)
    decreases |q|
  {
    if q != [] {
      var h, rest := q[0].0, q[1..];
      if Matches(m, q[0]) {
        PatchLive(m - {h}, rest, hash, id);
        assert Patched(m, hash, id) - {h} == Patched(m - {h}, hash, id);
        assert Live(m, q)[1..] == Live(m - {h}, rest);
      } else {
        PatchLive(m, rest, hash, id);
      }
    }
  }

  // ----- whole runs

  datatype Op = Put(hash: Hash, meta: TxMeta, now: nat) | Delete(hash: Hash) | Patch(hash: Hash, id: seq<byte>)

  function Apply(s: State, op: Op, cap: nat, ttl: nat): State {
    match op
    case Put(hash, meta, now) => Insert(s, hash, meta, now, cap, ttl)
    case Delete(hash) => State(s.table - {hash}, s.order)
    case Patch(hash, id) => State(Patched(s.table, hash, id), s.order)
  }

  function ListApply(l: seq<Entry>, op: Op, cap: nat, ttl: nat): seq<Entry> {
    match op
    case Put(hash, meta, now) => ListInsert(l, hash, meta, now, cap, ttl)
    case Delete(hash) => Without(l, hash)
    case Patch(hash, id) => WithId(l, hash, id)
  }

  function RunFrom(s: State, ops: seq<Op>, cap: nat, ttl: nat): State {
    if ops == [] then s else Apply(RunFrom(s, ops[..|ops| - 1], cap, ttl), ops[|ops| - 1], cap, ttl)
  }

  function ListRunFrom(l: seq<Entry>, ops: seq<Op>, cap: nat, ttl: nat): seq<Entry> {
    if ops == [] then l else ListApply(ListRunFrom(l, ops[..|ops| - 1], cap, ttl), ops[|ops| - 1], cap, ttl)
  }

  function Empty(): State { State(map[], []) }

  function Run(ops: seq<Op>, cap: nat, ttl: nat): State { RunFrom(Empty(), ops, cap, ttl) }

  function ListRun(ops: seq<Op>, cap: nat, ttl: nat): seq<Entry> { ListRunFrom([], ops, cap, ttl) }

  /** The time of the last insert, `now` before the first. */
  function LastTime(now: nat, ops: seq<Op>): nat {
    if ops == [] then now
    else if ops[|ops| - 1].Put? then ops[|ops| - 1].now
    else LastTime(now, ops[..|ops| - 1])
  }

  /** From `now` on the clock does not go back from one insert to the next. */
  ghost predicate Clocked(now: nat, ops: seq<Op>) {
    ops != [] ==>
      && Clocked(now, ops[..|ops| - 1])
      && (ops[|ops| - 1].Put? ==> ops[|ops| - 1].now >= LastTime(now, ops[..|ops| - 1]))
  }

  /** No hash is inserted at an instant at which it is still queued. */
  ghost predicate Ticks(s: State, ops: seq<Op>, cap: nat, ttl: nat) {
    ops != [] ==>
      var before, op := ops[..|ops| - 1], ops[|ops| - 1];
      && Ticks(s, before, cap, ttl)
      && (op.Put? ==> (op.hash, op.now) !in RunFrom(s, before, cap, ttl).order)
  }

  /** What every state of a run has at the time of its last insert. */
  ghost predicate Fine(s: State, now: nat, cap: nat, ttl: nat) {
    Covered(s) && Ascending(s.order, now) && AllYoung(s.order, now, ttl) && |s.table| <= cap
  }

  lemma RemoveCovers(s: State, hash: Hash, id: seq<byte>)
    requires Covered(s)
    ensures Covered(State(s.table - {hash}, s.order)) && Covered(State(Patched(s.table, hash, id), s.order))
  {
  }

  lemma RemoveSmaller(m: Table, hash: Hash, id: seq<byte>)
    ensures |m - {hash}| <= |m| && |Patched(m, hash, id)| == |m|
  {
    assert (m - {hash}).Keys == m.Keys - {hash};
    assert Patched(m, hash, id).Keys == m.Keys;
  }

  lemma AscendingLater(q: Queue, t: nat, now: nat)
    requires Ascending(q, t) && t <= now
    ensures Ascending(q, now)
  {
  }

  lemma ApplyKeeps(s: State, op: Op, t: nat, now: nat, cap: nat, ttl: nat)
    requires Fine(s, t, cap, ttl) && now == (if op.Put? then op.now else t) && t <= now
    ensures Fine(Apply(s, op, cap, ttl), now, cap, ttl)
  {
    match op
    case Put(hash, meta, _) =>
      AscendingLater(s.order, t, now);
      InsertKeeps(s, hash, meta, now, cap, ttl);
    case Delete(hash) =>
      RemoveCovers(s, hash, []);
      RemoveSmaller(s.table, hash, []);
    case Patch(hash, id) =>
      RemoveCovers(s, hash, id);
      RemoveSmaller(s.table, hash, id);
  }

  /** What every run keeps: the table fits, its entries are queued, and the queue is in time order and young. */
  lemma {:induction false} RunKeeps(s: State, now: nat, ops: seq<Op>, cap: nat, ttl: nat)
    requires Fine(s, now, cap, ttl) && Clocked(now, ops)
    ensures Fine(RunFrom(s, ops, cap, ttl), LastTime(now, ops), cap, ttl)
  {
    if ops != [] {
      var before, op := ops[..|ops| - 1], ops[|ops| - 1];
      RunKeeps(s, now, before, cap, ttl);
      ApplyKeeps(RunFrom(s, before, cap, ttl), op, LastTime(now, before), LastTime(now, ops), cap, ttl);
    }
  }

  lemma EmptyIsFine(now: nat, cap: nat, ttl: nat)
    ensures Fine(Empty(), now, cap, ttl)
  {
  }

  lemma ApplyRefines(s: State, op: Op, t: nat, cap: nat, ttl: nat)
    requires Fine(s, t, cap, ttl) && (op.Put? ==> t <= op.now && (op.hash, op.now) !in s.order)
    ensures var s' := Apply(s, op, cap, ttl);
            Live(s'.table, s'.order) == ListApply(Live(s.table, s.order), op, cap, ttl)
  {
    match op
    case Put(hash, meta, now) =>
      AscendingLater(s.order, t, now);
      InsertRefines(s, hash, meta, now, cap, ttl);
    case Delete(hash) =>
      LiveRemove(s.table, s.order, hash);
    case Patch(hash, id) =>
      PatchLive(s.table, s.order, hash, id);
  }

  /** From any state on the store does what the plain list of its live entries does. */
  lemma {:induction false} StoreIsListFrom(s: State, now: nat, ops: seq<Op>, cap: nat, ttl: nat)
    requires Fine(s, now, cap, ttl) && Clocked(now, ops) && Ticks(s, ops, cap, ttl)
    ensures var s' := RunFrom(s, ops, cap, ttl);
            Live(s'.table, s'.order) == ListRunFrom(Live(s.table, s.order), ops, cap, ttl)
  {
    if ops != [] {
      var before := ops[..|ops| - 1];
      RunKeeps(s, now, before, cap, ttl);
      StoreIsListFrom(s, now, before, cap, ttl);
      ApplyRefines(RunFrom(s, before, cap, ttl), ops[|ops| - 1], LastTime(now, before), cap, ttl);
    }
  }

  // ----- a ticking clock

  /** No hash is inserted twice at one instant, as with a strictly increasing clock. */
  ghost predicate Ticking(ops: seq<Op>) {
    forall i, j | 0 <= i < j < |ops| && ops[i].Put? && ops[j].Put? :: (ops[i].hash, ops[i].now) != (ops[j].hash, ops[j].now)
  }

  ghost predicate Queued(ops: seq<Op>, e: (Hash, nat)) {
    exists i :: 0 <= i < |ops| && ops[i].Put? && (ops[i].hash, ops[i].now) == e
  }

  lemma {:induction false} ExpireSuffix(s: State, now: nat, ttl: nat, e: (Hash, nat))
    requires e in Expire(s, now, ttl).order
    ensures e in s.order
    decreases |s.order|
  {
    if s.order != [] {
      var f, rest := s.order[0], s.order[1..];
      if !Matches(s.table, f) {
        ExpireSuffix(State(s.table, rest), now, ttl, e);
      } else if Age(now, f.1) >= ttl {
        ExpireSuffix(State(s.table - {f.0}, rest), now, ttl, e);
      }
    }
  }

  lemma {:induction false} TrimSuffix(s: State, cap: nat, e: (Hash, nat))
    requires e in Trim(s, cap).order
    ensures e in s.order
    decreases |s.order|
  {
    if |s.table| > cap && s.order != [] {
      var f, rest := s.order[0], s.order[1..];
      TrimSuffix(State(if Matches(s.table, f) then s.table - {f.0} else s.table, rest), cap, e);
    }
  }

  /** Queued entries were queued before, or inserted by the run. */
  lemma {:induction false} RunQueues(s: State, ops: seq<Op>, cap: nat, ttl: nat, e: (Hash, nat))
    requires e in RunFrom(s, ops, cap, ttl).order
    ensures e in s.order || Queued(ops, e)
  {
    if ops != [] {
      var before, op := ops[..|ops| - 1], ops[|ops| - 1];
      var p := RunFrom(s, before, cap, ttl);
      if op.Put? {
        var s1 := Inserted(p, op.hash, op.meta, op.now);
        TrimSuffix(Expire(s1, op.now, ttl), cap, e);
        ExpireSuffix(s1, op.now, ttl, e);
      }
      if e in p.order {
        RunQueues(s, before, cap, ttl, e);
        if Queued(before, e) {
          QueuedLonger(before, ops, e);
        }
      } else {
        assert ops[|ops| - 1] == op && e == (op.hash, op.now);
      }
    }
  }

  lemma QueuedLonger(before: seq<Op>, ops: seq<Op>, e: (Hash, nat))
    requires Queued(before, e) && ops != [] && before == ops[..|ops| - 1]
    ensures Queued(ops, e)
  {
    var i :| 0 <= i < |before| && before[i].Put? && (before[i].hash, before[i].now) == e;
    assert ops[i] == before[i];
  }

  lemma NotQueued(ops: seq<Op>, hash: Hash, now: nat)
    requires ops != [] && Ticking(ops)
    requires ops[|ops| - 1].Put? && (ops[|ops| - 1].hash, ops[|ops| - 1].now) == (hash, now)
    ensures !Queued(ops[..|ops| - 1], (hash, now))
  {
    var before := ops[..|ops| - 1];
    forall i | 0 <= i < |before| && before[i].Put?
      ensures (before[i].hash, before[i].now) != (hash, now)
    {
      assert ops[i] == before[i];
    }
  }

  lemma {:induction false} TickingTicks(ops: seq<Op>, cap: nat, ttl: nat)
    requires Ticking(ops)
    ensures Ticks(Empty(), ops, cap, ttl)
  {
    if ops != [] {
      var before, op := ops[..|ops| - 1], ops[|ops| - 1];
      TickingTicks(before, cap, ttl);
      if op.Put? {
        NotQueued(ops, op.hash, op.now);
        if (op.hash, op.now) in Run(before, cap, ttl).order {
          RunQueues(Empty(), before, cap, ttl, (op.hash, op.now));
        }
      }
    }
  }

  /** Over every run in which no hash is inserted twice at one instant, the store is the plain list. */
  lemma StoreIsList(ops: seq<Op>, cap: nat, ttl: nat)
    requires Clocked(0, ops) && Ticking(ops)
    ensures var s := Run(ops, cap, ttl); Live(s.table, s.order) == ListRun(ops, cap, ttl)
  {
    EmptyIsFine(0, cap, ttl);
    TickingTicks(ops, cap, ttl);
    StoreIsListFrom(Empty(), 0, ops, cap, ttl);
  }

  /** Lookups agree: the table answers for a hash exactly what the list holds for it. */
  lemma LookupsAgree(ops: seq<Op>, cap: nat, ttl: nat, e: Entry)
    requires Clocked(0, ops) && Ticking(ops)
    ensures e in ListRun(ops, cap, ttl) <==>
            e.hash in Run(ops, cap, ttl).table && Run(ops, cap, ttl).table[e.hash] == (e.meta, e.at)
  {
    EmptyIsFine(0, cap, ttl);
    RunKeeps(Empty(), 0, ops, cap, ttl);
    StoreIsList(ops, cap, ttl);
    LiveIsTable(Run(ops, cap, ttl), e);
  }
}
