/**
The durable store of the relay: the `txs`, `logs` and `blocks` tables and the three writers over them. The relay
and the receipt poller write provisionally (`tx_index` NULL), the indexer authoritatively with block-global
indexes taken from the per-block counters.
*/
module Store {
  import opened Common

  type Hash = nat
  type Blob = seq<nat>

  /** The columns of a transaction; only the Koinos id is ever rewritten. */
  datatype TxMeta = TxMeta(koinosTxId: Blob, body: Blob)

  datatype LogData = LogData(address: Blob, topics: seq<Blob>, data: Blob)

  datatype Receipt = Receipt(height: nat, blockHash: Blob, status: bool, gasUsed: nat, contract: Option<Blob>,
                             logs: seq<LogData>)

  datatype TxRow = TxRow(koinosTxId: Option<Blob>, body: Blob, height: Option<nat>, blockHash: Option<Blob>,
                         txIndex: Option<nat>, status: Option<bool>, gasUsed: Option<nat>, contract: Option<Blob>)

  datatype LogRow = LogRow(hash: Hash, height: nat, blockHash: Blob, txIndex: nat, logIndex: nat, log: LogData)

  datatype BlockRow = BlockRow(blockHash: Blob, timestamp: nat, txCount: nat, logCount: nat)

  datatype Tables = Tables(txs: map<Hash, TxRow>, logs: seq<LogRow>, blocks: map<nat, BlockRow>)

  // ----- the three writers as functions of the tables

  function KoinosId(meta: TxMeta): Option<Blob> {
    if meta.koinosTxId == [] then None else Some(meta.koinosTxId)
  }

  function Upsert(t: Tables, h: Hash, meta: TxMeta): Tables {
    var row := if h in t.txs then t.txs[h].(koinosTxId := KoinosId(meta))
               else TxRow(KoinosId(meta), meta.body, None, None, None, None, None, None);
    t.(txs := t.txs[h := row])
  }

  function Without(logs: seq<LogRow>, h: Hash): seq<LogRow> {
    if logs == [] then []
    else
      var rest := Without(logs[..|logs| - 1], h);
      var last := logs[|logs| - 1];
      if last.hash == h then rest else rest + [last]
  }

  function NewLogs(h: Hash, r: Receipt, txIndex: nat, base: nat, n: nat): seq<LogRow>
    requires n <= |r.logs|
  {
    seq(n, i requires 0 <= i < n => LogRow(h, r.height, r.blockHash, txIndex, base + i, r.logs[i]))
  }

  function ReplacedLogs(logs: seq<LogRow>, h: Hash, r: Receipt, txIndex: nat, base: nat): seq<LogRow> {
    Without(logs, h) + NewLogs(h, r, txIndex, base, |r.logs|)
  }

  function Settled(row: TxRow, r: Receipt, txIndex: Option<nat>): TxRow {
    row.(height := Some(r.height), blockHash := Some(r.blockHash), txIndex := txIndex, status := Some(r.status),
         gasUsed := Some(r.gasUsed), contract := r.contract)
  }

  /** A provisional settle; None when the row is missing, which the source reports as an error. */
  function SetReceipt(t: Tables, h: Hash, r: Receipt): Option<Tables> {
    if h !in t.txs then None
    else Some(Tables(t.txs[h := Settled(t.txs[h], r, None)], ReplacedLogs(t.logs, h, r, 0, 0), t.blocks))
  }

  predicate Indexed(t: Tables, h: Hash) {
    h in t.txs && t.txs[h].txIndex.Some?
  }

  /** The two reasons for which the indexer leaves an indexed row alone. */
  predicate Skips(t: Tables, h: Hash, r: Receipt) {
    && Indexed(t, h) && t.txs[h].height.Some?
    && (t.txs[h].height.value == r.height || (t.txs[h].status == Some(true) && !r.status))
  }

  function BlockFor(t: Tables, r: Receipt, timestamp: nat): BlockRow {
    if r.height in t.blocks then t.blocks[r.height] else BlockRow(r.blockHash, timestamp, 0, 0)
  }

  function IndexTx(t: Tables, h: Hash, meta: TxMeta, r: Receipt, timestamp: nat): Tables {
    if Skips(t, h, r) then t
    else
      var b := BlockFor(t, r, timestamp);
      var row := if h in t.txs then t.txs[h].(koinosTxId := KoinosId(meta))
                 else TxRow(KoinosId(meta), meta.body, None, None, None, None, None, None);
      Tables(t.txs[h := Settled(row, r, Some(b.txCount))],
             ReplacedLogs(t.logs, h, r, b.txCount, b.logCount),
             t.blocks[r.height := b.(txCount := b.txCount + 1, logCount := b.logCount + |r.logs|)])
  }

  // ----- the tables updated in place

  class Db {
    var txs: map<Hash, TxRow>
    var logs: seq<LogRow>
    var blocks: map<nat, BlockRow>

    ghost function Contents(): Tables
      reads this
    {
      Tables(txs, logs, blocks)
    }

    constructor ()
      ensures Contents() == Tables(map[], [], map[])
    {
      txs, logs, blocks := map[], [], map[];
    }

    method UpsertTx(h: Hash, meta: TxMeta)
      modifies this
      ensures Contents() == Upsert(old(Contents()), h, meta)
    {
      if h in txs {
        txs := txs[h := txs[h].(koinosTxId := KoinosId(meta))];
      } else {
        txs := txs[h := TxRow(KoinosId(meta), meta.body, None, None, None, None, None, None)];
      }
    }

    method ReplaceLogs(h: Hash, r: Receipt, txIndex: nat, base: nat)
      modifies this`logs
      ensures logs == ReplacedLogs(old(logs), h, r, txIndex, base)
    {
      var kept := [];
      for k := 0 to |logs|
        invariant logs == old(logs)
        invariant kept == Without(logs[..k], h)
      {
        assert logs[..k + 1][..k] == logs[..k];
        if logs[k].hash != h {
          kept := kept + [logs[k]];
        }
      }
      assert logs[..|logs|] == logs;
      logs := kept;
      for i := 0 to |r.logs|
        invariant logs == kept + NewLogs(h, r, txIndex, base, i)
      {
        logs := logs + [LogRow(h, r.height, r.blockHash, txIndex, base + i, r.logs[i])];
      }
    }

    method SettleReceipt(h: Hash, r: Receipt) returns (ok: bool)
      modifies this
      ensures ok == SetReceipt(old(Contents()), h, r).Some?
      ensures Contents() == if ok then SetReceipt(old(Contents()), h, r).value else old(Contents())
    {
      if h !in txs {
        return false;
      }
      txs := txs[h := Settled(txs[h], r, None)];
      ReplaceLogs(h, r, 0, 0);
      return true;
    }

    /** Returns false when the row is left as it is. */
    method Index(h: Hash, meta: TxMeta, r: Receipt, timestamp: nat) returns (wrote: bool)
      modifies this
      ensures !wrote <==>
              && h in old(txs) && old(txs[h]).txIndex.Some? && old(txs[h]).height.Some?
              && (old(txs[h]).height == Some(r.height) || (old(txs[h]).status == Some(true) && !r.status))
      ensures Contents() == IndexTx(old(Contents()), h, meta, r, timestamp)
    {
      if h in txs && txs[h].txIndex.Some? && txs[h].height.Some? {
        if txs[h].height.value == r.height {
          return false;
        }
        if txs[h].status == Some(true) && !r.status {
          return false;
        }
      }
      if r.height !in blocks {
        blocks := blocks[r.height := BlockRow(r.blockHash, timestamp, 0, 0)];
      }
      var b := blocks[r.height];
      var row := if h in txs then txs[h].(koinosTxId := KoinosId(meta))
                 else TxRow(KoinosId(meta), meta.body, None, None, None, None, None, None);
      txs := txs[h := Settled(row, r, Some(b.txCount))];
      ReplaceLogs(h, r, b.txCount, b.logCount);
      blocks := blocks[r.height := b.(txCount := b.txCount + 1, logCount := b.logCount + |r.logs|)];
      return true;
    }
  }

  // ----- what every run of the writers keeps

  datatype Op =
    | OpUpsert(h: Hash, meta: TxMeta)
    | OpSettle(h: Hash, r: Receipt)
    | OpIndex(h: Hash, meta: TxMeta, r: Receipt, timestamp: nat)

  function Apply(t: Tables, op: Op): Tables {
    match op
    case OpUpsert(h, meta) => Upsert(t, h, meta)
    case OpSettle(h, r) => if SetReceipt(t, h, r).Some? then SetReceipt(t, h, r).value else t
    case OpIndex(h, meta, r, ts) => IndexTx(t, h, meta, r, ts)
  }

  function Run(ops: seq<Op>): Tables {
    if ops == [] then Tables(map[], [], map[]) else Apply(Run(ops[..|ops| - 1]), ops[|ops| - 1])
  }

  function LogsOf(logs: seq<LogRow>, h: Hash): seq<LogRow> {
    if logs == [] then []
    else
      var rest := LogsOf(logs[..|logs| - 1], h);
      var last := logs[|logs| - 1];
      if last.hash == h then rest + [last] else rest
  }

  /** Indexed rows of one block carry distinct transaction indexes below its counter. */
  ghost predicate TxInv(t: Tables) {
    && (forall h :: Indexed(t, h) ==>
          && t.txs[h].height.Some? && t.txs[h].height.value in t.blocks
          && t.txs[h].txIndex.value < t.blocks[t.txs[h].height.value].txCount)
    && (forall g, h | Indexed(t, g) && Indexed(t, h) && g != h && t.txs[g].height == t.txs[h].height ::
          t.txs[g].txIndex != t.txs[h].txIndex)
  }

  /** Every log row agrees with its parent row on block and, once indexed, on the transaction index. */
  ghost predicate ParentInv(t: Tables) {
    forall l :: l in t.logs ==>
      && l.hash in t.txs
      && t.txs[l.hash].height == Some(l.height) && t.txs[l.hash].blockHash == Some(l.blockHash)
      && (t.txs[l.hash].txIndex.Some? ==> t.txs[l.hash].txIndex == Some(l.txIndex))
  }

  /** The log rows of one transaction carry consecutive log indexes, in the order of its logs. */
  ghost predicate RangeInv(t: Tables) {
    forall h, i :: 0 <= i < |LogsOf(t.logs, h)| ==>
      LogsOf(t.logs, h)[i].logIndex == LogsOf(t.logs, h)[0].logIndex + i
  }

  /** Log rows of different indexed transactions of one block never share an index, and all stay below its counter. */
  ghost predicate LogInv(t: Tables) {
    && (forall l :: l in t.logs && Indexed(t, l.hash) ==>
          l.height in t.blocks && l.logIndex < t.blocks[l.height].logCount)
    && (forall l, m | l in t.logs && m in t.logs && l.hash != m.hash && Indexed(t, l.hash) && Indexed(t, m.hash)
                      && l.height == m.height :: l.logIndex != m.logIndex)
  }

  ghost predicate StoreInv(t: Tables) {
    TxInv(t) && ParentInv(t) && RangeInv(t) && LogInv(t)
  }

  lemma {:induction false} WithoutMembers(logs: seq<LogRow>, h: Hash)
    ensures forall l :: l in Without(logs, h) <==> l in logs && l.hash != h
  {
    if logs != [] {
      WithoutMembers(logs[..|logs| - 1], h);
      assert logs == logs[..|logs| - 1] + [logs[|logs| - 1]];
    }
  }

  lemma {:induction false} LogsOfWithout(logs: seq<LogRow>, h: Hash, g: Hash)
    ensures LogsOf(Without(logs, h), g) == if g == h then [] else LogsOf(logs, g)
  {
    if logs != [] {
      var front, last := logs[..|logs| - 1], logs[|logs| - 1];
      LogsOfWithout(front, h, g);
      if last.hash != h {
        assert (Without(front, h) + [last])[..|Without(front, h)|] == Without(front, h);
      }
    }
  }

  lemma {:induction false} LogsOfNew(logs: seq<LogRow>, h: Hash, r: Receipt, txIndex: nat, base: nat, n: nat, g: Hash)
    requires n <= |r.logs|
    ensures LogsOf(logs + NewLogs(h, r, txIndex, base, n), g)
         == LogsOf(logs, g) + if g == h then NewLogs(h, r, txIndex, base, n) else []
  {
    var all := logs + NewLogs(h, r, txIndex, base, n);
    if n == 0 {
      assert all == logs;
    } else {
      LogsOfNew(logs, h, r, txIndex, base, n - 1, g);
      assert all[..|all| - 1] == logs + NewLogs(h, r, txIndex, base, n - 1);
    }
  }

  lemma ReplacedMembers(logs: seq<LogRow>, h: Hash, r: Receipt, txIndex: nat, base: nat)
    ensures forall l :: l in ReplacedLogs(logs, h, r, txIndex, base) <==>
              (l in logs && l.hash != h) || l in NewLogs(h, r, txIndex, base, |r.logs|)
    ensures forall l :: l in NewLogs(h, r, txIndex, base, |r.logs|) ==>
              l.hash == h && l.height == r.height && l.blockHash == r.blockHash && l.txIndex == txIndex
              && base <= l.logIndex < base + |r.logs|
  {
    WithoutMembers(logs, h);
  }

  lemma ReplacedRange(t: Tables, t': Tables, h: Hash, r: Receipt, txIndex: nat, base: nat)
    requires RangeInv(t) && t'.logs == ReplacedLogs(t.logs, h, r, txIndex, base)
    ensures RangeInv(t')
  {
    forall g, i | 0 <= i < |LogsOf(t'.logs, g)|
      ensures LogsOf(t'.logs, g)[i].logIndex == LogsOf(t'.logs, g)[0].logIndex + i
    {
      LogsOfNew(Without(t.logs, h), h, r, txIndex, base, |r.logs|, g);
      LogsOfWithout(t.logs, h, g);
    }
  }

  lemma SettleStep(t: Tables, h: Hash, r: Receipt)
    requires StoreInv(t) && SetReceipt(t, h, r).Some?
    ensures StoreInv(SetReceipt(t, h, r).value)
  {
    ReplacedMembers(t.logs, h, r, 0, 0);
    ReplacedRange(t, SetReceipt(t, h, r).value, h, r, 0, 0);
  }

  lemma IndexStep(t: Tables, h: Hash, meta: TxMeta, r: Receipt, timestamp: nat)
    requires StoreInv(t)
    ensures StoreInv(IndexTx(t, h, meta, r, timestamp))
  {
    if !Skips(t, h, r) {
      var b := BlockFor(t, r, timestamp);
      ReplacedMembers(t.logs, h, r, b.txCount, b.logCount);
      ReplacedRange(t, IndexTx(t, h, meta, r, timestamp), h, r, b.txCount, b.logCount);
    }
  }

  /**
  After any run of the three writers: indexed rows of one block have distinct transaction indexes below its
  counter and pairwise disjoint, contiguous log ranges below its log counter, and every log row agrees with its
  parent row on the block.
  */
  lemma {:induction false} RunsKeepStore(ops: seq<Op>)
    ensures StoreInv(Run(ops))
  {
    if ops != [] {
      var t, op := Run(ops[..|ops| - 1]), ops[|ops| - 1];
      RunsKeepStore(ops[..|ops| - 1]);
      match op
      case OpUpsert(h, meta) =>
      case OpSettle(h, r) =>
        if SetReceipt(t, h, r).Some? {
          SettleStep(t, h, r);
        }
      case OpIndex(h, meta, r, ts) => IndexStep(t, h, meta, r, ts);
    }
  }

  // ----- no gap and no double count, when every hash has one height and no settle follows its indexing

  function IndexedIn(t: Tables, b: nat): set<Hash> {
    set h | h in t.txs && Indexed(t, h) && t.txs[h].height == Some(b)
  }

  ghost predicate HasTxIndex(t: Tables, b: nat, k: nat) {
    exists h :: h in IndexedIn(t, b) && t.txs[h].txIndex == Some(k)
  }

  ghost predicate HasLogIndex(t: Tables, b: nat, k: nat) {
    exists l :: l in t.logs && l.hash in IndexedIn(t, b) && l.logIndex == k
  }

  /** The counters of a block count its indexed rows once each, and the indexes tile 0..count with no gap. */
  ghost predicate TileInv(t: Tables) {
    forall b :: b in t.blocks ==>
      && t.blocks[b].txCount == |IndexedIn(t, b)|
      && (forall k: nat :: k < t.blocks[b].txCount ==> HasTxIndex(t, b, k))
      && (forall k: nat :: k < t.blocks[b].logCount ==> HasLogIndex(t, b, k))
  }

  /** The row written is provisional before and after, so no indexed row and no log row of one is touched. */
  lemma TileProvisional(t: Tables, t': Tables, h: Hash)
    requires TileInv(t) && !Indexed(t, h) && !Indexed(t', h) && t'.blocks == t.blocks
    requires forall g :: g != h ==> (g in t.txs <==> g in t'.txs) && (g in t.txs ==> t'.txs[g] == t.txs[g])
    requires forall l :: l in t.logs && l.hash != h ==> l in t'.logs
    ensures TileInv(t')
  {
    forall b | b in t'.blocks
      ensures IndexedIn(t', b) == IndexedIn(t, b)
      ensures forall k: nat :: HasTxIndex(t, b, k) ==> HasTxIndex(t', b, k)
      ensures forall k: nat :: HasLogIndex(t, b, k) ==> HasLogIndex(t', b, k)
    {
      forall g
        ensures g in IndexedIn(t', b) <==> g in IndexedIn(t, b)
      {
        if g == h {
        }
      }
    }
  }

  lemma FreshIndexedIn(t: Tables, h: Hash, meta: TxMeta, r: Receipt, timestamp: nat, c: nat)
    requires !Indexed(t, h)
    ensures IndexedIn(IndexTx(t, h, meta, r, timestamp), c) == IndexedIn(t, c) + if c == r.height then {h} else {}
  {
  }

  lemma FreshTxIndex(t: Tables, h: Hash, meta: TxMeta, r: Receipt, timestamp: nat, c: nat, k: nat)
    requires !Indexed(t, h)
    requires HasTxIndex(t, c, k) || (c == r.height && k == BlockFor(t, r, timestamp).txCount)
    ensures HasTxIndex(IndexTx(t, h, meta, r, timestamp), c, k)
  {
    var t' := IndexTx(t, h, meta, r, timestamp);
    FreshIndexedIn(t, h, meta, r, timestamp, c);
    if HasTxIndex(t, c, k) {
      var g :| g in IndexedIn(t, c) && t.txs[g].txIndex == Some(k);
      assert t'.txs[g].txIndex == Some(k);
    } else {
      assert t'.txs[h].txIndex == Some(k);
    }
  }

  lemma FreshLogIndex(t: Tables, h: Hash, meta: TxMeta, r: Receipt, timestamp: nat, c: nat, k: nat)
    requires !Indexed(t, h)
    requires var base := BlockFor(t, r, timestamp).logCount;
             HasLogIndex(t, c, k) || (c == r.height && base <= k < base + |r.logs|)
    ensures HasLogIndex(IndexTx(t, h, meta, r, timestamp), c, k)
  {
    var t' := IndexTx(t, h, meta, r, timestamp);
    var b := BlockFor(t, r, timestamp);
    FreshIndexedIn(t, h, meta, r, timestamp, c);
    ReplacedMembers(t.logs, h, r, b.txCount, b.logCount);
    if HasLogIndex(t, c, k) {
      var l :| l in t.logs && l.hash in IndexedIn(t, c) && l.logIndex == k;
      assert l in t'.logs;
    } else {
      var l := NewLogs(h, r, b.txCount, b.logCount, |r.logs|)[k - b.logCount];
      assert l in t'.logs;
    }
  }

  lemma TileFresh(t: Tables, h: Hash, meta: TxMeta, r: Receipt, timestamp: nat)
    requires TxInv(t) && TileInv(t) && !Indexed(t, h)
    ensures TileInv(IndexTx(t, h, meta, r, timestamp))
  {
    var t' := IndexTx(t, h, meta, r, timestamp);
    forall c | c in t'.blocks
      ensures t'.blocks[c].txCount == |IndexedIn(t', c)|
      ensures forall k: nat :: k < t'.blocks[c].txCount ==> HasTxIndex(t', c, k)
      ensures forall k: nat :: k < t'.blocks[c].logCount ==> HasLogIndex(t', c, k)
    {
      FreshIndexedIn(t, h, meta, r, timestamp, c);
      assert c !in t.blocks ==> IndexedIn(t, c) == {};
      forall k: nat | k < t'.blocks[c].txCount
        ensures HasTxIndex(t', c, k)
      {
        FreshTxIndex(t, h, meta, r, timestamp, c, k);
      }
      forall k: nat | k < t'.blocks[c].logCount
        ensures HasLogIndex(t', c, k)
      {
        FreshLogIndex(t, h, meta, r, timestamp, c, k);
      }
    }
  }

  /** Every authoritative write of a hash names the height `heightOf` gives it, and no settle of it comes later. */
  ghost predicate Disciplined(ops: seq<Op>, heightOf: Hash -> nat) {
    && (forall i :: 0 <= i < |ops| && ops[i].OpIndex? ==> ops[i].r.height == heightOf(ops[i].h))
    && (forall i, j :: 0 <= i < j < |ops| && ops[i].OpIndex? && ops[j].OpSettle? ==> ops[i].h != ops[j].h)
  }

  ghost predicate WasIndexed(ops: seq<Op>, h: Hash) {
    exists i :: 0 <= i < |ops| && ops[i].OpIndex? && ops[i].h == h
  }

  /** An operation sequence with the last step taken off keeps the discipline and its witnesses. */
  lemma DisciplinedPrefix(ops: seq<Op>, heightOf: Hash -> nat)
    requires Disciplined(ops, heightOf) && ops != []
    ensures Disciplined(ops[..|ops| - 1], heightOf)
    ensures forall h :: WasIndexed(ops[..|ops| - 1], h) ==> WasIndexed(ops, h)
    ensures ops[|ops| - 1].OpSettle? ==> !WasIndexed(ops[..|ops| - 1], ops[|ops| - 1].h)
  {
    var front := ops[..|ops| - 1];
    forall h | WasIndexed(front, h)
      ensures WasIndexed(ops, h)
    {
      var i :| 0 <= i < |front| && front[i].OpIndex? && front[i].h == h;
      assert ops[i] == front[i];
    }
  }

  lemma {:induction false} TileStep(t: Tables, op: Op)
    requires TxInv(t) && TileInv(t)
    requires op.OpSettle? ==> !Indexed(t, op.h)
    requires op.OpIndex? && Indexed(t, op.h) ==> t.txs[op.h].height == Some(op.r.height)
    ensures TileInv(Apply(t, op))
  {
    match op
    case OpUpsert(h, meta) =>
      TileUpsert(t, h, meta);
    case OpSettle(h, r) =>
      if h in t.txs {
        ReplacedMembers(t.logs, h, r, 0, 0);
        TileProvisional(t, Apply(t, op), h);
      }
    case OpIndex(h, meta, r, ts) =>
      if !Indexed(t, h) {
        TileFresh(t, h, meta, r, ts);
      }
  }

  lemma WasIndexedLast(ops: seq<Op>, h: Hash)
    requires ops != []
    ensures var op := ops[|ops| - 1];
            WasIndexed(ops, h) <==> WasIndexed(ops[..|ops| - 1], h) || (op.OpIndex? && op.h == h)
  {
    var front := ops[..|ops| - 1];
    assert forall i :: 0 <= i < |front| ==> ops[i] == front[i];
  }

  lemma IndexedAfter(t: Tables, op: Op, h: Hash)
    requires op.OpSettle? ==> !Indexed(t, op.h)
    ensures Indexed(Apply(t, op), h) <==> Indexed(t, h) || (op.OpIndex? && op.h == h)
    ensures Indexed(t, h) && (op.OpIndex? && op.h == h ==> t.txs[h].height == Some(op.r.height)) ==>
              Apply(t, op).txs[h].height == t.txs[h].height
    ensures op.OpIndex? && op.h == h && !Indexed(t, h) ==> Apply(t, op).txs[h].height == Some(op.r.height)
  {
  }

  /**
  Repeated authoritative passes count each transaction exactly once: the counters equal the number of indexed
  rows, both kinds of index tile 0..count, and a row is indexed exactly when some pass wrote it, at its height.
  */
  lemma {:induction false} CountedOnce(ops: seq<Op>, heightOf: Hash -> nat)
    requires Disciplined(ops, heightOf)
    ensures TileInv(Run(ops))
    ensures forall h :: Indexed(Run(ops), h) <==> WasIndexed(ops, h)
    ensures forall h :: Indexed(Run(ops), h) ==> Run(ops).txs[h].height == Some(heightOf(h))
  {
    if ops != [] {
      var front, op := ops[..|ops| - 1], ops[|ops| - 1];
      var t := Run(front);
      DisciplinedPrefix(ops, heightOf);
      CountedOnce(front, heightOf);
      RunsKeepStore(front);
      assert op.OpIndex? ==> op.r.height == heightOf(op.h);
      TileStep(t, op);
      forall h
        ensures Indexed(Run(ops), h) <==> WasIndexed(ops, h)
        ensures Indexed(Run(ops), h) ==> Run(ops).txs[h].height == Some(heightOf(h))
      {
        WasIndexedLast(ops, h);
        IndexedAfter(t, op, h);
      }
    }
  }

  lemma TileUpsert(t: Tables, h: Hash, meta: TxMeta)
    requires TileInv(t)
    ensures TileInv(Upsert(t, h, meta))
  {
    var t' := Upsert(t, h, meta);
    forall b | b in t'.blocks
      ensures IndexedIn(t', b) == IndexedIn(t, b)
      ensures forall k: nat :: HasTxIndex(t, b, k) ==> HasTxIndex(t', b, k)
      ensures forall k: nat :: HasLogIndex(t, b, k) ==> HasLogIndex(t', b, k)
    {
    }
  }

  // ----- reading receipts back

  datatype ReceiptRow = ReceiptRow(height: nat, blockHash: Blob, txIndex: Option<nat>, status: bool, gasUsed: nat,
                                   contract: Option<Blob>, logs: seq<(nat, LogData)>)

  /** An indexed row has a status, and a row with a status has the other receipt columns too. */
  ghost predicate RowInv(t: Tables) {
    forall h | h in t.txs ::
      && (t.txs[h].status.Some? ==> t.txs[h].height.Some? && t.txs[h].blockHash.Some? && t.txs[h].gasUsed.Some?)
      && (t.txs[h].txIndex.Some? ==> t.txs[h].status.Some?)
  }

  function IndexAndLog(logs: seq<LogRow>): (r: seq<(nat, LogData)>)
    ensures |r| == |logs| && forall i :: 0 <= i < |r| ==> r[i] == (logs[i].logIndex, logs[i].log)
  {
    seq(|logs|, i requires 0 <= i < |logs| => (logs[i].logIndex, logs[i].log))
  }

  /** The rows of a transaction are already in the order of their log index, by which the source selects them. */
  function GetReceipt(t: Tables, h: Hash): Option<ReceiptRow>
    requires RowInv(t)
  {
    if h !in t.txs || t.txs[h].status.None? then None
    else
      var row := t.txs[h];
      Some(ReceiptRow(row.height.value, row.blockHash.value, row.txIndex, row.status.value, row.gasUsed.value,
                      row.contract, IndexAndLog(LogsOf(t.logs, h))))
  }

  function Numbered(logs: seq<LogData>, base: nat): (r: seq<(nat, LogData)>)
    ensures |r| == |logs| && forall i :: 0 <= i < |r| ==> r[i] == (base + i, logs[i])
  {
    seq(|logs|, i requires 0 <= i < |logs| => (base + i, logs[i]))
  }

  function RowOf(r: Receipt, txIndex: Option<nat>, base: nat): ReceiptRow {
    ReceiptRow(r.height, r.blockHash, txIndex, r.status, r.gasUsed, r.contract, Numbered(r.logs, base))
  }

  lemma NewReads(h: Hash, r: Receipt, txIndex: nat, base: nat)
    ensures IndexAndLog(NewLogs(h, r, txIndex, base, |r.logs|)) == Numbered(r.logs, base)
  {
  }

  lemma OwnLogs(logs: seq<LogRow>, h: Hash, r: Receipt, txIndex: nat, base: nat)
    ensures LogsOf(ReplacedLogs(logs, h, r, txIndex, base), h) == NewLogs(h, r, txIndex, base, |r.logs|)
  {
    LogsOfNew(Without(logs, h), h, r, txIndex, base, |r.logs|, h);
    LogsOfWithout(logs, h, h);
    var none: seq<LogRow> := [];
    assert none + NewLogs(h, r, txIndex, base, |r.logs|) == NewLogs(h, r, txIndex, base, |r.logs|);
  }

  lemma OtherLogs(logs: seq<LogRow>, h: Hash, r: Receipt, txIndex: nat, base: nat, g: Hash)
    requires g != h
    ensures LogsOf(ReplacedLogs(logs, h, r, txIndex, base), g) == LogsOf(logs, g)
  {
    LogsOfNew(Without(logs, h), h, r, txIndex, base, |r.logs|, g);
    LogsOfWithout(logs, h, g);
    assert LogsOf(logs, g) + [] == LogsOf(logs, g);
  }

  lemma ReplacedReads(logs: seq<LogRow>, h: Hash, r: Receipt, txIndex: nat, base: nat, g: Hash)
    ensures IndexAndLog(LogsOf(ReplacedLogs(logs, h, r, txIndex, base), g)) ==
            if g == h then Numbered(r.logs, base) else IndexAndLog(LogsOf(logs, g))
  {
    if g == h {
      OwnLogs(logs, h, r, txIndex, base);
      NewReads(h, r, txIndex, base);
    } else {
      OtherLogs(logs, h, r, txIndex, base, g);
    }
  }

  /** A receipt that an index write of `r` replaces: not indexed, or elsewhere and not a success that `r` would undo. */
  predicate Rewrites(was: Option<ReceiptRow>, r: Receipt) {
    || was.None? || was.value.txIndex.None?
    || (was.value.height != r.height && (!was.value.status || r.status))
  }

  /**
  A re-relay changes no receipt. A settle changes exactly its own, if the row is there. An index write changes exactly
  its own if the row was not indexed, or was indexed at another height and was not a success or is now one; it then
  reads as written, at the block's next indexes, and otherwise as before.
  */
  lemma ReceiptsReadBack(t: Tables, op: Op, g: Hash)
    requires RowInv(t)
    ensures RowInv(Apply(t, op))
    ensures match op
            case OpUpsert(_, _) => GetReceipt(Apply(t, op), g) == GetReceipt(t, g)
            case OpSettle(h, r) =>
              GetReceipt(Apply(t, op), g) == if g == h && h in t.txs then Some(RowOf(r, None, 0)) else GetReceipt(t, g)
            case OpIndex(h, _, r, ts) =>
              var was := GetReceipt(t, h);
              var b := BlockFor(t, r, ts);
              GetReceipt(Apply(t, op), g) ==
              if g == h && (was.None? || was.value.txIndex.None? ||
                            (was.value.height != r.height && (!was.value.status || r.status)))
              then Some(RowOf(r, Some(b.txCount), b.logCount))
              else GetReceipt(t, g)
  {
    match op
    case OpUpsert(_, _) =>
    case OpSettle(h, r) =>
      ReplacedReads(t.logs, h, r, 0, 0, g);
    case OpIndex(h, _, r, ts) =>
      var b := BlockFor(t, r, ts);
      ReplacedReads(t.logs, h, r, b.txCount, b.logCount, g);
  }

  function RunFrom(t: Tables, ops: seq<Op>): Tables {
    if ops == [] then t else Apply(RunFrom(t, ops[..|ops| - 1]), ops[|ops| - 1])
  }

  predicate Executed(t: Tables, h: Hash) {
    Indexed(t, h) && t.txs[h].height.Some? && t.txs[h].status == Some(true)
  }

  /** Once indexed as a success a transaction stays one, whatever re-relays and failed duplicates come after. */
  lemma {:induction false} SuccessIsKept(t: Tables, ops: seq<Op>, h: Hash)
    requires Executed(t, h) && forall op <- ops :: !(op.OpSettle? && op.h == h)
    ensures Executed(RunFrom(t, ops), h)
  {
    if ops != [] {
      var op := ops[|ops| - 1];
      SuccessIsKept(t, ops[..|ops| - 1], h);
      assert op in ops;
    }
  }

  /** A success replaces a provisional receipt and a failure placed elsewhere, and is then kept. */
  lemma SuccessWins(t: Tables, h: Hash, meta: TxMeta, r: Receipt, ts: nat, ops: seq<Op>)
    requires RowInv(t) && r.status && forall op <- ops :: !(op.OpSettle? && op.h == h)
    requires var was := GetReceipt(t, h);
             was.Some? && was.value.txIndex.Some? ==> was.value.height != r.height || was.value.status
    ensures var t' := RunFrom(Apply(t, OpIndex(h, meta, r, ts)), ops);
            RowInv(t') && GetReceipt(t', h).Some? && GetReceipt(t', h).value.status
  {
    var t1 := Apply(t, OpIndex(h, meta, r, ts));
    ReceiptsReadBack(t, OpIndex(h, meta, r, ts), h);
    SuccessIsKept(t1, ops, h);
    RowsKept(t1, ops);
  }

  /** But not a failure of its own block: an index write at the height where the row stands changes nothing. */
  lemma SameHeightIsFinal(t: Tables, h: Hash, meta: TxMeta, r: Receipt, ts: nat)
    requires RowInv(t) && GetReceipt(t, h).Some? && GetReceipt(t, h).value.txIndex.Some?
    requires GetReceipt(t, h).value.height == r.height
    ensures Apply(t, OpIndex(h, meta, r, ts)) == t
  {
  }

  lemma {:induction false} RowsKept(t: Tables, ops: seq<Op>)
    requires RowInv(t)
    ensures RowInv(RunFrom(t, ops))
  {
    if ops != [] {
      RowsKept(t, ops[..|ops| - 1]);
      ReceiptsReadBack(RunFrom(t, ops[..|ops| - 1]), ops[|ops| - 1], 0);
    }
  }

  // ----- reading transactions and blocks back

  function GetMeta(t: Tables, h: Hash): Option<TxMeta> {
    if h !in t.txs then None
    else Some(TxMeta(if t.txs[h].koinosTxId.Some? then t.txs[h].koinosTxId.value else [], t.txs[h].body))
  }

  /**
  A relay or index write of a transaction is read back: its body as it was first written, under the Koinos id that was
  written last. No other transaction changes, and a settle changes none.
  */
  lemma MetaReadsBack(t: Tables, op: Op, g: Hash)
    requires RowInv(t)
    ensures var was, now := GetMeta(t, g), GetMeta(Apply(t, op), g);
            if op.OpSettle? || op.h != g || (op.OpIndex? && !Rewrites(GetReceipt(t, g), op.r)) then now == was
            else now == Some(if was.Some? then was.value.(koinosTxId := op.meta.koinosTxId) else op.meta)
  {
  }

  /** A block row keeps the hash and time of the transaction that opened it, and its counters only grow. */
  lemma {:induction false} BlocksOnlyGrow(t: Tables, ops: seq<Op>, b: nat)
    requires b in t.blocks
    ensures b in RunFrom(t, ops).blocks
    ensures var was, now := t.blocks[b], RunFrom(t, ops).blocks[b];
            && now.blockHash == was.blockHash && now.timestamp == was.timestamp
            && now.txCount >= was.txCount && now.logCount >= was.logCount
  {
    if ops != [] {
      BlocksOnlyGrow(t, ops[..|ops| - 1], b);
    }
  }
}
