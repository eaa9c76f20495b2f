/**
How the indexer reads one history entry, and the whole way of a transaction: what the relay submits, the engine
executes and reports, and the indexer reads back.
*/
module History {
  import opened Common
  import opened Proto
  import opened FieldLoops
  import opened Receipts
  import opened EngineCalls
  import EngineTx
  import RelayTx
  import Store
  import Indexer

  /**
  An entry as far as the indexer looks at it: the arguments of its first submit operation to the engine, if there is
  one that decodes, and its receipt, if there is one, with the events it lists.
  */
  datatype Entry = Entry(args: Option<seq<byte>>, receipt: Option<Option<seq<ReceiptEvent>>>)

  datatype Reading =
    | NotEvm
    | MissingReceipt
    | Relayed(raw: seq<byte>, tx: RelayTx.DecodedTx, receipt: Decoded)

  function RawOf(e: Entry): Call<Option<seq<byte>>> {
    if e.args.None? then Returned(None) else FirstRawTx(LaxItems(e.args.value))
  }

  function Reported(e: Entry): Call<Decoded>
    requires e.receipt.Some?
  {
    if e.receipt.value.None? then Returned(UNREPORTED) else DecodeFrom(UNREPORTED, e.receipt.value.value)
  }

  function ReadWith(e: Entry, raw: Option<seq<byte>>, tx: Option<RelayTx.DecodedTx>): Call<Reading> {
    if raw.None? || tx.None? then Returned(NotEvm)
    else if e.receipt.None? then Returned(MissingReceipt)
    else
      match Reported(e)
      case Returned(receipt) => Returned(Relayed(raw.value, tx.value, receipt))
      case Panicked => Panicked
  }

  /** What the indexer makes of an entry. */
  function Understood(e: Entry, recover: EngineTx.Recover): Call<Reading> {
    match RawOf(e)
    case Returned(raw) =>
      ReadWith(e, raw, if raw.None? then None else RelayTx.DecodeAndRecover(raw.value, recover))
    case Panicked => Panicked
  }

  // ----- the indexer's code

  lemma FirstStep(item: Item, rest: seq<Item>)
    ensures FirstRawTx([item] + rest) ==
            if item.Overrun? then Panicked
            else if item.Yield? && IsRawTx(item.field) then Returned(Some(item.field.value.b))
            else FirstRawTx(rest)
  {
    assert ([item] + rest)[1..] == rest;
  }

  lemma FindTurn(bytes: seq<byte>, pos: nat, item: Item, pos': nat)
    requires pos < |bytes| && item == LaxItem(pos, bytes[pos..]).0
    requires !item.Overrun? ==> pos < pos' <= |bytes| && pos' - pos == LaxItem(pos, bytes[pos..]).1
    ensures FirstRawTx(ItemsFrom(bytes, pos)) ==
            if item.Overrun? then Panicked
            else if item.Yield? && IsRawTx(item.field) then Returned(Some(item.field.value.b))
            else FirstRawTx(ItemsFrom(bytes, pos'))
  {
    RelayTurn(bytes, pos, item, pos');
    if item.Overrun? {
      FirstStep(item, []);
      assert [item] + [] == [item];
    } else {
      FirstStep(item, ItemsFrom(bytes, pos'));
    }
  }

  /** The first well-formed raw transaction among the fields, wherever it stands. */
  method FindRawTx(checked: bool, args: seq<byte>) returns (raw: Call<Option<seq<byte>>>)
    requires |args| < U64
    ensures raw == FirstRawTx(LaxItems(args))
  {
    var it := new ProtoIter(args);
    ItemsStart(args);
    while it.pos < |args|
      invariant it.buf == args && it.pos <= |args|
      invariant FirstRawTx(ItemsFrom(args, it.pos)) == FirstRawTx(LaxItems(args))
      decreases |args| - it.pos
    {
      ghost var pos := it.pos;
      var item := it.Next(checked);
      FindTurn(args, pos, item, it.pos);
      if item.Overrun? {
        return Panicked;
      }
      if item.Yield? && item.field.number == 1 && item.field.value.Bytes? {
        return Returned(Some(item.field.value.b));
      }
    }
    return Returned(None);
  }

  /** The sizes of what the indexer decodes are those of slices. */
  predicate Sized(e: Entry) {
    && (e.args.Some? ==> |e.args.value| < U64)
    && (e.receipt.Some? && e.receipt.value.Some? ==>
          forall ev <- e.receipt.value.value :: ev.data.Some? ==> |ev.data.value| < U64)
  }

  method ReadEntry(checked: bool, e: Entry, recover: EngineTx.Recover) returns (r: Call<Reading>)
    requires Sized(e)
    ensures r == Understood(e, recover)
  {
    if e.args.None? {
      return Returned(NotEvm);
    }
    var raw := FindRawTx(checked, e.args.value);
    if raw.Panicked? {
      return Panicked;
    }
    if raw.value.None? {
      return Returned(NotEvm);
    }
    var tx := RelayTx.DecodeAndRecover(raw.value.value, recover);
    if tx.None? {
      return Returned(NotEvm);
    }
    if e.receipt.None? {
      return Returned(MissingReceipt);
    }
    var receipt := DecodeReceiptEvents(checked, e.receipt.value);
    if receipt.Panicked? {
      return Panicked;
    }
    return Returned(Relayed(raw.value.value, tx.value, receipt.value));
  }

  // ----- when reading an entry returns

  /** The first item that is a raw transaction or overruns. */
  function FirstDecisive(items: seq<Item>): (r: Option<Item>)
    ensures r.Some? ==> r.value.Overrun? || (r.value.Yield? && r.value.field.value.Bytes?)
  {
    if items == [] then None
    else if items[0].Overrun? || (items[0].Yield? && items[0].field.number == 1 && items[0].field.value.Bytes?)
    then Some(items[0])
    else FirstDecisive(items[1..])
  }

  lemma {:induction false} FirstRawTxIs(items: seq<Item>)
    ensures FirstRawTx(items) ==
            match FirstDecisive(items)
            case None => Returned(None)
            case Some(item) => if item.Yield? then Returned(Some(item.field.value.b)) else Panicked
  {
    if items != [] {
      FirstRawTxIs(items[1..]);
    }
  }

  /** An argument field overruns before any raw transaction. */
  predicate ArgsOverrun(e: Entry) { e.args.Some? && FirstDecisive(LaxItems(e.args.value)) == Some(Overrun) }

  /** The raw transaction that comes before any overrun. */
  function RawIn(e: Entry): Option<seq<byte>> {
    if e.args.None? then None
    else
      match FirstDecisive(LaxItems(e.args.value))
      case Some(Yield(f)) => Some(f.value.b)
      case _ => None
  }

  function TxIn(e: Entry, recover: EngineTx.Recover): Option<RelayTx.DecodedTx> {
    if RawIn(e).None? then None else RelayTx.DecodeAndRecover(RawIn(e).value, recover)
  }

  predicate EventsOverrun(e: Entry) {
    e.receipt.Some? && e.receipt.value.Some? && exists ev :: ev in e.receipt.value.value && EventOverruns(ev)
  }

  lemma RawIs(e: Entry)
    ensures RawOf(e) == if ArgsOverrun(e) then Panicked else Returned(RawIn(e))
  {
    if e.args.Some? {
      FirstRawTxIs(LaxItems(e.args.value));
    }
  }

  lemma ReportedPanics(e: Entry)
    requires e.receipt.Some?
    ensures Reported(e).Panicked? <==> EventsOverrun(e)
  {
    if e.receipt.value.Some? {
      ReceiptReturnsExactlyWhen(UNREPORTED, e.receipt.value.value);
    }
  }

  /**
  Reading an entry panics exactly when an argument field overruns before any raw transaction, or when the transaction
  decodes and the data of one of the receipt's EVM events overrun. Otherwise it is nothing of the EVM exactly when it
  holds no raw transaction that decodes, and one that does lacks its receipt exactly when there is none.
  */
  lemma ReadingPanicsExactlyWhen(e: Entry, recover: EngineTx.Recover)
    ensures var r, tx := Understood(e, recover), TxIn(e, recover);
            && (r.Panicked? <==> ArgsOverrun(e) || (tx.Some? && EventsOverrun(e)))
            && (r == Returned(NotEvm) <==> !ArgsOverrun(e) && tx.None?)
            && (r == Returned(MissingReceipt) <==> tx.Some? && e.receipt.None?)
            && (r.Returned? && r.value.Relayed? ==> RawIn(e) == Some(r.value.raw) && tx == Some(r.value.tx))
  {
    RawIs(e);
    if e.receipt.Some? {
      ReportedPanics(e);
    }
  }

  /** Eleven bytes that the engine refuses as empty and on which the indexer panics, whatever the receipt. */
  lemma OverlongEntryPanics(host: Host, receipt: Option<Option<seq<ReceiptEvent>>>)
    ensures Decide(host, Overlong()) == Rejected(EmptyRawTx)
    ensures Understood(Entry(Some(Overlong()), receipt), host.recover) == Panicked
  {
    OverlongPanics();
  }

  // ----- the whole way

  lemma UnderstoodAs(e: Entry, recover: EngineTx.Recover, raw: seq<byte>, receipt: Decoded)
    requires RawOf(e) == Returned(Some(raw)) && e.receipt.Some? && Reported(e) == Returned(receipt)
    ensures var tx := RelayTx.DecodeAndRecover(raw, recover);
            Understood(e, recover) == Returned(if tx.None? then NotEvm else Relayed(raw, tx.value, receipt))
  {
  }

  /** The entry that a submission leaves in the history. */
  function EntryOf(raw: seq<byte>, events: seq<ReceiptEvent>): Entry {
    Entry(Some(SubmitArgs(raw)), Some(Some(events)))
  }

  /**
  Every submission of the relay, refused ones included, is read with exactly its outcome, as long as the relay's own
  decoder takes the transaction: it is read as a success if and only if it was executed with success.
  */
  lemma OutcomeIsSeen(host: Host, raw: seq<byte>, outcome: Outcome, events: seq<ReceiptEvent>)
    requires |SubmitArgs(raw)| < U64 && outcome == Decide(host, SubmitArgs(raw)) && ValidOutcome(outcome)
    requires EvmEvents(events) == Carried(EventsOf(outcome))
    ensures var seen, tx := Understood(EntryOf(raw, events), host.recover), RelayTx.DecodeAndRecover(raw, host.recover);
            && seen == Returned(if tx.None? then NotEvm else Relayed(raw, tx.value, ReceiptOf(outcome)))
            && (tx.Some? ==> (seen.value.receipt.status <==> outcome.Executed? && outcome.result.Success?))
  {
    RawTxTravels(raw);
    ReceiptIsOutcome(outcome, events);
    UnderstoodAs(EntryOf(raw, events), host.recover, raw, ReceiptOf(outcome));
  }

  /**
  The whole way: a transaction the engine's parser accepts, submitted by the relay, is read by the indexer as the
  same transaction, with a receipt that says exactly what the engine's outcome was.
  */
  lemma IndexerSeesOutcome(host: Host, raw: seq<byte>, parsed: EngineTx.ParsedTx, outcome: Outcome,
                           events: seq<ReceiptEvent>) returns (tx: RelayTx.DecodedTx)
    requires |SubmitArgs(raw)| <= RelayTx.MAX_SLICE
    requires EngineTx.ParseRawTx(raw, host.recover) == Result.Ok(parsed)
    requires outcome == Decide(host, SubmitArgs(raw)) && ValidOutcome(outcome)
    requires EvmEvents(events) == Carried(EventsOf(outcome))
    ensures RelayTx.SameTx(parsed, tx)
    ensures Understood(EntryOf(raw, events), host.recover) == Returned(Relayed(raw, tx, ReceiptOf(outcome)))
  {
    RelayTx.RelayAcceptsWhatEngineAccepts(raw, host.recover);
    tx := RelayTx.DecodeAndRecover(raw, host.recover).value;
    OutcomeIsSeen(host, raw, outcome, events);
  }

  // ----- into the tables and out again

  /** What an entry's processing depends on beside the entry: hashing, the column layout, and the block it is in. */
  datatype Around = Around(recover: EngineTx.Recover, hash: seq<byte> -> Store.Hash,
                           columns: (seq<byte>, RelayTx.DecodedTx) -> Store.Blob, koinosTxId: Store.Blob,
                           block: Option<BlockRef>)

  datatype BlockRef = BlockRef(height: nat, hash: Store.Blob, timestamp: nat)

  function LogDataOf(log: Log): Store.LogData { Store.LogData(log.address, log.topics, log.data) }

  function LogDatas(rows: seq<LogRow>): (r: seq<Store.LogData>)
    ensures |r| == |rows| && forall i :: 0 <= i < |r| ==> r[i] == LogDataOf(rows[i].log)
  {
    seq(|rows|, i requires 0 <= i < |rows| => LogDataOf(rows[i].log))
  }

  function StoredReceipt(b: BlockRef, d: Decoded): Store.Receipt {
    Store.Receipt(b.height, b.hash, d.status, d.gasUsed, d.contract, LogDatas(d.logs))
  }

  /** The indexer's outcome for an entry: an unknown block or a missing receipt fails it for this cycle. */
  function AttemptOf(e: Entry, at: Around): Indexer.Attempt {
    match Understood(e, at.recover)
    case Panicked => Indexer.Panics
    case Returned(NotEvm) => Indexer.NotEvm
    case Returned(MissingReceipt) => Indexer.Failed
    case Returned(Relayed(raw, tx, d)) =>
      if at.block.None? then Indexer.Failed
      else
        Indexer.Evm(at.hash(raw), Store.TxMeta(at.koinosTxId, at.columns(raw, tx)), StoredReceipt(at.block.value, d),
                    at.block.value.timestamp)
  }

  // ----- what an entry comes to, exactly

  /**
  What an entry comes to. It panics on an overrun; it is nothing of the EVM exactly when it holds no raw transaction
  that decodes; one that does is processed exactly when it has a receipt and its block is known, under its own hash,
  block and time, and fails for the cycle otherwise.
  */
  lemma AttemptExactly(e: Entry, at: Around)
    ensures var a, tx := AttemptOf(e, at), TxIn(e, at.recover);
            && (a.Panics? <==> ArgsOverrun(e) || (tx.Some? && EventsOverrun(e)))
            && (a.NotEvm? <==> !ArgsOverrun(e) && tx.None?)
            && (a.Evm? <==> tx.Some? && e.receipt.Some? && !EventsOverrun(e) && at.block.Some?)
            && (a.Failed? <==> tx.Some? && !EventsOverrun(e) && (e.receipt.None? || at.block.None?))
            && (a.Evm? ==>
                  && a.h == at.hash(RawIn(e).value) && a.meta.koinosTxId == at.koinosTxId
                  && a.meta.body == at.columns(RawIn(e).value, tx.value) && a.r.height == at.block.value.height
                  && a.r.blockHash == at.block.value.hash && a.timestamp == at.block.value.timestamp)
  {
    ReadingPanicsExactlyWhen(e, at.recover);
  }

  /**
  The cursor's candidate passes an entry with a raw transaction that decodes only once that transaction is in the
  tables, in a block that was irreversible.
  */
  lemma PassedOnlyOnceWritten(e: Entry, at: Around, m: Indexer.Mark, n: nat, lib: nat, t: Store.Tables)
    requires TxIn(e, at.recover).Some? && Store.RowInv(t) && m.candidate != Some(n)
    requires Indexer.Advance(m, n, AttemptOf(e, at), lib).candidate == Some(n)
    ensures at.block.Some? && at.block.value.height <= lib
    ensures var row := Store.GetReceipt(Indexer.Write(t, AttemptOf(e, at)), at.hash(RawIn(e).value));
            row.Some? && row.value.txIndex.Some?
  {
    AttemptExactly(e, at);
    var a := AttemptOf(e, at);
    Store.ReceiptsReadBack(t, Store.OpIndex(a.h, a.meta, a.r, a.timestamp), a.h);
  }

  /** Processing an entry from reading it to writing it. */
  method ProcessEntry(checked: bool, e: Entry, at: Around, db: Store.Db) returns (a: Indexer.Attempt)
    requires Sized(e)
    modifies db
    ensures a == AttemptOf(e, at) && db.Contents() == Indexer.Write(old(db.Contents()), a)
  {
    var read := ReadEntry(checked, e, at.recover);
    if read.Panicked? {
      return Indexer.Panics;
    }
    if read.value.NotEvm? {
      return Indexer.NotEvm;
    }
    if read.value.MissingReceipt? || at.block.None? {
      return Indexer.Failed;
    }
    var Relayed(raw, tx, d) := read.value;
    var meta, b := Store.TxMeta(at.koinosTxId, at.columns(raw, tx)), at.block.value;
    var receipt := Store.Receipt(b.height, b.hash, d.status, d.gasUsed, d.contract, LogDatas(d.logs));
    var _ := db.Index(at.hash(raw), meta, receipt, b.timestamp);
    return Indexer.Evm(at.hash(raw), meta, receipt, b.timestamp);
  }

  function LogsOf(outcome: Outcome): (r: seq<Store.LogData>)
    ensures |r| == |ReceiptOf(outcome).logs|
    ensures forall i :: 0 <= i < |r| ==> r[i] == LogDataOf(ReceiptOf(outcome).logs[i].log)
  {
    LogDatas(ReceiptOf(outcome).logs)
  }

  /** The receipt row of an outcome in a block that counted `txs` transactions and `logs` logs before it. */
  function RowOf(outcome: Outcome, b: BlockRef, txs: nat, logs: nat): Store.ReceiptRow {
    var said := ReceiptOf(outcome);
    Store.ReceiptRow(b.height, b.hash, Some(txs), said.status, said.gasUsed, said.contract,
                     Store.Numbered(LogsOf(outcome), logs))
  }

  /** No receipt of the indexer's yet, or one of another block that is not a success turned failure. */
  predicate Replaces(was: Option<Store.ReceiptRow>, b: BlockRef, success: bool) {
    || was.None? || was.value.txIndex.None?
    || (was.value.height != b.height && (success || !was.value.status))
  }

  /**
  End to end: whatever the relay submits and its decoder takes, the receipt that the indexer stores and that is read
  from the tables is the engine's outcome, at the block's next transaction and log index, unless one of the same block
  is there already or it would undo a success; and no other receipt changes.
  */
  lemma StoredReceiptIsOutcome(host: Host, raw: seq<byte>, outcome: Outcome, events: seq<ReceiptEvent>, at: Around,
                               t: Store.Tables, g: Store.Hash)
    requires |SubmitArgs(raw)| < U64 && outcome == Decide(host, SubmitArgs(raw)) && ValidOutcome(outcome)
    requires EvmEvents(events) == Carried(EventsOf(outcome)) && at.recover == host.recover && at.block.Some?
    requires RelayTx.DecodeAndRecover(raw, host.recover).Some? && Store.RowInv(t)
    ensures var a, b := AttemptOf(EntryOf(raw, events), at), at.block.value;
            var old_ := Store.BlockFor(t, StoredReceipt(b, ReceiptOf(outcome)), b.timestamp);
            var t' := Indexer.Write(t, a);
            && Store.RowInv(t')
            && Store.GetReceipt(t', g) ==
               if g == at.hash(raw) && Replaces(Store.GetReceipt(t, g), b, ReceiptOf(outcome).status)
               then Some(RowOf(outcome, b, old_.txCount, old_.logCount))
               else Store.GetReceipt(t, g)
  {
    OutcomeIsSeen(host, raw, outcome, events);
    var tx, b := RelayTx.DecodeAndRecover(raw, host.recover).value, at.block.value;
    var meta, r := Store.TxMeta(at.koinosTxId, at.columns(raw, tx)), StoredReceipt(b, ReceiptOf(outcome));
    AttemptIs(EntryOf(raw, events), at, raw, tx, ReceiptOf(outcome));
    Store.ReceiptsReadBack(t, Store.OpIndex(at.hash(raw), meta, r, b.timestamp), g);
  }

  lemma AttemptIs(e: Entry, at: Around, raw: seq<byte>, tx: RelayTx.DecodedTx, d: Decoded)
    requires Understood(e, at.recover) == Returned(Relayed(raw, tx, d)) && at.block.Some?
    ensures AttemptOf(e, at) ==
            Indexer.Evm(at.hash(raw), Store.TxMeta(at.koinosTxId, at.columns(raw, tx)), StoredReceipt(at.block.value, d),
                        at.block.value.timestamp)
  {
  }
}
