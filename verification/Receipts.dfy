/**
What a relayed transaction comes to and how it is reported: the engine's `handle_submit_raw_tx` with the events and
response bytes it writes, and the relay's decoders that rebuild receipts, results, accounts and call arguments.
*/
module Receipts {
  import opened Common
  import opened Proto
  import opened FieldLoops
  import EngineTx

  // ----- outcomes

  const ENGINE_CHAIN_ID: nat := 42069

  datatype Log = Log(address: seq<byte>, topics: seq<seq<byte>>, data: seq<byte>)

  datatype Output = Call(data: seq<byte>) | Create(data: seq<byte>, address: Option<seq<byte>>)

  /** What the EVM reports of an executed transaction. */
  datatype Execution =
    | Success(output: Output, gasUsed: nat, logs: seq<Log>)
    | Revert(reason: seq<byte>, gasUsed: nat)
    | Halt(gasUsed: nat)

  datatype Rejection =
    | EmptyRawTx
    | ParseError(error: EngineTx.TxParseError)
    | ChainMismatch(chainId: nat)
    | DbReadFailed
    | NonceMismatch(nonce: nat, expected: nat)
    | EvmError(message: seq<byte>)

  datatype Outcome = Rejected(why: Rejection) | Executed(result: Execution)

  /** The parts of the engine's surroundings that decide a submission. */
  datatype Host = Host(recover: EngineTx.Recover,
                       basic: seq<byte> -> Result<Option<nat>, ()>,
                       execute: EngineTx.ParsedTx -> Result<Execution, seq<byte>>,
                       text: Rejection -> seq<byte>)

  /** The last `raw_tx` field, as the engine unwraps its arguments. */
  function RawTxField(acc: seq<byte>, f: Field): seq<byte> {
    if f.number == 1 && f.value.Bytes? then f.value.b else acc
  }

  function RawTxOf(args: seq<byte>): seq<byte> { EngineDecode(RawTxField, [], args) }

  function Decide(host: Host, args: seq<byte>): Outcome {
    var raw := RawTxOf(args);
    if raw == [] then Rejected(EmptyRawTx)
    else
      match EngineTx.ParseRawTx(raw, host.recover)
      case Err(e) => Rejected(ParseError(e))
      case Ok(tx) =>
        if tx.chainId != ENGINE_CHAIN_ID then Rejected(ChainMismatch(tx.chainId))
        else
          match host.basic(tx.sender)
          case Err(_) => Rejected(DbReadFailed)
          case Ok(info) =>
            var expected := if info.Some? then info.value else 0;
            if tx.nonce != expected then Rejected(NonceMismatch(tx.nonce, expected))
            else
              match host.execute(tx)
              case Err(message) => Rejected(EvmError(message))
              case Ok(result) => Executed(result)
  }

  /**
  Which check a submission fails, if any: an empty transaction, one that does not parse, another chain, an unreadable
  sender, another nonce than the sender's, and what the EVM refuses, in this order.
  */
  lemma DecidedBy(host: Host, args: seq<byte>, tx: EngineTx.ParsedTx, error: EngineTx.TxParseError, account: Option<nat>,
                  a: nat, b: nat)
    ensures var raw, out := RawTxOf(args), Decide(host, args);
            var parsed, expected := EngineTx.ParseRawTx(raw, host.recover), if account.Some? then account.value else 0;
            var known := raw != [] && parsed == Ok(tx) && tx.chainId == 42069;
            && (out == Rejected(EmptyRawTx) <==> raw == [])
            && (out == Rejected(ParseError(error)) <==> raw != [] && parsed == Err(error))
            && (raw != [] && parsed == Ok(tx) ==> (out == Rejected(ChainMismatch(a)) <==> tx.chainId == a != 42069))
            && (known ==> (out == Rejected(DbReadFailed) <==> host.basic(tx.sender).Err?))
            && (known && host.basic(tx.sender) == Ok(account) ==>
                  && (out == Rejected(NonceMismatch(a, b)) <==> tx.nonce == a && expected == b && a != b)
                  && (tx.nonce == expected ==>
                        out == match host.execute(tx)
                               case Ok(result) => Executed(result)
                               case Err(message) => Rejected(EvmError(message))))
  {
  }

  // ----- events and responses

  datatype Event = Event(name: string, data: seq<byte>, impacted: seq<seq<byte>>)

  function TopicFields(topics: seq<seq<byte>>): (r: seq<Field>)
    ensures |r| == |topics| && forall i :: 0 <= i < |r| ==> r[i] == Field(2, Bytes(topics[i]))
  {
    seq(|topics|, i requires 0 <= i < |topics| => Field(2, Bytes(topics[i])))
  }

  function LogFields(log: Log): seq<Field> {
    [Field(1, Bytes(log.address))] + TopicFields(log.topics) + [Field(3, Bytes(log.data))]
  }

  function LogEvent(log: Log): Event {
    Event("evm.log", EngineAll(LogFields(log)), [log.address] + log.topics)
  }

  function LogEvents(logs: seq<Log>): seq<Event> {
    seq(|logs|, i requires 0 <= i < |logs| => LogEvent(logs[i]))
  }

  function OptionalField(number: nat, address: Option<seq<byte>>): seq<Field> {
    if address.None? then [] else [Field(number, Bytes(address.value))]
  }

  /** The success field is written even when it is zero; the others only when they are not. */
  function ResultEvent(success: bool, gasUsed: nat, address: Option<seq<byte>>): Event {
    Event("evm.result",
          RawField(Field(1, Varint(if success then 1 else 0))) +
          EngineAll([Field(2, Varint(gasUsed))] + OptionalField(3, address)),
          [])
  }

  function EncodeResult(success: bool, output: seq<byte>, gasUsed: nat, address: Option<seq<byte>>): seq<byte> {
    EngineAll([Field(1, Varint(if success then 1 else 0)), Field(2, Bytes(output)), Field(3, Varint(gasUsed))] +
              OptionalField(4, address))
  }

  function Created(output: Output): Option<seq<byte>> { if output.Call? then None else output.address }

  /** "execution halted" */
  const HALTED: seq<byte> := [101, 120, 101, 99, 117, 116, 105, 111, 110, 32, 104, 97, 108, 116, 101, 100]

  function EventsOf(outcome: Outcome): seq<Event> {
    match outcome
    case Rejected(_) => [ResultEvent(false, 0, None)]
    case Executed(Success(output, gas, logs)) => LogEvents(logs) + [ResultEvent(true, gas, Created(output))]
    case Executed(Revert(_, gas)) => [ResultEvent(false, gas, None)]
    case Executed(Halt(gas)) => [ResultEvent(false, gas, None)]
  }

  function ResponseOf(text: Rejection -> seq<byte>, outcome: Outcome): seq<byte> {
    match outcome
    case Rejected(why) => EncodeResult(false, text(why), 0, None)
    case Executed(Success(output, gas, _)) => EncodeResult(true, output.data, gas, Created(output))
    case Executed(Revert(reason, gas)) => EncodeResult(false, reason, gas, None)
    case Executed(Halt(gas)) => EncodeResult(false, HALTED, gas, None)
  }

  // ----- the engine's entry point

  method PushField(buf: seq<byte>, f: Field) returns (out: seq<byte>)
    ensures out == buf + EngineField(f)
  {
    if IsDefault(f.value) {
      return buf;
    }
    out := PushVarint(buf, f.number * 8 + Wire(f.value));
    match f.value
    case Varint(n) =>
      out := PushVarint(out, n);
    case Bytes(b) =>
      out := PushVarint(out, |b|);
      out := out + b;
  }

  lemma AppendField(field: Field -> seq<byte>, buf: seq<byte>, fs: seq<Field>, i: nat)
    requires i < |fs|
    ensures buf + Print(field, fs[..i + 1]) == buf + Print(field, fs[..i]) + field(fs[i])
  {
    PrintConcat(field, fs[..i], [fs[i]]);
    PrintOne(field, fs[i]);
    assert fs[..i + 1] == fs[..i] + [fs[i]];
    SeqAssoc(buf, Print(field, fs[..i]), field(fs[i]));
  }

  /** Writes fields one after the other, as every encoder of the engine does. */
  method PushFields(buf: seq<byte>, fs: seq<Field>) returns (out: seq<byte>)
    ensures out == buf + EngineAll(fs)
  {
    out := buf;
    for i := 0 to |fs|
      invariant out == buf + EngineAll(fs[..i])
    {
      out := PushField(out, fs[i]);
      AppendField(EngineField, buf, fs, i);
    }
    assert fs[..|fs|] == fs;
  }

  class Engine {
    const host: Host
    var events: seq<Event>

    constructor (host: Host)
      ensures this.host == host && events == []
    {
      this.host, events := host, [];
    }

    method EmitLogs(logs: seq<Log>)
      modifies this
      ensures events == old(events) + LogEvents(logs)
    {
      for i := 0 to |logs|
        invariant events == old(events) + LogEvents(logs[..i])
      {
        var log := logs[i];
        var data := PushField([], Field(1, Bytes(log.address)));
        data := PushFields(data, TopicFields(log.topics));
        data := PushField(data, Field(3, Bytes(log.data)));
        LogBytes(log);
        events := events + [Event("evm.log", data, [log.address] + log.topics)];
        assert LogEvents(logs[..i + 1]) == LogEvents(logs[..i]) + [LogEvent(log)];
      }
      assert logs[..|logs|] == logs;
    }

    method EmitResult(success: bool, gasUsed: nat, address: Option<seq<byte>>)
      modifies this
      ensures events == old(events) + [ResultEvent(success, gasUsed, address)]
    {
      var flag := Field(1, Varint(if success then 1 else 0));
      var data := PushVarint([], flag.number * 8 + Wire(flag.value));
      data := PushVarint(data, flag.value.n);
      assert data == RawField(flag);
      data := PushFields(data, [Field(2, Varint(gasUsed))] + OptionalField(3, address));
      events := events + [Event("evm.result", data, [])];
    }

    method Encode(success: bool, output: seq<byte>, gasUsed: nat, address: Option<seq<byte>>)
      returns (bytes: seq<byte>)
      ensures bytes == EncodeResult(success, output, gasUsed, address)
    {
      bytes := PushFields([], [Field(1, Varint(if success then 1 else 0)), Field(2, Bytes(output)),
                               Field(3, Varint(gasUsed))] + OptionalField(4, address));
    }

    method Reject(why: Rejection) returns (bytes: seq<byte>)
      modifies this
      ensures events == old(events) + EventsOf(Rejected(why))
      ensures bytes == ResponseOf(host.text, Rejected(why))
    {
      EmitResult(false, 0, None);
      bytes := Encode(false, host.text(why), 0, None);
    }

    /** Read-only calls share this, with `committing` false: they answer alike and emit nothing. */
    method Respond(result: Execution, committing: bool) returns (bytes: seq<byte>)
      modifies this
      ensures events == old(events) + if committing then EventsOf(Executed(result)) else []
      ensures bytes == ResponseOf(host.text, Executed(result))
    {
      match result
      case Success(output, gas, logs) =>
        if committing {
          EmitLogs(logs);
        }
        var address := if output.Call? then None else output.address;
        if committing {
          EmitResult(true, gas, address);
        }
        bytes := Encode(true, output.data, gas, address);
      case Revert(reason, gas) =>
        if committing {
          EmitResult(false, gas, None);
        }
        bytes := Encode(false, reason, gas, None);
      case Halt(gas) =>
        if committing {
          EmitResult(false, gas, None);
        }
        bytes := Encode(false, HALTED, gas, None);
    }

    method HandleSubmitRawTx(args: seq<byte>) returns (bytes: seq<byte>)
      modifies this
      ensures events == old(events) + EventsOf(Decide(host, args))
      ensures bytes == ResponseOf(host.text, Decide(host, args))
    {
      var raw := RunEngineLoop(RawTxField, [], args);
      if raw == [] {
        bytes := Reject(EmptyRawTx);
        return;
      }
      var parsed := EngineTx.ParseRawTx(raw, host.recover);
      if parsed.Err? {
        bytes := Reject(ParseError(parsed.error));
        return;
      }
      var tx := parsed.value;
      if tx.chainId != ENGINE_CHAIN_ID {
        bytes := Reject(ChainMismatch(tx.chainId));
        return;
      }
      var info := host.basic(tx.sender);
      if info.Err? {
        bytes := Reject(DbReadFailed);
        return;
      }
      var expected := if info.value.Some? then info.value.value else 0;
      if tx.nonce != expected {
        bytes := Reject(NonceMismatch(tx.nonce, expected));
        return;
      }
      var result := host.execute(tx);
      if result.Err? {
        bytes := Reject(EvmError(result.error));
        return;
      }
      bytes := Respond(result.value, true);
    }
  }

  lemma LogBytes(log: Log)
    ensures EngineAll(LogFields(log)) ==
            [] + EngineField(Field(1, Bytes(log.address))) + EngineAll(TopicFields(log.topics)) +
            EngineField(Field(3, Bytes(log.data)))
  {
    PrintThree(EngineField, Field(1, Bytes(log.address)), TopicFields(log.topics), Field(3, Bytes(log.data)));
  }

  lemma PrintThree(field: Field -> seq<byte>, first: Field, middle: seq<Field>, last: Field)
    ensures Print(field, [first] + middle + [last]) == [] + field(first) + Print(field, middle) + field(last)
  {
    PrintConcat(field, [first] + middle, [last]);
    PrintConcat(field, [first], middle);
    PrintOne(field, first);
    PrintOne(field, last);
    assert [] + field(first) == field(first);
  }

  // ----- the relay's decoders

  datatype LogRow = LogRow(logIndex: nat, log: Log)

  datatype Decoded = Decoded(status: bool, gasUsed: nat, contract: Option<seq<byte>>, logs: seq<LogRow>)

  /** An event as a receipt carries it; the data is None when it is not Base64. */
  datatype ReceiptEvent = ReceiptEvent(name: string, data: Option<seq<byte>>)

  function ResultField(acc: Decoded, f: Field): Decoded {
    match f
    case Field(1, Varint(n)) => if n == 0 then acc.(status := false) else acc
    case Field(2, Varint(n)) => acc.(gasUsed := n)
    case Field(3, Bytes(b)) => if |b| == 20 then acc.(contract := Some(b)) else acc
    case _ => acc
  }

  function LogField(acc: Log, f: Field): Log {
    match f
    case Field(1, Bytes(b)) => if |b| == 20 then acc.(address := b) else acc
    case Field(2, Bytes(b)) => acc.(topics := acc.topics + [b])
    case Field(3, Bytes(b)) => acc.(data := b)
    case _ => acc
  }

  const NO_LOG := Log([], [], [])

  function DecodeEvent(acc: Decoded, ev: ReceiptEvent): Call<Decoded> {
    if ev.data.None? then Returned(acc)
    else if ev.name == "evm.result" then FlatDecode(ResultField, acc, ev.data.value)
    else if ev.name == "evm.log" then
      match FlatDecode(LogField, NO_LOG, ev.data.value)
      case Returned(log) => Returned(acc.(logs := acc.logs + [LogRow(|acc.logs|, log)]))
      case Panicked => Panicked
    else Returned(acc)
  }

  function DecodeStep(acc: Call<Decoded>, ev: ReceiptEvent): Call<Decoded> {
    if acc.Panicked? then Panicked else DecodeEvent(acc.value, ev)
  }

  function DecodeFrom(acc: Decoded, events: seq<ReceiptEvent>): Call<Decoded> {
    Fold(DecodeStep, Returned(acc), events)
  }

  const UNREPORTED := Decoded(true, 0, None, [])

  predicate OfEvm(ev: ReceiptEvent) { ev.name == "evm.result" || ev.name == "evm.log" }

  /** The data of an event that is decoded overrun. */
  predicate EventOverruns(ev: ReceiptEvent) {
    OfEvm(ev) && ev.data.Some? && Overrun in LaxItems(ev.data.value)
  }

  lemma EventReturnsExactlyWhen(acc: Decoded, ev: ReceiptEvent)
    ensures DecodeEvent(acc, ev).Panicked? <==> EventOverruns(ev)
  {
    if ev.data.Some? {
      FlatReturnsExactlyWhen(ResultField, acc, LaxItems(ev.data.value));
      FlatReturnsExactlyWhen(LogField, NO_LOG, LaxItems(ev.data.value));
    }
  }

  lemma {:induction false} PanicStays(events: seq<ReceiptEvent>)
    ensures Fold(DecodeStep, Panicked, events) == Panicked
  {
    if events != [] {
      PanicStays(events[1..]);
    }
  }

  /** Decoding a receipt's events returns exactly when none that it looks into overruns. */
  lemma {:induction false} ReceiptReturnsExactlyWhen(acc: Decoded, events: seq<ReceiptEvent>)
    ensures DecodeFrom(acc, events).Panicked? <==> exists ev :: ev in events && EventOverruns(ev)
    decreases |events|
  {
    if events != [] {
      var first := DecodeEvent(acc, events[0]);
      EventReturnsExactlyWhen(acc, events[0]);
      assert events == [events[0]] + events[1..];
      if first.Panicked? {
        PanicStays(events[1..]);
      } else {
        ReceiptReturnsExactlyWhen(first.value, events[1..]);
      }
    }
  }

  method DecodeReceiptEvents(checked: bool, events: Option<seq<ReceiptEvent>>) returns (r: Call<Decoded>)
    requires events.Some? ==> forall ev <- events.value :: ev.data.Some? ==> |ev.data.value| < U64
    ensures r == if events.None? then Returned(UNREPORTED) else DecodeFrom(UNREPORTED, events.value)
    ensures r.Panicked? <==> events.Some? && exists ev :: ev in events.value && EventOverruns(ev)
  {
    var out := Decoded(true, 0, None, []);
    if events.None? {
      return Returned(out);
    }
    ReceiptReturnsExactlyWhen(UNREPORTED, events.value);
    var logIndex := 0;
    for i := 0 to |events.value|
      invariant logIndex == |out.logs|
      invariant DecodeFrom(out, events.value[i..]) == DecodeFrom(UNREPORTED, events.value)
    {
      var ev := events.value[i];
      ghost var before, rest := out, events.value[i + 1..];
      EventTurn(before, ev, events.value[i..], rest);
      if ev.name == "evm.result" && ev.data.Some? {
        var result := RunFlatLoop(checked, ResultField, out, ev.data.value);
        if result.Panicked? {
          return Panicked;
        }
        ResultKeepsLogs(before, ev.data.value);
        out := result.value;
      } else if ev.name == "evm.log" && ev.data.Some? {
        var log := RunFlatLoop(checked, LogField, Log([], [], []), ev.data.value);
        if log.Panicked? {
          return Panicked;
        }
        out := out.(logs := out.logs + [LogRow(logIndex, log.value)]);
        logIndex := logIndex + 1;
      }
      assert Returned(out) == DecodeEvent(before, ev);
    }
    return Returned(out);
  }

  lemma EventTurn(acc: Decoded, ev: ReceiptEvent, events: seq<ReceiptEvent>, rest: seq<ReceiptEvent>)
    requires events != [] && events[0] == ev && events[1..] == rest
    ensures var next := DecodeEvent(acc, ev);
            DecodeFrom(acc, events) == if next.Panicked? then Panicked else DecodeFrom(next.value, rest)
  {
    PanicStays(rest);
  }

  lemma ResultKeepsLogs(acc: Decoded, bytes: seq<byte>)
    ensures var r := FlatDecode(ResultField, acc, bytes); r.Returned? ==> r.value.logs == acc.logs
  {
    FlatReturnsExactlyWhen(ResultField, acc, LaxItems(bytes));
    KeepsLogs(acc, Fields(LaxItems(bytes)));
  }

  lemma {:induction false} KeepsLogs(acc: Decoded, fs: seq<Field>)
    ensures Fold(ResultField, acc, fs).logs == acc.logs
    decreases |fs|
  {
    if fs != [] {
      KeepsLogs(ResultField(acc, fs[0]), fs[1..]);
    }
  }

  datatype EvmResult = EvmResult(success: bool, output: seq<byte>, gasUsed: nat, contract: Option<seq<byte>>)

  function EvmResultField(acc: EvmResult, f: Field): EvmResult {
    match f
    case Field(1, Varint(n)) => acc.(success := n != 0)
    case Field(2, Bytes(b)) => acc.(output := b)
    case Field(3, Varint(n)) => acc.(gasUsed := n)
    case Field(4, Bytes(b)) => if |b| == 20 then acc.(contract := Some(b)) else acc
    case _ => acc
  }

  method DecodeEvmResult(checked: bool, bytes: seq<byte>) returns (r: Call<Option<EvmResult>>)
    requires |bytes| < U64
    ensures r == TryDecode(EvmResultField, NO_RESULT, bytes)
    ensures r.Panicked? <==> FirstStop(LaxItems(bytes)) == Some(Overrun)
  {
    r := RunTryLoop(checked, EvmResultField, EvmResult(false, [], 0, None), bytes);
  }

  /** On any bytes without an error, each part of a result is what the last field with its number says, or nothing. */
  lemma EvmResultIs(bytes: seq<byte>)
    ensures var fs := Fields(LaxItems(bytes));
            TryDecode(EvmResultField, NO_RESULT, bytes) ==
            match FirstStop(LaxItems(bytes))
            case Some(Overrun) => Panicked
            case Some(_) => Returned(None)
            case None =>
              Returned(Some(EvmResult(LastOf(VarintAt(1), 0, fs) != 0, LastOf(BytesAt(2), [], fs),
                                      LastOf(VarintAt(3), 0, fs), LastOf(AddressAt(4), None, fs))))
  {
    TryEndsBy(EvmResultField, NO_RESULT, LaxItems(bytes));
    EvmResultFold(Fields(LaxItems(bytes)));
  }

  lemma EvmResultFold(fs: seq<Field>)
    ensures Fold(EvmResultField, NO_RESULT, fs) ==
            EvmResult(LastOf(VarintAt(1), 0, fs) != 0, LastOf(BytesAt(2), [], fs), LastOf(VarintAt(3), 0, fs),
                      LastOf(AddressAt(4), None, fs))
  {
    FoldSets(EvmResultField, (a: EvmResult) => a.success, FlagAt(1), NO_RESULT, fs);
    FlagIsNonZero(1, fs);
    FoldSets(EvmResultField, (a: EvmResult) => a.output, BytesAt(2), NO_RESULT, fs);
    FoldSets(EvmResultField, (a: EvmResult) => a.gasUsed, VarintAt(3), NO_RESULT, fs);
    FoldSets(EvmResultField, (a: EvmResult) => a.contract, AddressAt(4), NO_RESULT, fs);
  }

  function FlagAt(number: nat): Field -> Option<bool> {
    (f: Field) => if f.number == number && f.value.Varint? then Some(f.value.n != 0) else None
  }

  function AddressAt(number: nat): Field -> Option<Option<seq<byte>>> {
    (f: Field) => if f.number == number && f.value.Bytes? && |f.value.b| == 20 then Some(Some(f.value.b)) else None
  }

  lemma {:induction false} FlagIsNonZero(number: nat, fs: seq<Field>)
    ensures LastOf(FlagAt(number), false, fs) == (LastOf(VarintAt(number), 0, fs) != 0)
  {
    if fs != [] {
      FlagIsNonZero(number, fs[..|fs| - 1]);
    }
  }

  /**
  On any bytes that do not overrun, a log's address and data are what the last field with their number says, and its
  topics all of theirs in order; a result event says failure exactly when some flag in it is zero.
  */
  lemma EventFieldsAre(bytes: seq<byte>, acc: Decoded)
    requires Overrun !in LaxItems(bytes)
    ensures var fs := Fields(LaxItems(bytes));
            && FlatDecode(LogField, NO_LOG, bytes) ==
               Returned(Log(LastOf(SizedAt(1, 20), [], fs), AllOf(BytesAt(2), fs), LastOf(BytesAt(3), [], fs)))
            && FlatDecode(ResultField, acc, bytes) ==
               Returned(Decoded(acc.status && 0 !in AllOf(VarintAt(1), fs), LastOf(VarintAt(2), acc.gasUsed, fs),
                                LastOf(AddressAt(3), acc.contract, fs), acc.logs))
  {
    var fs := Fields(LaxItems(bytes));
    FlatReturnsExactlyWhen(LogField, NO_LOG, LaxItems(bytes));
    FlatReturnsExactlyWhen(ResultField, acc, LaxItems(bytes));
    FoldSets(LogField, (l: Log) => l.address, SizedAt(1, 20), NO_LOG, fs);
    FoldSets(LogField, (l: Log) => l.data, BytesAt(3), NO_LOG, fs);
    FoldSets(ResultField, (d: Decoded) => d.gasUsed, VarintAt(2), acc, fs);
    FoldSets(ResultField, (d: Decoded) => d.contract, AddressAt(3), acc, fs);
    KeepsLogs(acc, fs);
    FoldFlag(acc, fs);
    FoldTopics(fs);
  }

  /** What `pick` makes of every field that it takes, in order. */
  function AllOf<T>(pick: Field -> Option<T>, fs: seq<Field>): seq<T> {
    if fs == [] then []
    else
      var last := pick(fs[|fs| - 1]);
      AllOf(pick, fs[..|fs| - 1]) + if last.Some? then [last.value] else []
  }

  lemma {:induction false} FoldFlag(acc: Decoded, fs: seq<Field>)
    ensures Fold(ResultField, acc, fs).status <==> acc.status && 0 !in AllOf(VarintAt(1), fs)
  {
    if fs != [] {
      var n := |fs| - 1;
      FoldFlag(acc, fs[..n]);
      assert fs == fs[..n] + [fs[n]];
      FoldConcat(ResultField, acc, fs[..n], [fs[n]]);
      FoldOne(ResultField, Fold(ResultField, acc, fs[..n]), fs[n]);
    }
  }

  lemma {:induction false} FoldTopics(fs: seq<Field>)
    ensures Fold(LogField, NO_LOG, fs).topics == AllOf(BytesAt(2), fs)
  {
    if fs != [] {
      var n := |fs| - 1;
      FoldTopics(fs[..n]);
      assert fs == fs[..n] + [fs[n]];
      FoldConcat(LogField, NO_LOG, fs[..n], [fs[n]]);
      FoldOne(LogField, Fold(LogField, NO_LOG, fs[..n]), fs[n]);
    }
  }

  // ----- what a receipt should say

  predicate IsAddress(a: Option<seq<byte>>) { a.Some? ==> |a.value| == 20 }

  predicate ValidLog(log: Log) {
    && |log.address| == 20 && |LogEvent(log).data| < U64
    && forall i :: 0 <= i < |log.topics| ==> |log.topics[i]| == 32
  }

  /** The sizes the EVM's types guarantee. */
  predicate ValidOutcome(outcome: Outcome) {
    match outcome
    case Rejected(_) => true
    case Executed(Success(output, gas, logs)) =>
      && gas < U64 && IsAddress(Created(output))
      && forall i :: 0 <= i < |logs| ==> ValidLog(logs[i])
    case Executed(Revert(_, gas)) => gas < U64
    case Executed(Halt(gas)) => gas < U64
  }

  function Numbered(logs: seq<Log>): seq<LogRow> {
    seq(|logs|, i requires 0 <= i < |logs| => LogRow(i, logs[i]))
  }

  /** The receipt an Ethereum client expects of this outcome. */
  function ReceiptOf(outcome: Outcome): Decoded {
    match outcome
    case Rejected(_) => Decoded(false, 0, None, [])
    case Executed(Success(output, gas, logs)) => Decoded(true, gas, Created(output), Numbered(logs))
    case Executed(Revert(_, gas)) => Decoded(false, gas, None, [])
    case Executed(Halt(gas)) => Decoded(false, gas, None, [])
  }

  function ResultOf(text: Rejection -> seq<byte>, outcome: Outcome): EvmResult {
    match outcome
    case Rejected(why) => EvmResult(false, text(why), 0, None)
    case Executed(Success(output, gas, _)) => EvmResult(true, output.data, gas, Created(output))
    case Executed(Revert(reason, gas)) => EvmResult(false, reason, gas, None)
    case Executed(Halt(gas)) => EvmResult(false, HALTED, gas, None)
  }

  /** The engine's own events in a receipt, where other contracts' events may stand between them. */
  function EvmEvents(events: seq<ReceiptEvent>): seq<ReceiptEvent> {
    if events == [] then [] else (if OfEvm(events[0]) then [events[0]] else []) + EvmEvents(events[1..])
  }

  function Carried(events: seq<Event>): seq<ReceiptEvent> {
    seq(|events|, i requires 0 <= i < |events| => ReceiptEvent(events[i].name, Some(events[i].data)))
  }

  lemma {:induction false} OthersIgnored(acc: Call<Decoded>, events: seq<ReceiptEvent>)
    ensures Fold(DecodeStep, acc, events) == Fold(DecodeStep, acc, EvmEvents(events))
    decreases |events|
  {
    if events != [] {
      var acc' := DecodeStep(acc, events[0]);
      OthersIgnored(acc', events[1..]);
      if OfEvm(events[0]) {
        assert EvmEvents(events)[1..] == EvmEvents(events[1..]);
      } else {
        assert EvmEvents(events) == EvmEvents(events[1..]);
      }
    }
  }

  // ----- decoding what was written

  /** A decoding step that passes default values over, as if they had not been written. */
  function Skipping<A>(step: (A, Field) -> A): (A, Field) -> A {
    (acc, f: Field) => if IsDefault(f.value) then acc else step(acc, f)
  }

  lemma SkippingOne<A>(step: (A, Field) -> A, acc: A, f: Field)
    ensures Skipping(step)(acc, f) == if IsDefault(f.value) then acc else step(acc, f)
  {
  }

  lemma {:induction false} FoldNonDefault<A>(step: (A, Field) -> A, acc: A, fs: seq<Field>)
    ensures Fold(step, acc, NonDefault(fs)) == Fold(Skipping(step), acc, fs)
  {
    if fs != [] {
      if IsDefault(fs[0].value) {
        assert NonDefault(fs) == NonDefault(fs[1..]);
        FoldNonDefault(step, acc, fs[1..]);
      } else {
        assert NonDefault(fs)[1..] == NonDefault(fs[1..]);
        FoldNonDefault(step, step(acc, fs[0]), fs[1..]);
      }
    }
  }

  /** Decoding what the engine's encoders wrote is folding the fields, default values passed over. */
  lemma EngineFieldsDecode<A>(step: (A, Field) -> A, acc: A, fs: seq<Field>)
    requires AllValid(fs) && |EngineAll(fs)| < U64
    ensures FlatDecode(step, acc, EngineAll(fs)) == Returned(Fold(Skipping(step), acc, fs))
    ensures TryDecode(step, acc, EngineAll(fs)) == Returned(Some(Fold(Skipping(step), acc, fs)))
  {
    EngineSkipsDefaults(fs);
    NonDefaultValid(fs);
    DecodersSeeFields(step, acc, NonDefault(fs), EngineAll(fs));
    FoldNonDefault(step, acc, fs);
  }

  lemma {:induction false} PrintedPart(field: Field -> seq<byte>, fs: seq<Field>, i: nat)
    requires i < |fs|
    ensures |field(fs[i])| <= |Print(field, fs)|
  {
    if i > 0 {
      PrintedPart(field, fs[1..], i - 1);
    }
  }

  /** A payload is no longer than the fields it is written among. */
  lemma PayloadFits(fs: seq<Field>, i: nat)
    requires i < |fs| && fs[i].value.Bytes? && |EngineAll(fs)| < U64
    ensures |fs[i].value.b| < U64
  {
    PrintedPart(EngineField, fs, i);
  }

  lemma {:induction false} TopicsFold(acc: Log, topics: seq<seq<byte>>)
    requires forall i :: 0 <= i < |topics| ==> |topics[i]| == 32
    ensures Fold(Skipping(LogField), acc, TopicFields(topics)) == acc.(topics := acc.topics + topics)
    decreases |topics|
  {
    if topics == [] {
      assert acc.topics + topics == acc.topics;
    } else {
      var acc' := acc.(topics := acc.topics + [topics[0]]);
      var f := Field(2, Bytes(topics[0]));
      SkippingOne(LogField, acc, f);
      assert TopicFields(topics)[1..] == TopicFields(topics[1..]);
      TopicsFold(acc', topics[1..]);
      assert acc'.topics + topics[1..] == acc.topics + topics;
    }
  }

  lemma FoldThree<A>(step: (A, Field) -> A, acc: A, first: Field, middle: seq<Field>, last: Field, a1: A, a2: A)
    requires step(acc, first) == a1 && Fold(step, a1, middle) == a2
    ensures Fold(step, acc, [first] + middle + [last]) == step(a2, last)
  {
    FoldConcat(step, acc, [first] + middle, [last]);
    FoldConcat(step, acc, [first], middle);
    FoldOne(step, acc, first);
    FoldOne(step, a2, last);
  }

  lemma LogFold(log: Log)
    requires ValidLog(log)
    ensures AllValid(LogFields(log)) && Fold(Skipping(LogField), NO_LOG, LogFields(log)) == log
  {
    PayloadFits(LogFields(log), |log.topics| + 1);
    TopicsFold(Log(log.address, [], []), log.topics);
    SkippingOne(LogField, NO_LOG, Field(1, Bytes(log.address)));
    SkippingOne(LogField, Log(log.address, log.topics, []), Field(3, Bytes(log.data)));
    assert [] + log.topics == log.topics;
    FoldThree(Skipping(LogField), NO_LOG, Field(1, Bytes(log.address)), TopicFields(log.topics),
              Field(3, Bytes(log.data)), Log(log.address, [], []), Log(log.address, log.topics, []));
  }

  /** A log travels whole: address, topics in order and data, empty data included. */
  lemma LogTravels(log: Log)
    requires ValidLog(log)
    ensures FlatDecode(LogField, NO_LOG, EngineAll(LogFields(log))) == Returned(log)
  {
    LogFold(log);
    EngineFieldsDecode(LogField, NO_LOG, LogFields(log));
  }

  lemma LogEventDecodes(acc: Decoded, log: Log)
    requires ValidLog(log)
    ensures DecodeEvent(acc, ReceiptEvent("evm.log", Some(LogEvent(log).data))) ==
            Returned(acc.(logs := acc.logs + [LogRow(|acc.logs|, log)]))
  {
    LogTravels(log);
  }

  lemma NumberedSnoc(logs: seq<Log>, n: nat)
    requires n < |logs|
    ensures Numbered(logs[..n + 1]) == Numbered(logs[..n]) + [LogRow(n, logs[n])]
  {
  }

  /** The receipt after the first `i` logs. */
  function WithLogs(acc: Decoded, logs: seq<Log>, i: nat): Call<Decoded>
    requires i <= |logs|
  {
    Returned(acc.(logs := Numbered(logs[..i])))
  }

  lemma LogDecodes(acc: Decoded, logs: seq<Log>, i: nat)
    requires i < |logs| && ValidLog(logs[i])
    ensures DecodeStep(WithLogs(acc, logs, i), ReceiptEvent("evm.log", Some(LogEvent(logs[i]).data))) ==
            WithLogs(acc, logs, i + 1)
  {
    LogEventDecodes(WithLogs(acc, logs, i).value, logs[i]);
    NumberedSnoc(logs, i);
  }

  lemma LogsTravel(acc: Decoded, logs: seq<Log>)
    requires forall i :: 0 <= i < |logs| ==> ValidLog(logs[i])
    requires acc.logs == []
    ensures DecodeFrom(acc, Carried(LogEvents(logs))) == Returned(acc.(logs := Numbered(logs)))
  {
    var events, n := Carried(LogEvents(logs)), |logs|;
    var accs := seq(n + 1, i requires 0 <= i <= n => WithLogs(acc, logs, i));
    forall i | 0 <= i < n
      ensures DecodeStep(accs[i], events[i]) == accs[i + 1]
    {
      LogDecodes(acc, logs, i);
    }
    FoldChain(DecodeStep, accs, events, n);
    assert events[..n] == events && logs[..n] == logs;
    assert Numbered(logs[..0]) == [] && accs[0] == Returned(acc);
  }

  lemma ResultFold(logs: seq<LogRow>, success: bool, gasUsed: nat, address: Option<seq<byte>>)
    requires IsAddress(address)
    ensures var flag, gas := Field(1, Varint(if success then 1 else 0)), Field(2, Varint(gasUsed));
            var start := Decoded(true, 0, None, logs);
            Fold(ResultField, start, [flag] + NonDefault([gas] + OptionalField(3, address))) ==
            Decoded(success, gasUsed, address, logs)
  {
    var flag, gas := Field(1, Varint(if success then 1 else 0)), Field(2, Varint(gasUsed));
    var start, flagged := Decoded(true, 0, None, logs), Decoded(success, 0, None, logs);
    FoldConcat(ResultField, start, [flag], NonDefault([gas] + OptionalField(3, address)));
    FoldOne(ResultField, start, flag);
    FoldNonDefault(ResultField, flagged, [gas] + OptionalField(3, address));
    FoldConcat(Skipping(ResultField), flagged, [gas], OptionalField(3, address));
    FoldOne(Skipping(ResultField), flagged, gas);
    if address.Some? {
      FoldOne(Skipping(ResultField), Decoded(success, gasUsed, None, logs), Field(3, Bytes(address.value)));
    }
  }

  lemma ResultEventBytes(success: bool, gasUsed: nat, address: Option<seq<byte>>)
    requires gasUsed < U64 && IsAddress(address)
    ensures var fs := [Field(1, Varint(if success then 1 else 0))] +
                      NonDefault([Field(2, Varint(gasUsed))] + OptionalField(3, address));
            AllValid(fs) && ResultEvent(success, gasUsed, address).data == RawAll(fs)
  {
    var flag, more := Field(1, Varint(if success then 1 else 0)), [Field(2, Varint(gasUsed))] + OptionalField(3, address);
    EngineSkipsDefaults(more);
    PrintConcat(RawField, [flag], NonDefault(more));
    PrintOne(RawField, flag);
    NonDefaultIn(more);
    assert forall f <- more :: ValidField(f);
    var fs := [flag] + NonDefault(more);
    forall i | 0 <= i < |fs|
      ensures ValidField(fs[i])
    {
      if i > 0 {
        assert fs[i] == NonDefault(more)[i - 1];
        assert fs[i] in NonDefault(more);
      }
    }
  }

  lemma ResultFieldsShort(success: bool, gasUsed: nat, address: Option<seq<byte>>)
    requires gasUsed < U64 && IsAddress(address)
    ensures |ResultEvent(success, gasUsed, address).data| <= 156
  {
    var gas := Field(2, Varint(gasUsed));
    ShortField(Field(1, Varint(if success then 1 else 0)));
    ShortField(gas);
    PrintConcat(EngineField, [gas], OptionalField(3, address));
    PrintOne(EngineField, gas);
    if address.Some? {
      ShortField(Field(3, Bytes(address.value)));
      PrintOne(EngineField, Field(3, Bytes(address.value)));
    }
  }

  /** The result event decodes to its three parts, the zero success flag included. */
  lemma ResultTravels(logs: seq<LogRow>, success: bool, gasUsed: nat, address: Option<seq<byte>>)
    requires gasUsed < U64 && IsAddress(address)
    ensures FlatDecode(ResultField, Decoded(true, 0, None, logs), ResultEvent(success, gasUsed, address).data) ==
            Returned(Decoded(success, gasUsed, address, logs))
  {
    ResultFieldsShort(success, gasUsed, address);
    ResultFold(logs, success, gasUsed, address);
    ResultEventBytes(success, gasUsed, address);
    DecodersSeeFields(ResultField, Decoded(true, 0, None, logs),
                      [Field(1, Varint(if success then 1 else 0))] +
                      NonDefault([Field(2, Varint(gasUsed))] + OptionalField(3, address)),
                      ResultEvent(success, gasUsed, address).data);
  }

  function Count(events: seq<Event>, name: string): nat {
    if events == [] then 0 else (if events[0].name == name then 1 else 0) + Count(events[1..], name)
  }

  lemma {:induction false} CountLogs(logs: seq<Log>, last: Event)
    ensures Count(LogEvents(logs) + [last], "evm.result") == if last.name == "evm.result" then 1 else 0
  {
    var events := LogEvents(logs) + [last];
    if logs == [] {
      assert events == [last];
    } else {
      CountLogs(logs[1..], last);
      assert events[1..] == LogEvents(logs[1..]) + [last];
    }
  }

  /** Every outcome emits exactly one `evm.result`, after the logs. */
  lemma OneResultEach(outcome: Outcome)
    ensures Count(EventsOf(outcome), "evm.result") == 1
    ensures EventsOf(outcome)[|EventsOf(outcome)| - 1].name == "evm.result"
  {
    CountLogs(if outcome.Executed? && outcome.result.Success? then outcome.result.logs else [],
              EventsOf(outcome)[|EventsOf(outcome)| - 1]);
    if outcome.Executed? && outcome.result.Success? {
    } else {
      assert EventsOf(outcome)[1..] == [];
    }
  }

  lemma CarriedConcat(p: seq<Event>, q: seq<Event>)
    ensures Carried(p + q) == Carried(p) + Carried(q)
  {
  }

  /** The relay's receipt says exactly what the outcome was, whatever other events stand in between. */
  lemma ReceiptIsOutcome(outcome: Outcome, receipt: seq<ReceiptEvent>)
    requires ValidOutcome(outcome) && EvmEvents(receipt) == Carried(EventsOf(outcome))
    ensures DecodeFrom(UNREPORTED, receipt) == Returned(ReceiptOf(outcome))
    ensures var r, ran := ReceiptOf(outcome), outcome.Executed?;
            && (r.status <==> ran && outcome.result.Success?)
            && r.gasUsed == (if ran then outcome.result.gasUsed else 0)
            && r.contract == (if r.status && outcome.result.output.Create? then outcome.result.output.address else None)
            && |r.logs| == (if r.status then |outcome.result.logs| else 0)
            && forall i :: 0 <= i < |r.logs| ==> r.logs[i] == LogRow(i, outcome.result.logs[i])
  {
    OthersIgnored(Returned(UNREPORTED), receipt);
    var logs := if outcome.Executed? && outcome.result.Success? then outcome.result.logs else [];
    var said := ReceiptOf(outcome);
    var last := ResultEvent(said.status, said.gasUsed, said.contract);
    assert EventsOf(outcome) == LogEvents(logs) + [last];
    CarriedConcat(LogEvents(logs), [last]);
    FoldConcat(DecodeStep, Returned(UNREPORTED), Carried(LogEvents(logs)), Carried([last]));
    LogsTravel(UNREPORTED, logs);
    assert said.logs == Numbered(logs);
    ResultTravels(said.logs, said.status, said.gasUsed, said.contract);
    assert Carried([last]) == [ReceiptEvent("evm.result", Some(last.data))];
    FoldOne(DecodeStep, Returned(Decoded(true, 0, None, said.logs)), ReceiptEvent("evm.result", Some(last.data)));
  }

  const NO_RESULT := EvmResult(false, [], 0, None)

  function ResultFields(r: EvmResult): seq<Field> {
    [Field(1, Varint(if r.success then 1 else 0))] + [Field(2, Bytes(r.output))] + [Field(3, Varint(r.gasUsed))] +
    OptionalField(4, r.contract)
  }

  lemma ResultFieldsFold(r: EvmResult)
    requires IsAddress(r.contract)
    ensures Fold(Skipping(EvmResultField), NO_RESULT, ResultFields(r)) == r
  {
    var step := Skipping(EvmResultField);
    var success, output := Field(1, Varint(if r.success then 1 else 0)), Field(2, Bytes(r.output));
    var gas, address := Field(3, Varint(r.gasUsed)), OptionalField(4, r.contract);
    SkippingOne(EvmResultField, NO_RESULT, success);
    SkippingOne(EvmResultField, EvmResult(r.success, [], 0, None), output);
    SkippingOne(EvmResultField, EvmResult(r.success, r.output, 0, None), gas);
    FoldConcat(step, NO_RESULT, [success] + [output] + [gas], address);
    FoldThree(step, NO_RESULT, success, [output], gas, EvmResult(r.success, [], 0, None),
              EvmResult(r.success, r.output, 0, None)) by {
      FoldOne(step, EvmResult(r.success, [], 0, None), output);
    }
    if r.contract.Some? {
      SkippingOne(EvmResultField, r.(contract := None), address[0]);
      FoldOne(step, r.(contract := None), address[0]);
    }
  }

  lemma ResultReadBack(r: EvmResult)
    requires r.gasUsed < U64 && IsAddress(r.contract)
    requires |EncodeResult(r.success, r.output, r.gasUsed, r.contract)| < U64
    ensures TryDecode(EvmResultField, NO_RESULT, EncodeResult(r.success, r.output, r.gasUsed, r.contract)) ==
            Returned(Some(r))
  {
    ResultFieldsFold(r);
    assert ResultFields(r) == [Field(1, Varint(if r.success then 1 else 0)), Field(2, Bytes(r.output)),
                               Field(3, Varint(r.gasUsed))] + OptionalField(4, r.contract);
    PayloadFits(ResultFields(r), 1);
    EngineFieldsDecode(EvmResultField, NO_RESULT, ResultFields(r));
  }

  /** The response bytes decode to the outcome as well. */
  lemma ResponseIsOutcome(text: Rejection -> seq<byte>, outcome: Outcome)
    requires ValidOutcome(outcome) && |ResponseOf(text, outcome)| < U64
    ensures TryDecode(EvmResultField, NO_RESULT, ResponseOf(text, outcome)) == Returned(Some(ResultOf(text, outcome)))
    ensures var r, ran := ResultOf(text, outcome), outcome.Executed?;
            && (r.success <==> ran && outcome.result.Success?)
            && r.gasUsed == (if ran then outcome.result.gasUsed else 0)
            && r.contract == (if r.success && outcome.result.output.Create? then outcome.result.output.address else None)
            && r.output == match outcome
                           case Rejected(why) => text(why)
                           case Executed(Success(output, _, _)) => output.data
                           case Executed(Revert(reason, _)) => reason
                           case Executed(Halt(_)) => HALTED
  {
    ResultReadBack(ResultOf(text, outcome));
  }
}
