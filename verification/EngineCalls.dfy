/**
The arguments and answers of the engine's entry points, each written by one side and read by the other: call
arguments, account records and the wrapped raw transaction.
*/
module EngineCalls {
  import opened Common
  import opened Proto
  import opened FieldLoops
  import opened Receipts
  import Radix
  import Rlp
  import EngineTx

  // ----- writing

  /** The tag is shifted in 32 bits, so that a field number keeps its low 29 bits. */
  method WriteBytesField(buf: seq<byte>, number: nat, bytes: seq<byte>) returns (out: seq<byte>)
    requires number < U32
    ensures out == buf + RawField(Field(number % 0x2000_0000, Bytes(bytes)))
  {
    var tag := number * 8 % U32 + 2;
    assert tag == number % 0x2000_0000 * 8 + 2;
    out := WriteVarint(buf, tag);
    out := WriteVarint(out, |bytes|);
    out := out + bytes;
  }

  /** The call arguments as the relay is given them. */
  datatype CallViewArgs = CallViewArgs(caller: Option<seq<byte>>, to: Option<seq<byte>>, value: Option<seq<byte>>,
                                       data: seq<byte>, gasLimit: nat)

  function DataField(data: seq<byte>): seq<Field> { OptionalField(4, if data == [] then None else Some(data)) }

  function GasField(gas: nat): seq<Field> { if gas == 0 then [] else [Field(5, Varint(gas))] }

  function CallViewFields(a: CallViewArgs): seq<Field> {
    OptionalField(1, a.caller) + OptionalField(2, a.to) + OptionalField(3, a.value) + DataField(a.data) +
    GasField(a.gasLimit)
  }

  lemma WroteMore(fs: seq<Field>, more: seq<Field>)
    requires |more| <= 1
    ensures RawAll(fs + more) == if more == [] then RawAll(fs) else RawAll(fs) + RawField(more[0])
  {
    if more == [] {
      assert fs + more == fs;
    } else {
      assert more == [more[0]];
      PrintConcat(RawField, fs, more);
      PrintOne(RawField, more[0]);
    }
  }

  method WriteOptional(buf: seq<byte>, number: nat, bytes: Option<seq<byte>>, ghost fs: seq<Field>)
    returns (out: seq<byte>)
    requires number < 0x2000_0000 && buf == RawAll(fs)
    ensures out == RawAll(fs + OptionalField(number, bytes))
  {
    WroteMore(fs, OptionalField(number, bytes));
    out := buf;
    if bytes.Some? {
      out := WriteBytesField(out, number, bytes.value);
    }
  }

  method WriteGas(buf: seq<byte>, gas: nat, ghost fs: seq<Field>) returns (out: seq<byte>)
    requires buf == RawAll(fs)
    ensures out == RawAll(fs + GasField(gas))
  {
    WroteMore(fs, GasField(gas));
    out := buf;
    if gas > 0 {
      out := WriteVarint(out, 5 * 8);
      out := WriteVarint(out, gas);
      assert out == buf + RawField(Field(5, Varint(gas)));
    }
  }

  method BuildCallViewArgs(a: CallViewArgs) returns (out: seq<byte>)
    ensures out == RawAll(CallViewFields(a))
  {
    ghost var fs: seq<Field> := [];
    out := WriteOptional([], 1, a.caller, fs);
    fs := fs + OptionalField(1, a.caller);
    out := WriteOptional(out, 2, a.to, fs);
    fs := fs + OptionalField(2, a.to);
    out := WriteOptional(out, 3, a.value, fs);
    fs := fs + OptionalField(3, a.value);
    out := WriteOptional(out, 4, if a.data == [] then None else Some(a.data), fs);
    fs := fs + DataField(a.data);
    out := WriteGas(out, a.gasLimit, fs);
    assert fs + GasField(a.gasLimit) == CallViewFields(a);
  }

  // ----- reading

  /** The call arguments as the engine runs them. */
  datatype CallArgs = CallArgs(caller: seq<byte>, to: Option<seq<byte>>, value: nat, data: seq<byte>, gasLimit: nat)

  function NoArgs(): CallArgs { CallArgs(seq(20, _ => 0), None, 0, [], 30_000_000) }

  function CallField(acc: CallArgs, f: Field): CallArgs {
    match f
    case Field(1, Bytes(b)) => if |b| >= 20 then acc.(caller := b[..20]) else acc
    case Field(2, Bytes(b)) => if |b| >= 20 then acc.(to := Some(b[..20])) else acc
    case Field(3, Bytes(b)) => if |b| == 32 then acc.(value := Radix.Value(256, b)) else acc
    case Field(4, Bytes(b)) => acc.(data := b)
    case Field(5, Varint(n)) => acc.(gasLimit := n)
    case _ => acc
  }

  method ParseCallArgs(args: seq<byte>) returns (r: CallArgs)
    ensures r == EngineDecode(CallField, NoArgs(), args)
  {
    r := RunEngineLoop(CallField, NoArgs(), args);
  }

  /** What the engine should make of the relay's arguments: absent ones take the engine's defaults. */
  function Meant(a: CallViewArgs): CallArgs {
    CallArgs(if a.caller.Some? then a.caller.value else seq(20, _ => 0), a.to,
             if a.value.Some? then Radix.Value(256, a.value.value) else 0, a.data,
             if a.gasLimit == 0 then 30_000_000 else a.gasLimit)
  }

  function PrefixAt(number: nat, size: nat): Field -> Option<seq<byte>> {
    (f: Field) => if f.number == number && f.value.Bytes? && |f.value.b| >= size then Some(f.value.b[..size]) else None
  }

  function PrefixSome(number: nat, size: nat): Field -> Option<Option<seq<byte>>> {
    (f: Field) => if f.number == number && f.value.Bytes? && |f.value.b| >= size then Some(Some(f.value.b[..size])) else None
  }

  function WordAt(number: nat): Field -> Option<nat> {
    (f: Field) => if f.number == number && f.value.Bytes? && |f.value.b| == 32 then Some(Radix.Value(256, f.value.b)) else None
  }

  /** On any bytes, each argument is what the last field with its number and shape says, or the default. */
  lemma ParsedArgsAre(args: seq<byte>)
    ensures var fs := StrictFields(args);
            EngineDecode(CallField, NoArgs(), args) ==
            CallArgs(LastOf(PrefixAt(1, 20), seq(20, _ => 0), fs), LastOf(PrefixSome(2, 20), None, fs),
                     LastOf(WordAt(3), 0, fs), LastOf(BytesAt(4), [], fs), LastOf(VarintAt(5), 30_000_000, fs))
  {
    var fs := StrictFields(args);
    FoldSets(CallField, (a: CallArgs) => a.caller, PrefixAt(1, 20), NoArgs(), fs);
    FoldSets(CallField, (a: CallArgs) => a.to, PrefixSome(2, 20), NoArgs(), fs);
    FoldSets(CallField, (a: CallArgs) => a.value, WordAt(3), NoArgs(), fs);
    FoldSets(CallField, (a: CallArgs) => a.data, BytesAt(4), NoArgs(), fs);
    FoldSets(CallField, (a: CallArgs) => a.gasLimit, VarintAt(5), NoArgs(), fs);
  }

  lemma FoldOptional<A>(step: (A, Field) -> A, acc: A, fs: seq<Field>, more: seq<Field>, was: A)
    requires Fold(step, acc, fs) == was && |more| <= 1
    ensures Fold(step, acc, fs + more) == if more == [] then was else step(was, more[0])
  {
    FoldConcat(step, acc, fs, more);
    if more != [] {
      assert more == [more[0]];
      FoldOne(step, was, more[0]);
    }
  }

  predicate ValidArgs(a: CallViewArgs) {
    && IsAddress(a.caller) && IsAddress(a.to) && (a.value.Some? ==> |a.value.value| == 32)
    && |a.data| < U64 && a.gasLimit < U64 && |RawAll(CallViewFields(a))| < U64
  }

  lemma CallFieldsFold(a: CallViewArgs)
    requires ValidArgs(a)
    ensures Fold(CallField, NoArgs(), CallViewFields(a)) == Meant(a)
  {
    var m := Meant(a);
    var fs := OptionalField(1, a.caller);
    var s := NoArgs();
    assert [] + fs == fs;
    FoldOptional(CallField, s, [], fs, s);
    assert a.caller.Some? ==> a.caller.value[..20] == a.caller.value;
    var s1 := s.(caller := m.caller);
    FoldOptional(CallField, s, fs, OptionalField(2, a.to), s1);
    assert a.to.Some? ==> a.to.value[..20] == a.to.value;
    var s2 := s1.(to := a.to);
    fs := fs + OptionalField(2, a.to);
    FoldOptional(CallField, s, fs, OptionalField(3, a.value), s2);
    var s3 := s2.(value := m.value);
    fs := fs + OptionalField(3, a.value);
    FoldOptional(CallField, s, fs, DataField(a.data), s3);
    var s4 := s3.(data := a.data);
    fs := fs + DataField(a.data);
    FoldOptional(CallField, s, fs, GasField(a.gasLimit), s4);
  }

  /** The engine parses what the relay built to what was meant. */
  lemma CallArgsTravel(a: CallViewArgs)
    requires ValidArgs(a)
    ensures EngineDecode(CallField, NoArgs(), RawAll(CallViewFields(a))) == Meant(a)
  {
    CallFieldsFold(a);
    DecodersSeeFields(CallField, NoArgs(), CallViewFields(a), RawAll(CallViewFields(a)));
  }

  // ----- accounts

  datatype Account = Account(nonce: nat, balance: seq<byte>, codeHash: seq<byte>)

  function AccountFields(a: Account): seq<Field> {
    [Field(1, Varint(a.nonce)), Field(2, Bytes(a.balance)), Field(3, Bytes(a.codeHash))]
  }

  /** The engine's answer: nothing for an absent account. */
  method EncodeAccount(a: Option<Account>) returns (out: seq<byte>)
    ensures out == if a.None? then [] else EngineAll(AccountFields(a.value))
  {
    out := [];
    if a.Some? {
      out := PushFields(out, AccountFields(a.value));
    }
  }

  function AccountField(acc: Account, f: Field): Account {
    match f
    case Field(1, Varint(n)) => acc.(nonce := n)
    case Field(2, Bytes(b)) => if |b| == 32 then acc.(balance := b) else acc
    case Field(3, Bytes(b)) => if |b| == 32 then acc.(codeHash := b) else acc
    case _ => acc
  }

  function ZeroAccount(): Account { Account(0, seq(32, _ => 0), seq(32, _ => 0)) }

  /** Fails on a malformed field, and otherwise yields no account for empty bytes. */
  function DecodedAccount(bytes: seq<byte>): Call<Option<Option<Account>>> {
    if bytes == [] then Returned(Some(None))
    else
      match TryDecode(AccountField, ZeroAccount(), bytes)
      case Returned(a) => Returned(if a.None? then None else Some(a))
      case Panicked => Panicked
  }

  /**
  On any bytes: nothing from empty ones; an error at a malformed field, unless one overruns before it; and otherwise
  each part is what the last field with its number and size says, or zero.
  */
  lemma DecodedAccountIs(bytes: seq<byte>)
    requires bytes != []
    ensures var fs := Fields(LaxItems(bytes));
            DecodedAccount(bytes) ==
            match FirstStop(LaxItems(bytes))
            case Some(Overrun) => Panicked
            case Some(_) => Returned(None)
            case None =>
              Returned(Some(Some(Account(LastOf(VarintAt(1), 0, fs), LastOf(SizedAt(2, 32), seq(32, _ => 0), fs),
                                         LastOf(SizedAt(3, 32), seq(32, _ => 0), fs)))))
  {
    var fs := Fields(LaxItems(bytes));
    TryEndsBy(AccountField, ZeroAccount(), LaxItems(bytes));
    FoldSets(AccountField, (a: Account) => a.nonce, VarintAt(1), ZeroAccount(), fs);
    FoldSets(AccountField, (a: Account) => a.balance, SizedAt(2, 32), ZeroAccount(), fs);
    FoldSets(AccountField, (a: Account) => a.codeHash, SizedAt(3, 32), ZeroAccount(), fs);
  }

  method DecodeAccount(checked: bool, bytes: seq<byte>) returns (r: Call<Option<Option<Account>>>)
    requires |bytes| < U64
    ensures r == DecodedAccount(bytes)
    ensures r.Panicked? <==> FirstStop(LaxItems(bytes)) == Some(Overrun)
  {
    if bytes == [] {
      return Returned(Some(None));
    }
    var a := RunTryLoop(checked, AccountField, ZeroAccount(), bytes);
    if a.Panicked? {
      return Panicked;
    }
    return Returned(if a.value.None? then None else Some(a.value));
  }

  lemma AccountFold(a: Account)
    requires |a.balance| == 32 && |a.codeHash| == 32
    ensures Fold(Skipping(AccountField), ZeroAccount(), AccountFields(a)) == a
  {
    var z, fs := ZeroAccount(), AccountFields(a);
    var accs := [z, z.(nonce := a.nonce), a.(codeHash := z.codeHash), a];
    SkippingOne(AccountField, accs[0], fs[0]);
    SkippingOne(AccountField, accs[1], fs[1]);
    SkippingOne(AccountField, accs[2], fs[2]);
    FoldChain(Skipping(AccountField), accs, fs, 3);
    assert fs[..3] == fs;
  }

  lemma AccountShort(a: Account)
    requires a.nonce < U64 && |a.balance| == 32 && |a.codeHash| == 32
    ensures 0 < |EngineAll(AccountFields(a))| <= 156
  {
    var nonce, balance, code := Field(1, Varint(a.nonce)), Field(2, Bytes(a.balance)), Field(3, Bytes(a.codeHash));
    ShortField(nonce);
    ShortField(balance);
    ShortField(code);
    RawNotEmpty(code);
    assert AccountFields(a) == [nonce] + [balance] + [code];
    PrintConcat(EngineField, [nonce] + [balance], [code]);
    PrintConcat(EngineField, [nonce], [balance]);
    PrintOne(EngineField, nonce);
    PrintOne(EngineField, balance);
    PrintOne(EngineField, code);
  }

  /** An account travels whole, and an absent one stays absent. */
  lemma AccountTravels(a: Account)
    requires a.nonce < U64 && |a.balance| == 32 && |a.codeHash| == 32
    ensures DecodedAccount(EngineAll(AccountFields(a))) == Returned(Some(Some(a)))
    ensures DecodedAccount([]) == Returned(Some(None))
  {
    AccountShort(a);
    AccountFold(a);
    EngineFieldsDecode(AccountField, ZeroAccount(), AccountFields(a));
  }

  // ----- the wrapped raw transaction

  /** The relay's arguments for a submission. */
  function SubmitArgs(raw: seq<byte>): seq<byte> { RawField(Field(1, Bytes(raw))) }

  predicate IsRawTx(f: Field) { f.number == 1 && f.value.Bytes? }

  /** The indexer takes the first well-formed `raw_tx` field it finds. */
  function FirstRawTx(items: seq<Item>): Call<Option<seq<byte>>> {
    if items == [] then Returned(None)
    else if items[0].Overrun? then Panicked
    else if items[0].Yield? && IsRawTx(items[0].field) then Returned(Some(items[0].field.value.b))
    else FirstRawTx(items[1..])
  }

  /** Engine and indexer unwrap the very bytes the relay submitted. */
  lemma RawTxTravels(raw: seq<byte>)
    requires |SubmitArgs(raw)| < U64
    ensures RawTxOf(SubmitArgs(raw)) == raw
    ensures FirstRawTx(LaxItems(SubmitArgs(raw))) == Returned(Some(raw))
  {
    var f := Field(1, Bytes(raw));
    PrintOne(RawField, f);
    DecodersSeeFields(RawTxField, [], [f], SubmitArgs(raw));
    FoldOne(RawTxField, [], f);
    FieldsOfRaw([f]);
  }

  // ----- arguments that anybody built

  function RawTxs(fs: seq<Field>): seq<seq<byte>> {
    if fs == [] then [] else (if IsRawTx(fs[0]) then [fs[0].value.b] else []) + RawTxs(fs[1..])
  }

  /** The raw transaction that the engine takes from its arguments, if they have one. */
  function EngineRawTx(args: seq<byte>): Option<seq<byte>> {
    if RawTxs(StrictFields(args)) == [] then None else Some(RawTxOf(args))
  }

  lemma {:induction false} LastRawTx(acc: seq<byte>, fs: seq<Field>)
    ensures Fold(RawTxField, acc, fs) == if RawTxs(fs) == [] then acc else RawTxs(fs)[|RawTxs(fs)| - 1]
    decreases |fs|
  {
    if fs != [] {
      LastRawTx(RawTxField(acc, fs[0]), fs[1..]);
    }
  }

  lemma YieldsCons(f: Field, fs: seq<Field>, tail: seq<Item>)
    ensures Yields([f] + fs) + tail == [Yield(f)] + (Yields(fs) + tail)
  {
  }

  /** Where `strict` finds a field, so does `lax`, and moves as far. */
  ghost predicate SameField(strict: seq<byte> -> Option<(Field, nat)>, lax: (nat, seq<byte>) -> (Item, nat), p: nat,
                            d: seq<byte>) {
    d != [] && p + |d| < U64 && strict(d).Some? ==>
      0 < strict(d).value.1 <= |d| && lax(p, d) == (Yield(strict(d).value.0), strict(d).value.1)
  }

  /** The relay's items start with the engine's fields. */
  lemma {:induction false} EngineFieldsFirst(strict: seq<byte> -> Option<(Field, nat)>,
                                             lax: (nat, seq<byte>) -> (Item, nat), pos: nat, data: seq<byte>)
    returns (tail: seq<Item>)
    requires pos + |data| < U64
    requires forall p: nat, d: seq<byte> :: SameField(strict, lax, p, d)
    ensures LaxItemsBy(lax, pos, data) == Yields(FieldsBy(strict, data)) + tail
    decreases |data|
  {
    if data == [] || strict(data).None? {
      tail := LaxItemsBy(lax, pos, data);
    } else {
      var (f, used) := strict(data).value;
      assert SameField(strict, lax, pos, data);
      var rest := data[used..];
      tail := EngineFieldsFirst(strict, lax, pos + used, rest);
      LaxItemsStep(lax, pos, data);
      StrictFieldsStep(strict, data);
      YieldsCons(f, FieldsBy(strict, rest), tail);
    }
  }

  lemma {:induction false} FirstOfYields(fs: seq<Field>, tail: seq<Item>)
    ensures FirstRawTx(Yields(fs) + tail) == if RawTxs(fs) == [] then FirstRawTx(tail) else Returned(Some(RawTxs(fs)[0]))
  {
    if fs == [] {
      assert Yields(fs) + tail == tail;
    } else {
      FirstOfYields(fs[1..], tail);
      assert (Yields(fs) + tail)[1..] == Yields(fs[1..]) + tail;
    }
  }

  lemma {:induction false} NoRawTx(items: seq<Item>)
    ensures FirstRawTx(items) == Returned(None) <==> forall x <- items :: !x.Overrun? && !(x.Yield? && IsRawTx(x.field))
  {
    if items != [] {
      NoRawTx(items[1..]);
      assert items == [items[0]] + items[1..];
    }
  }

  /**
  On any arguments at all the indexer records the raw transaction that the engine ran exactly when the first and the
  last that the engine sees are the same, or neither side finds one and nothing overruns.
  */
  lemma SameRawTxExactlyWhen(args: seq<byte>)
    requires |args| < U64
    ensures var raws := RawTxs(StrictFields(args));
            FirstRawTx(LaxItems(args)) == Returned(EngineRawTx(args)) <==>
            if raws != [] then raws[0] == raws[|raws| - 1]
            else forall x <- LaxItems(args) :: !x.Overrun? && !(x.Yield? && IsRawTx(x.field))
  {
    var fs := StrictFields(args);
    LastRawTx([], fs);
    forall p: nat, d: seq<byte>
      ensures SameField(StrictNext, LaxItem, p, d)
    {
      if d != [] && p + |d| < U64 && StrictNext(d).Some? {
        EngineFieldReadsInRelay(p, d);
        LaxItemMoves(p, d);
      }
    }
    var tail := EngineFieldsFirst(StrictNext, LaxItem, 0, args);
    FirstOfYields(fs, tail);
    NoRawTx(LaxItems(args));
  }

  /** With two different ones the engine runs the second and the indexer records the first. */
  lemma TwoRawTxs(a: seq<byte>, b: seq<byte>)
    requires var fs := [Field(1, Bytes(a)), Field(1, Bytes(b))]; |RawAll(fs)| < U64 && AllValid(fs)
    ensures var args := RawAll([Field(1, Bytes(a)), Field(1, Bytes(b))]);
            RawTxOf(args) == b && FirstRawTx(LaxItems(args)) == Returned(Some(a))
  {
    var fs := [Field(1, Bytes(a)), Field(1, Bytes(b))];
    FieldsOfRaw(fs);
    assert fs[1..] == [Field(1, Bytes(b))] && fs[1..][1..] == [];
    assert RawTxs([]) == [] && RawTxs(fs[1..]) == [b] + [];
    assert RawTxs(fs) == [a] + RawTxs(fs[1..]);
    LastRawTx([], fs);
    FirstOfYields(fs, []);
    assert Yields(fs) + [] == Yields(fs);
  }

  /** The account nonce that the engine demands of a sender. */
  function NextNonce(host: Host, sender: seq<byte>): Option<nat> {
    match host.basic(sender)
    case Err(_) => None
    case Ok(info) => Some(if info.Some? then info.value else 0)
  }

  /** Only the canonical encoding of a transaction for this chain, at its sender's next nonce, is ever executed. */
  lemma OnlyCanonicalExecutes(host: Host, args: seq<byte>) returns (tx: EngineTx.ParsedTx)
    requires Decide(host, args).Executed?
    ensures RawTxOf(args) == EngineTx.EncodeTx(tx) && tx.chainId == ENGINE_CHAIN_ID
    ensures NextNonce(host, tx.sender) == Some(tx.nonce) && host.execute(tx) == Result.Ok(Decide(host, args).result)
  {
    tx := EngineTx.ParseRawTx(RawTxOf(args), host.recover).value;
    EngineTx.AcceptedIsCanonical(RawTxOf(args), host.recover);
  }

  /** And every such transaction is, once the relay submits it. */
  lemma CanonicalExecutes(host: Host, tx: EngineTx.ParsedTx)
    requires EngineTx.WellFormed(tx) && |SubmitArgs(EngineTx.EncodeTx(tx))| < U64
    requires host.recover(EngineTx.Signed(EngineTx.CanonicalEncoders(), tx), tx.r, tx.s, tx.yParity) == Some(tx.sender)
    requires tx.chainId == ENGINE_CHAIN_ID && NextNonce(host, tx.sender) == Some(tx.nonce)
    requires host.execute(tx).Ok?
    ensures Decide(host, SubmitArgs(EngineTx.EncodeTx(tx))) == Executed(host.execute(tx).value)
  {
    EngineTx.ListInEncoding(EngineTx.CanonicalEncoders(), tx);
    EngineTx.CanonicalIsAccepted(tx, host.recover);
    RawTxTravels(EngineTx.EncodeTx(tx));
  }
}
