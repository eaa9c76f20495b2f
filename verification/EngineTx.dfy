/**
The engine's raw-transaction parser: EIP-155 legacy and EIP-1559 envelopes, canonical RLP only, EIP-2 low-s
signatures. Hashing and public-key recovery are one function parameter, from a signing preimage and a signature to
the sender.
*/
module EngineTx {
  import opened Common
  import opened Radix
  import opened Rlp

  datatype TxParseError =
    | Empty
    | RlpDecode
    | UnsupportedType(lead: byte)
    | WrongFieldCount
    | InvalidSignature
    | AddressLength
    | ScalarTooLarge
    | NonCanonicalInteger
    | TrailingBytes
    | Pre155Rejected
    | AccessListUnsupported
    | InvalidFeeOrdering
    | RecoveryFailure

  datatype Kind = Eip155 | Eip1559

  datatype ParsedTx = ParsedTx(kind: Kind, chainId: nat, nonce: nat, gasLimit: nat, maxFee: nat, maxPriority: nat,
                               to: Option<seq<byte>>, value: nat, data: seq<byte>, r: nat, s: nat, yParity: nat,
                               sender: seq<byte>)

  type Recover = (seq<byte>, nat, nat, nat) -> Option<seq<byte>>

  // ----- item decoders

  function DecodeBytes(item: seq<byte>): Result<seq<byte>, TxParseError> {
    var h := StrictHeader(item);
    if h.None? || h.value.list then Err(RlpDecode) else Ok(item[h.value.start..h.value.start + h.value.len])
  }

  function DecodeUint(item: seq<byte>, maxLen: nat): Result<nat, TxParseError> {
    var bytes :- DecodeBytes(item);
    if bytes != [] && bytes[0] == 0 then Err(NonCanonicalInteger)
    else if |bytes| > maxLen then Err(ScalarTooLarge)
    else Ok(Value(256, bytes))
  }

  function DecodeTo(item: seq<byte>): Result<Option<seq<byte>>, TxParseError> {
    var bytes :- DecodeBytes(item);
    if bytes == [] then Ok(None) else if |bytes| == 20 then Ok(Some(bytes)) else Err(AddressLength)
  }

  /** The scalar decoders as the source runs them, accumulating eight bits at a time. */
  method DecodeScalar(item: seq<byte>, maxLen: nat) returns (r: Result<nat, TxParseError>)
    ensures r == DecodeUint(item, maxLen)
  {
    var bytes :- DecodeBytes(item);
    if bytes != [] && bytes[0] == 0 {
      return Err(NonCanonicalInteger);
    }
    if |bytes| > maxLen {
      return Err(ScalarTooLarge);
    }
    var out: nat := 0;
    for i := 0 to |bytes|
      invariant out == Value(256, bytes[..i])
    {
      assert bytes[..i + 1][..i] == bytes[..i];
      out := out * 256 + bytes[i];
    }
    assert bytes[..|bytes|] == bytes;
    return Ok(out);
  }

  /** The items of a buffer whose header is `h`, when it holds one list and nothing else. */
  function ItemsUnder(h: Option<Header>, first: seq<byte> -> Option<nat>, buf: seq<byte>): Result<Items, TxParseError> {
    if h.None? || h.value.start + h.value.len > |buf| then Err(RlpDecode)
    else
      var end := h.value.start + h.value.len;
      var items := Split(first, buf[h.value.start..end]);
      if h.value.list && items.None? then Err(RlpDecode)
      else if end != |buf| then Err(TrailingBytes)
      else if !h.value.list then Err(RlpDecode)
      else Ok(items.value)
  }

  function ListItems(buf: seq<byte>): Result<Items, TxParseError> {
    ItemsUnder(StrictHeader(buf), StrictLength, buf)
  }

  lemma ItemsUnderOk(h: Header, first: seq<byte> -> Option<nat>, buf: seq<byte>)
    requires h.start <= |buf|
    ensures ItemsUnder(Some(h), first, buf).Ok? <==>
              h.list && h.start + h.len == |buf| && Split(first, buf[h.start..]).Some?
    ensures ItemsUnder(Some(h), first, buf).Ok? ==>
              Split(first, buf[h.start..]) == Some(ItemsUnder(Some(h), first, buf).value)
  {
    if h.start + h.len == |buf| {
      assert buf[h.start..h.start + h.len] == buf[h.start..];
    }
  }

  function ListWithTail(items: Items, tail: seq<byte>): seq<byte> {
    LengthPrefix(0xc0, 0xf7, |Concat(items)| + |tail|) + Concat(items) + tail
  }

  lemma {:induction false} ConcatAppend(items: Items, item: seq<byte>)
    ensures Concat(items + [item]) == Concat(items) + item
  {
    if items == [] {
      assert Concat([item]) == item + Concat([]);
    } else {
      assert (items + [item])[1..] == items[1..] + [item];
      ConcatAppend(items[1..], item);
    }
  }

  lemma ListAsTail(items: Items, front: Items, tail: seq<byte>)
    requires Concat(items) == Concat(front) + tail
    ensures WrapList(items) == ListWithTail(front, tail)
  {
    assert |Concat(items)| == |Concat(front)| + |tail|;
    var p := LengthPrefix(0xc0, 0xf7, |Concat(items)|);
    assert p + (Concat(front) + tail) == p + Concat(front) + tail;
  }

  /** The list builders: sum the lengths, write the header, append the slices. */
  method BuildListWithTail(items: Items, tail: seq<byte>) returns (out: seq<byte>)
    ensures out == ListWithTail(items, tail)
  {
    var payloadLen := |tail|;
    for i := 0 to |items|
      invariant payloadLen == |Concat(items[..i])| + |tail|
    {
      ConcatAppend(items[..i], items[i]);
      assert items[..i + 1] == items[..i] + [items[i]];
      payloadLen := payloadLen + |items[i]|;
    }
    assert items[..|items|] == items;
    var header := LengthPrefix(0xc0, 0xf7, payloadLen);
    out := header;
    for i := 0 to |items|
      invariant out == header + Concat(items[..i])
    {
      ConcatAppend(items[..i], items[i]);
      assert items[..i + 1] == items[..i] + [items[i]];
      out := out + items[i];
    }
    out := out + tail;
  }

  // ----- signatures

  const N: nat := 0xFFFFFFFFFFFFFFFFFFFFFFFFFFFFFFFEBAAEDCE6AF48A03BBFD25E8CD0364141
  const N_HALF: nat := 0x7FFFFFFFFFFFFFFFFFFFFFFFFFFFFFFF5D576E7357A4501DDFE92F46681B20A0

  predicate ValidSignature(r: nat, s: nat, yParity: nat) {
    r != 0 && s != 0 && r < N && s < N && s <= N_HALF && yParity <= 1
  }

  /** Of a signature and its mirror image exactly one passes. */
  lemma ExactlyOneMirror(r: nat, s: nat, yParity: nat)
    requires 0 < r < N && 0 < s < N && yParity <= 1
    ensures ValidSignature(r, s, yParity) <==> !ValidSignature(r, N - s, 1 - yParity)
  {
    assert N == 2 * N_HALF + 1;
  }

  // ----- the parser

  /** What EIP-155 signs after the first six items: the chain id and two zeros. */
  function ReplayTail(chainId: nat): seq<byte> {
    EncodeUint(chainId) + EncodeUint(0) + EncodeUint(0)
  }

  function LegacyPreimage(items: Items, tail: seq<byte>): seq<byte>
    requires |items| >= 6
  {
    ListWithTail(items[..6], tail)
  }

  function Eip1559Preimage(items: Items): seq<byte>
    requires |items| >= 9
  {
    [0x02] + WrapList(items[..9])
  }

  /** The access list must decode as an empty list. */
  function CheckAccessList(item: seq<byte>): Result<(), TxParseError> {
    var h := StrictHeader(item);
    if h.None? then Err(RlpDecode)
    else if !h.value.list then Err(AccessListUnsupported)
    else
      var items := Split(StrictLength, item[h.value.start..h.value.start + h.value.len]);
      if items.None? then Err(RlpDecode)
      else if items.value != [] then Err(AccessListUnsupported) else Ok(())
  }

  /** How items are decoded, and the replay tail; the field layouts below do not depend on it. */
  datatype Decoders = Decoders(uint: (seq<byte>, nat) -> Result<nat, TxParseError>,
                               bytes: seq<byte> -> Result<seq<byte>, TxParseError>,
                               to: seq<byte> -> Result<Option<seq<byte>>, TxParseError>,
                               accessList: seq<byte> -> Result<(), TxParseError>,
                               tail: nat -> seq<byte>)

  function Strict(): Decoders { Decoders(DecodeUint, DecodeBytes, DecodeTo, CheckAccessList, ReplayTail) }

  /** The fields of a legacy transaction, with every check made on them; the sender is filled in later. */
  function LegacyFields(d: Decoders, items: Items): Result<ParsedTx, TxParseError> {
    if |items| != 9 then Err(WrongFieldCount)
    else
      var nonce :- d.uint(items[0], 8);
      var gasPrice :- d.uint(items[1], 16);
      var gasLimit :- d.uint(items[2], 8);
      var to :- d.to(items[3]);
      var value :- d.uint(items[4], 32);
      var data :- d.bytes(items[5]);
      var v :- d.uint(items[6], 8);
      var r :- d.uint(items[7], 32);
      var s :- d.uint(items[8], 32);
      if v == 27 || v == 28 then Err(Pre155Rejected)
      else if v < 35 || !ValidSignature(r, s, (v - 35) % 2) then Err(InvalidSignature)
      else Ok(ParsedTx(Eip155, (v - 35) / 2, nonce, gasLimit, gasPrice, gasPrice, to, value, data, r, s,
                       (v - 35) % 2, []))
  }

  function WithSender(tx: ParsedTx, preimage: seq<byte>, recover: Recover): Result<ParsedTx, TxParseError> {
    var sender := recover(preimage, tx.r, tx.s, tx.yParity);
    if sender.None? then Err(RecoveryFailure) else Ok(tx.(sender := sender.value))
  }

  function ParseLegacy(d: Decoders, raw: seq<byte>, recover: Recover): Result<ParsedTx, TxParseError> {
    var items :- ListItems(raw);
    var tx :- LegacyFields(d, items);
    WithSender(tx, LegacyPreimage(items, d.tail(tx.chainId)), recover)
  }

  function Eip1559Fields(d: Decoders, items: Items): Result<ParsedTx, TxParseError> {
    if |items| != 12 then Err(WrongFieldCount)
    else
      var chainId :- d.uint(items[0], 8);
      var nonce :- d.uint(items[1], 8);
      var maxPriority :- d.uint(items[2], 16);
      var maxFee :- d.uint(items[3], 16);
      if maxPriority > maxFee then Err(InvalidFeeOrdering)
      else
        var gasLimit :- d.uint(items[4], 8);
        var to :- d.to(items[5]);
        var value :- d.uint(items[6], 32);
        var data :- d.bytes(items[7]);
        var _ :- d.accessList(items[8]);
        var yParity :- d.uint(items[9], 8);
        var r :- d.uint(items[10], 32);
        var s :- d.uint(items[11], 32);
        if yParity > 1 || !ValidSignature(r, s, yParity) then Err(InvalidSignature)
        else Ok(ParsedTx(Eip1559, chainId, nonce, gasLimit, maxFee, maxPriority, to, value, data, r, s, yParity, []))
  }

  function ParseEip1559(d: Decoders, payload: seq<byte>, recover: Recover): Result<ParsedTx, TxParseError> {
    var items :- ListItems(payload);
    var tx :- Eip1559Fields(d, items);
    WithSender(tx, Eip1559Preimage(items), recover)
  }

  function ParseEnvelope(d: Decoders, raw: seq<byte>, recover: Recover): Result<ParsedTx, TxParseError> {
    if raw == [] then Err(Empty)
    else if raw[0] >= 0xc0 then ParseLegacy(d, raw, recover)
    else if raw[0] == 0x02 then ParseEip1559(d, raw[1..], recover)
    else Err(UnsupportedType(raw[0]))
  }

  function ParseRawTx(raw: seq<byte>, recover: Recover): Result<ParsedTx, TxParseError> {
    ParseEnvelope(Strict(), raw, recover)
  }

  // ----- the canonical encoding of a transaction

  function EncodeTo(to: Option<seq<byte>>): seq<byte> {
    EncodeBytes(if to.Some? then to.value else [])
  }

  datatype Encoders = Encoders(uint: nat -> seq<byte>, bytes: seq<byte> -> seq<byte>, to: Option<seq<byte>> -> seq<byte>)

  function CanonicalEncoders(): Encoders { Encoders(EncodeUint, EncodeBytes, EncodeTo) }

  function TxItems(e: Encoders, tx: ParsedTx): Items {
    match tx.kind
    case Eip155 =>
      [e.uint(tx.nonce), e.uint(tx.maxFee), e.uint(tx.gasLimit), e.to(tx.to), e.uint(tx.value), e.bytes(tx.data),
       e.uint(tx.chainId * 2 + 35 + tx.yParity), e.uint(tx.r), e.uint(tx.s)]
    case Eip1559 =>
      [e.uint(tx.chainId), e.uint(tx.nonce), e.uint(tx.maxPriority), e.uint(tx.maxFee), e.uint(tx.gasLimit),
       e.to(tx.to), e.uint(tx.value), e.bytes(tx.data), [0xc0], e.uint(tx.yParity), e.uint(tx.r), e.uint(tx.s)]
  }

  function EncodeWith(e: Encoders, tx: ParsedTx): seq<byte> {
    (if tx.kind.Eip155? then [] else [0x02]) + WrapList(TxItems(e, tx))
  }

  function EncodeTx(tx: ParsedTx): seq<byte> { EncodeWith(CanonicalEncoders(), tx) }

  // ----- what the parser accepts is canonical

  lemma BytesItem(item: seq<byte>)
    requires StrictLength(item) == Some(|item|) && DecodeBytes(item).Ok?
    ensures item == EncodeBytes(DecodeBytes(item).value)
  {
    StrictIsCanonical(item, StrictHeader(item).value);
    assert item[StrictHeader(item).value.start..|item|] == item[StrictHeader(item).value.start..];
  }

  lemma UintItem(item: seq<byte>, maxLen: nat)
    requires StrictLength(item) == Some(|item|) && DecodeUint(item, maxLen).Ok?
    ensures item == EncodeUint(DecodeUint(item, maxLen).value)
  {
    BytesItem(item);
    DigitsOfValue(256, DecodeBytes(item).value);
  }

  lemma ToItem(item: seq<byte>)
    requires StrictLength(item) == Some(|item|) && DecodeTo(item).Ok?
    ensures item == EncodeTo(DecodeTo(item).value)
  {
    BytesItem(item);
  }

  lemma AccessListItem(item: seq<byte>)
    requires StrictLength(item) == Some(|item|) && CheckAccessList(item).Ok?
    ensures item == [0xc0]
  {
    var h := StrictHeader(item).value;
    StrictIsCanonical(item, h);
    ItemsTile(StrictLength, item[h.start..h.start + h.len]);
  }

  lemma ListIsWrapped(buf: seq<byte>)
    requires ListItems(buf).Ok?
    ensures buf == WrapList(ListItems(buf).value)
  {
    var h := StrictHeader(buf).value;
    ItemsUnderOk(h, StrictLength, buf);
    StrictIsCanonical(buf, h);
    ItemsTile(StrictLength, buf[h.start..]);
    WrapListParts(ListItems(buf).value, buf[h.start..], h.len);
  }

  lemma WrapListParts(items: Items, payload: seq<byte>, n: nat)
    requires Concat(items) == payload && |payload| == n
    ensures WrapList(items) == LengthPrefix(0xc0, 0xf7, n) + payload
  {
  }

  /** Every item of an accepted list is one strict item. */
  ghost predicate AllStrict(items: Items) {
    forall i :: 0 <= i < |items| ==> StrictLength(items[i]) == Some(|items[i]|)
  }

  lemma ListItemsStrict(buf: seq<byte>)
    requires ListItems(buf).Ok?
    ensures AllStrict(ListItems(buf).value)
  {
    var h, items := StrictHeader(buf).value, ListItems(buf).value;
    ItemsUnderOk(h, StrictLength, buf);
    forall i | 0 <= i < |items|
      ensures StrictLength(items[i]) == Some(|items[i]|)
    {
      StrictItemsDelimited(buf[h.start..], i);
    }
  }

  /** What a decoder accepts of an item, the encoder writes back as that item. */
  ghost predicate WrittenBack(d: Decoders, e: Encoders, item: seq<byte>) {
    && (forall k :: d.uint(item, k).Ok? ==> item == e.uint(d.uint(item, k).value))
    && (d.bytes(item).Ok? ==> item == e.bytes(d.bytes(item).value))
    && (d.to(item).Ok? ==> item == e.to(d.to(item).value))
    && (d.accessList(item).Ok? ==> item == [0xc0])
  }

  lemma StrictWrittenBack(item: seq<byte>)
    requires StrictLength(item) == Some(|item|)
    ensures WrittenBack(Strict(), CanonicalEncoders(), item)
  {
    forall k | DecodeUint(item, k).Ok?
      ensures item == EncodeUint(DecodeUint(item, k).value)
    {
      UintItem(item, k);
    }
    if DecodeBytes(item).Ok? {
      BytesItem(item);
    }
    if DecodeTo(item).Ok? {
      ToItem(item);
    }
    if CheckAccessList(item).Ok? {
      AccessListItem(item);
    }
  }

  lemma LegacyItemsCanonical(d: Decoders, e: Encoders, items: Items)
    requires LegacyFields(d, items).Ok? && AllWrittenBack(d, e, items)
    ensures items == TxItems(e, LegacyFields(d, items).value)
  {
  }

  lemma Eip1559ItemsCanonical(d: Decoders, e: Encoders, items: Items)
    requires Eip1559Fields(d, items).Ok? && AllWrittenBack(d, e, items)
    ensures items == TxItems(e, Eip1559Fields(d, items).value)
  {
  }

  /** The sender is recovered, not encoded. */
  lemma SenderNotEncoded(e: Encoders, tx: ParsedTx, sender: seq<byte>)
    ensures EncodeWith(e, tx.(sender := sender)) == EncodeWith(e, tx)
  {
  }

  ghost predicate AllWrittenBack(d: Decoders, e: Encoders, items: Items) {
    forall i :: 0 <= i < |items| ==> WrittenBack(d, e, items[i])
  }

  lemma SenderAdded(tx: ParsedTx, e: Encoders, preimage: seq<byte>, recover: Recover)
    requires WithSender(tx, preimage, recover).Ok?
    ensures TxItems(e, WithSender(tx, preimage, recover).value) == TxItems(e, tx)
    ensures WithSender(tx, preimage, recover).value.kind == tx.kind
  {
  }

  lemma LegacyIsCanonical(d: Decoders, e: Encoders, raw: seq<byte>, recover: Recover)
    requires ParseLegacy(d, raw, recover).Ok? && AllWrittenBack(d, e, ListItems(raw).value)
    ensures raw == WrapList(TxItems(e, ParseLegacy(d, raw, recover).value))
    ensures ParseLegacy(d, raw, recover).value.kind.Eip155?
  {
    var items := ListItems(raw).value;
    var tx := LegacyFields(d, items).value;
    SenderAdded(tx, e, LegacyPreimage(items, d.tail(tx.chainId)), recover);
    ListIsWrapped(raw);
    LegacyItemsCanonical(d, e, items);
  }

  lemma Eip1559IsCanonical(d: Decoders, e: Encoders, payload: seq<byte>, recover: Recover)
    requires ParseEip1559(d, payload, recover).Ok? && AllWrittenBack(d, e, ListItems(payload).value)
    ensures payload == WrapList(TxItems(e, ParseEip1559(d, payload, recover).value))
    ensures ParseEip1559(d, payload, recover).value.kind.Eip1559?
  {
    ListIsWrapped(payload);
    Eip1559ItemsCanonical(d, e, ListItems(payload).value);
  }

  lemma StrictListWrittenBack(buf: seq<byte>)
    requires ListItems(buf).Ok?
    ensures AllWrittenBack(Strict(), CanonicalEncoders(), ListItems(buf).value)
  {
    ListItemsStrict(buf);
    forall i | 0 <= i < |ListItems(buf).value|
      ensures WrittenBack(Strict(), CanonicalEncoders(), ListItems(buf).value[i])
    {
      StrictWrittenBack(ListItems(buf).value[i]);
    }
  }

  /** The list a raw transaction consists of, after the type byte of an EIP-1559 envelope. */
  function Body(raw: seq<byte>): seq<byte>
    requires raw != []
  {
    if raw[0] >= 0xc0 then raw else raw[1..]
  }

  lemma EnvelopeIsCanonical(d: Decoders, e: Encoders, raw: seq<byte>, recover: Recover)
    requires ParseEnvelope(d, raw, recover).Ok? && AllWrittenBack(d, e, ListItems(Body(raw)).value)
    ensures raw == EncodeWith(e, ParseEnvelope(d, raw, recover).value)
  {
    if raw[0] >= 0xc0 {
      LegacyIsCanonical(d, e, raw, recover);
    } else {
      Eip1559IsCanonical(d, e, raw[1..], recover);
      assert raw == [0x02] + raw[1..];
    }
  }

  lemma EnvelopeHasList(d: Decoders, raw: seq<byte>, recover: Recover)
    requires ParseEnvelope(d, raw, recover).Ok?
    ensures raw != [] && ListItems(Body(raw)).Ok?
  {
  }

  /** Whatever the parser accepts is exactly the canonical encoding of the fields and the signature it returns. */
  lemma AcceptedIsCanonical(raw: seq<byte>, recover: Recover)
    requires ParseRawTx(raw, recover).Ok?
    ensures raw == EncodeTx(ParseRawTx(raw, recover).value)
  {
    EnvelopeHasList(Strict(), raw, recover);
    StrictListWrittenBack(Body(raw));
    EnvelopeIsCanonical(Strict(), CanonicalEncoders(), raw, recover);
  }

  /** Spelled out: the nine items of an EIP-155 transaction, or the type byte and the twelve of an EIP-1559 one. */
  lemma AcceptedBytes(raw: seq<byte>, recover: Recover, tx: ParsedTx)
    requires ParseRawTx(raw, recover) == Ok(tx)
    ensures var to := EncodeBytes(if tx.to.Some? then tx.to.value else []);
            raw == match tx.kind
                   case Eip155 =>
                     WrapList([EncodeUint(tx.nonce), EncodeUint(tx.maxFee), EncodeUint(tx.gasLimit), to,
                               EncodeUint(tx.value), EncodeBytes(tx.data), EncodeUint(tx.chainId * 2 + 35 + tx.yParity),
                               EncodeUint(tx.r), EncodeUint(tx.s)])
                   case Eip1559 =>
                     [0x02] + WrapList([EncodeUint(tx.chainId), EncodeUint(tx.nonce), EncodeUint(tx.maxPriority),
                                        EncodeUint(tx.maxFee), EncodeUint(tx.gasLimit), to, EncodeUint(tx.value),
                                        EncodeBytes(tx.data), [0xc0], EncodeUint(tx.yParity), EncodeUint(tx.r),
                                        EncodeUint(tx.s)])
  {
    AcceptedIsCanonical(raw, recover);
    SpelledOut(CanonicalEncoders(), tx);
  }

  lemma SpelledOut(e: Encoders, tx: ParsedTx)
    ensures tx.kind.Eip155? ==>
              EncodeWith(e, tx) ==
              WrapList([e.uint(tx.nonce), e.uint(tx.maxFee), e.uint(tx.gasLimit), e.to(tx.to), e.uint(tx.value),
                        e.bytes(tx.data), e.uint(tx.chainId * 2 + 35 + tx.yParity), e.uint(tx.r), e.uint(tx.s)])
    ensures tx.kind.Eip1559? ==>
              EncodeWith(e, tx) ==
              [0x02] + WrapList([e.uint(tx.chainId), e.uint(tx.nonce), e.uint(tx.maxPriority), e.uint(tx.maxFee),
                                 e.uint(tx.gasLimit), e.to(tx.to), e.uint(tx.value), e.bytes(tx.data), [0xc0],
                                 e.uint(tx.yParity), e.uint(tx.r), e.uint(tx.s)])
  {
    assert [] + WrapList(TxItems(e, tx)) == WrapList(TxItems(e, tx));
  }

  // ----- whom the signature names

  lemma LegacySender(d: Decoders, e: Encoders, raw: seq<byte>, recover: Recover, tx: ParsedTx)
    requires ParseLegacy(d, raw, recover) == Ok(tx) && AllWrittenBack(d, e, ListItems(raw).value)
    ensures recover(ListWithTail([e.uint(tx.nonce), e.uint(tx.maxFee), e.uint(tx.gasLimit), e.to(tx.to),
                                  e.uint(tx.value), e.bytes(tx.data)], d.tail(tx.chainId)), tx.r, tx.s, tx.yParity) ==
            Some(tx.sender)
  {
    var items := ListItems(raw).value;
    LegacyItemsCanonical(d, e, items);
    assert items[..6] == [items[0], items[1], items[2], items[3], items[4], items[5]];
  }

  lemma Eip1559Sender(d: Decoders, e: Encoders, payload: seq<byte>, recover: Recover, tx: ParsedTx)
    requires ParseEip1559(d, payload, recover) == Ok(tx) && AllWrittenBack(d, e, ListItems(payload).value)
    ensures recover([0x02] + WrapList([e.uint(tx.chainId), e.uint(tx.nonce), e.uint(tx.maxPriority), e.uint(tx.maxFee),
                                       e.uint(tx.gasLimit), e.to(tx.to), e.uint(tx.value), e.bytes(tx.data), [0xc0]]),
                    tx.r, tx.s, tx.yParity) == Some(tx.sender)
  {
    var items := ListItems(payload).value;
    Eip1559ItemsCanonical(d, e, items);
    assert items[..9] == [items[0], items[1], items[2], items[3], items[4], items[5], items[6], items[7], items[8]];
  }

  lemma TailAsItems(front: Items, chainId: nat, tail: seq<byte>)
    requires tail == EncodeUint(chainId) + EncodeUint(0) + EncodeUint(0)
    ensures ListWithTail(front, tail) == WrapList(front + [EncodeUint(chainId), EncodeUint(0), EncodeUint(0)])
  {
    var more := [EncodeUint(chainId), EncodeUint(0), EncodeUint(0)];
    ZeroItem();
    TailItems(EncodeUint(chainId));
    ConcatSplit(front, more);
    ListAsTail(front + more, front, tail);
  }

  lemma EnvelopeKinds(d: Decoders, raw: seq<byte>, recover: Recover, tx: ParsedTx)
    requires ParseEnvelope(d, raw, recover) == Ok(tx)
    ensures raw != []
    ensures tx.kind.Eip155? ==> raw[0] >= 0xc0 && ParseLegacy(d, raw, recover) == Ok(tx) && Body(raw) == raw
    ensures tx.kind.Eip1559? ==> raw[0] == 0x02 && ParseEip1559(d, raw[1..], recover) == Ok(tx) && Body(raw) == raw[1..]
  {
  }

  /** The sender of an accepted transaction is recovered from the bytes that its kind signs, field by field. */
  lemma SenderIsRecovered(raw: seq<byte>, recover: Recover, tx: ParsedTx)
    requires ParseRawTx(raw, recover) == Ok(tx)
    ensures var to := EncodeBytes(if tx.to.Some? then tx.to.value else []);
            var signed := match tx.kind
              case Eip155 =>
                WrapList([EncodeUint(tx.nonce), EncodeUint(tx.maxFee), EncodeUint(tx.gasLimit), to,
                          EncodeUint(tx.value), EncodeBytes(tx.data)] +
                         [EncodeUint(tx.chainId), EncodeUint(0), EncodeUint(0)])
              case Eip1559 =>
                [0x02] + WrapList([EncodeUint(tx.chainId), EncodeUint(tx.nonce), EncodeUint(tx.maxPriority),
                                   EncodeUint(tx.maxFee), EncodeUint(tx.gasLimit), to, EncodeUint(tx.value),
                                   EncodeBytes(tx.data), [0xc0]]);
            recover(signed, tx.r, tx.s, tx.yParity) == Some(tx.sender)
  {
    EnvelopeHasList(Strict(), raw, recover);
    EnvelopeKinds(Strict(), raw, recover, tx);
    StrictListWrittenBack(Body(raw));
    if tx.kind.Eip155? {
      LegacySender(Strict(), CanonicalEncoders(), raw, recover, tx);
      TailAsItems([EncodeUint(tx.nonce), EncodeUint(tx.maxFee), EncodeUint(tx.gasLimit), EncodeTo(tx.to),
                   EncodeUint(tx.value), EncodeBytes(tx.data)], tx.chainId, ReplayTail(tx.chainId));
    } else {
      Eip1559Sender(Strict(), CanonicalEncoders(), raw[1..], recover, tx);
    }
  }

  /** The parser is injective: equal fields and signature mean equal bytes. */
  lemma Injective(raw1: seq<byte>, raw2: seq<byte>, recover: Recover)
    requires ParseRawTx(raw1, recover).Ok? && ParseRawTx(raw2, recover).Ok?
    requires ParseRawTx(raw1, recover).value.(sender := []) == ParseRawTx(raw2, recover).value.(sender := [])
    ensures raw1 == raw2
  {
    AcceptedIsCanonical(raw1, recover);
    AcceptedIsCanonical(raw2, recover);
    SenderNotEncoded(CanonicalEncoders(), ParseRawTx(raw1, recover).value, []);
    SenderNotEncoded(CanonicalEncoders(), ParseRawTx(raw2, recover).value, []);
  }

  // ----- every well-formed transaction is accepted in its canonical encoding

  lemma BytesReadBack(s: seq<byte>)
    requires |s| < U64
    ensures DecodeBytes(EncodeBytes(s)) == Ok(s)
  {
    BytesPrefix(s);
    var item := EncodeBytes(s);
    var h := StrictHeader(item).value;
    assert item[h.start..h.start + h.len] == item[h.start..];
  }

  lemma UintReadBack(n: nat, k: nat)
    requires n < Pow(256, k) && k <= 32
    ensures DecodeUint(EncodeUint(n), k) == Ok(n)
  {
    DigitsWellFormed(256, n);
    DigitsLength(256, n, k);
    BytesReadBack(Digits(256, n));
  }

  lemma ToReadBack(to: Option<seq<byte>>)
    requires to.Some? ==> |to.value| == 20
    ensures DecodeTo(EncodeTo(to)) == Ok(to)
  {
    BytesReadBack(if to.Some? then to.value else []);
  }

  lemma StrictExtends(item: seq<byte>, rest: seq<byte>)
    requires StrictLength(item) == Some(|item|)
    ensures StrictLength(item + rest) == Some(|item|)
  {
    HeaderPrefix(item, rest);
    assert |item| >= 2 ==> (item + rest)[1] == item[1];
  }

  /** A canonical item, delimited by its own header. */
  predicate GoodItem(item: seq<byte>) {
    item != [] && StrictLength(item) == Some(|item|)
  }

  lemma StrictDelimits(item: seq<byte>)
    requires GoodItem(item)
    ensures Delimits(StrictLength, item)
  {
    forall rest: seq<byte>
      ensures StrictLength(item + rest) == Some(|item|)
    {
      StrictExtends(item, rest);
    }
  }

  lemma WrappedListReads(items: Items)
    requires forall i :: 0 <= i < |items| ==> GoodItem(items[i])
    requires |Concat(items)| < U64
    ensures ListItems(WrapList(items)) == Ok(items)
  {
    forall i | 0 <= i < |items|
      ensures Delimits(StrictLength, items[i])
    {
      StrictDelimits(items[i]);
    }
    SplitConcat(StrictLength, items);
    ListPrefix(Concat(items), LengthPrefix(0xc0, 0xf7, |Concat(items)|));
    PrefixedListReads(LengthPrefix(0xc0, 0xf7, |Concat(items)|), Concat(items), items);
  }

  lemma PrefixedListReads(p: seq<byte>, payload: seq<byte>, items: Items)
    requires StrictHeader(p + payload) == Some(Header(true, |p|, |payload|))
    requires Split(StrictLength, payload) == Some(items)
    ensures ListItems(p + payload) == Ok(items)
  {
    ItemsUnderOk(Header(true, |p|, |payload|), StrictLength, p + payload);
    assert (p + payload)[|p|..] == payload;
  }

  /** Every field is in the range of its type; `limit(k)` bounds an integer of `k` bytes. */
  predicate InRange(tx: ParsedTx, limit: nat -> nat) {
    && tx.nonce < limit(8) && tx.gasLimit < limit(8) && tx.maxFee < limit(16) && tx.value < limit(32)
    && tx.r < limit(32) && tx.s < limit(32)
    && (tx.to.Some? ==> |tx.to.value| == 20) && ValidSignature(tx.r, tx.s, tx.yParity) && |tx.data| < U64
    && match tx.kind
       case Eip155 => tx.chainId * 2 + 35 + tx.yParity < limit(8) && tx.maxPriority == tx.maxFee
       case Eip1559 => tx.chainId < limit(8) && tx.yParity < limit(8) && tx.maxPriority < limit(16)
                       && tx.maxPriority <= tx.maxFee
  }

  function ByteLimit(k: nat): nat { Pow(256, k) }

  /** What the encoders write, the decoders read; and `good` holds of it. */
  ghost predicate ReadBack(d: Decoders, e: Encoders, good: seq<byte> -> bool, limit: nat -> nat) {
    && (forall n: nat, k: nat | k <= 32 && n < limit(k) :: d.uint(e.uint(n), k) == Ok(n) && good(e.uint(n)))
    && (forall s | |s| < U64 :: d.bytes(e.bytes(s)) == Ok(s) && good(e.bytes(s)))
    && (forall to: Option<seq<byte>> | to.Some? ==> |to.value| == 20 :: d.to(e.to(to)) == Ok(to) && good(e.to(to)))
    && d.accessList([0xc0]) == Ok(()) && good([0xc0])
  }

  lemma StrictReadBack()
    ensures ReadBack(Strict(), CanonicalEncoders(), GoodItem, ByteLimit)
  {
    forall n: nat, k: nat | k <= 32 && n < ByteLimit(k)
      ensures DecodeUint(EncodeUint(n), k) == Ok(n) && GoodItem(EncodeUint(n))
    {
      UintReadBack(n, k);
      DigitsLength(256, n, k);
      BytesPrefix(BigEndian(n));
    }
    forall s: seq<byte> | |s| < U64
      ensures DecodeBytes(EncodeBytes(s)) == Ok(s) && GoodItem(EncodeBytes(s))
    {
      BytesReadBack(s);
      BytesPrefix(s);
    }
    forall to: Option<seq<byte>> | to.Some? ==> |to.value| == 20
      ensures DecodeTo(EncodeTo(to)) == Ok(to) && GoodItem(EncodeTo(to))
    {
      ToReadBack(to);
      BytesPrefix(if to.Some? then to.value else []);
    }
    EmptyAccessList();
  }

  lemma EmptyAccessList()
    ensures CheckAccessList([0xc0]) == Ok(()) && GoodItem([0xc0])
  {
    assert LeadOf(0xc0) == Short(true, 0);
  }

  /** Each item of a legacy list reads as the field that belongs there. */
  ghost predicate ReadsLegacy(d: Decoders, items: Items, tx: ParsedTx) {
    && |items| == 9
    && d.uint(items[0], 8) == Ok(tx.nonce) && d.uint(items[1], 16) == Ok(tx.maxFee)
    && d.uint(items[2], 8) == Ok(tx.gasLimit) && d.to(items[3]) == Ok(tx.to) && d.uint(items[4], 32) == Ok(tx.value)
    && d.bytes(items[5]) == Ok(tx.data) && d.uint(items[6], 8) == Ok(tx.chainId * 2 + 35 + tx.yParity)
    && d.uint(items[7], 32) == Ok(tx.r) && d.uint(items[8], 32) == Ok(tx.s)
  }

  ghost predicate ReadsEip1559(d: Decoders, items: Items, tx: ParsedTx) {
    && |items| == 12
    && d.uint(items[0], 8) == Ok(tx.chainId) && d.uint(items[1], 8) == Ok(tx.nonce)
    && d.uint(items[2], 16) == Ok(tx.maxPriority) && d.uint(items[3], 16) == Ok(tx.maxFee)
    && d.uint(items[4], 8) == Ok(tx.gasLimit) && d.to(items[5]) == Ok(tx.to) && d.uint(items[6], 32) == Ok(tx.value)
    && d.bytes(items[7]) == Ok(tx.data) && d.accessList(items[8]) == Ok(()) && d.uint(items[9], 8) == Ok(tx.yParity)
    && d.uint(items[10], 32) == Ok(tx.r) && d.uint(items[11], 32) == Ok(tx.s)
  }

  lemma LegacyFieldsRead(d: Decoders, items: Items, tx: ParsedTx)
    requires ReadsLegacy(d, items, tx) && tx.kind.Eip155? && tx.maxPriority == tx.maxFee
    requires ValidSignature(tx.r, tx.s, tx.yParity)
    ensures LegacyFields(d, items) == Ok(tx.(sender := []))
  {
  }

  lemma Eip1559FieldsRead(d: Decoders, items: Items, tx: ParsedTx)
    requires ReadsEip1559(d, items, tx) && tx.kind.Eip1559? && tx.maxPriority <= tx.maxFee
    requires ValidSignature(tx.r, tx.s, tx.yParity)
    ensures Eip1559Fields(d, items) == Ok(tx.(sender := []))
  {
  }

  /** The same facts without the quantifiers, for the fields of one transaction. */
  ghost predicate UintBack(d: Decoders, e: Encoders, good: seq<byte> -> bool, n: nat, k: nat) {
    d.uint(e.uint(n), k) == Ok(n) && good(e.uint(n))
  }

  ghost predicate RestBack(d: Decoders, e: Encoders, good: seq<byte> -> bool, tx: ParsedTx) {
    && d.to(e.to(tx.to)) == Ok(tx.to) && good(e.to(tx.to))
    && d.bytes(e.bytes(tx.data)) == Ok(tx.data) && good(e.bytes(tx.data))
    && d.accessList([0xc0]) == Ok(()) && good([0xc0])
  }

  lemma UintReads(d: Decoders, e: Encoders, good: seq<byte> -> bool, limit: nat -> nat, n: nat, k: nat)
    requires ReadBack(d, e, good, limit) && k <= 32 && n < limit(k)
    ensures UintBack(d, e, good, n, k)
  {
  }

  lemma RestReads(d: Decoders, e: Encoders, good: seq<byte> -> bool, limit: nat -> nat, tx: ParsedTx)
    requires ReadBack(d, e, good, limit) && InRange(tx, limit)
    ensures RestBack(d, e, good, tx)
  {
  }

  lemma LegacyItemsRead(d: Decoders, e: Encoders, good: seq<byte> -> bool, tx: ParsedTx, v: nat)
    requires tx.kind.Eip155? && v == tx.chainId * 2 + 35 + tx.yParity && RestBack(d, e, good, tx)
    requires UintBack(d, e, good, tx.nonce, 8) && UintBack(d, e, good, tx.maxFee, 16)
    requires UintBack(d, e, good, tx.gasLimit, 8) && UintBack(d, e, good, tx.value, 32)
    requires UintBack(d, e, good, v, 8) && UintBack(d, e, good, tx.r, 32) && UintBack(d, e, good, tx.s, 32)
    ensures ReadsLegacy(d, TxItems(e, tx), tx)
    ensures forall i :: 0 <= i < |TxItems(e, tx)| ==> good(TxItems(e, tx)[i])
  {
  }

  lemma Eip1559ItemsRead(d: Decoders, e: Encoders, good: seq<byte> -> bool, tx: ParsedTx)
    requires tx.kind.Eip1559? && RestBack(d, e, good, tx)
    requires UintBack(d, e, good, tx.chainId, 8) && UintBack(d, e, good, tx.nonce, 8)
    requires UintBack(d, e, good, tx.maxPriority, 16) && UintBack(d, e, good, tx.maxFee, 16)
    requires UintBack(d, e, good, tx.gasLimit, 8) && UintBack(d, e, good, tx.value, 32)
    requires UintBack(d, e, good, tx.yParity, 8) && UintBack(d, e, good, tx.r, 32) && UintBack(d, e, good, tx.s, 32)
    ensures ReadsEip1559(d, TxItems(e, tx), tx)
    ensures forall i :: 0 <= i < |TxItems(e, tx)| ==> good(TxItems(e, tx)[i])
  {
  }

  lemma ItemsReadBack(d: Decoders, e: Encoders, good: seq<byte> -> bool, limit: nat -> nat, tx: ParsedTx)
    requires ReadBack(d, e, good, limit) && InRange(tx, limit)
    ensures tx.kind.Eip155? ==> ReadsLegacy(d, TxItems(e, tx), tx)
    ensures tx.kind.Eip1559? ==> ReadsEip1559(d, TxItems(e, tx), tx)
    ensures forall i :: 0 <= i < |TxItems(e, tx)| ==> good(TxItems(e, tx)[i])
  {
    RestReads(d, e, good, limit, tx);
    UintReads(d, e, good, limit, tx.nonce, 8);
    UintReads(d, e, good, limit, tx.maxFee, 16);
    UintReads(d, e, good, limit, tx.gasLimit, 8);
    UintReads(d, e, good, limit, tx.value, 32);
    UintReads(d, e, good, limit, tx.r, 32);
    UintReads(d, e, good, limit, tx.s, 32);
    if tx.kind.Eip155? {
      UintReads(d, e, good, limit, tx.chainId * 2 + 35 + tx.yParity, 8);
      LegacyItemsRead(d, e, good, tx, tx.chainId * 2 + 35 + tx.yParity);
    } else {
      UintReads(d, e, good, limit, tx.chainId, 8);
      UintReads(d, e, good, limit, tx.maxPriority, 16);
      UintReads(d, e, good, limit, tx.yParity, 8);
      Eip1559ItemsRead(d, e, good, tx);
    }
  }

  /** The bytes a transaction's signature commits to. */
  function SigningPreimage(d: Decoders, e: Encoders, tx: ParsedTx): seq<byte> {
    if tx.kind.Eip155? then LegacyPreimage(TxItems(e, tx), d.tail(tx.chainId)) else Eip1559Preimage(TxItems(e, tx))
  }

  lemma BodyAccepted(d: Decoders, e: Encoders, tx: ParsedTx, body: seq<byte>, recover: Recover)
    requires ListItems(body) == Ok(TxItems(e, tx))
    requires tx.kind.Eip155? ==> LegacyFields(d, TxItems(e, tx)) == Ok(tx.(sender := []))
    requires tx.kind.Eip1559? ==> Eip1559Fields(d, TxItems(e, tx)) == Ok(tx.(sender := []))
    requires recover(SigningPreimage(d, e, tx), tx.r, tx.s, tx.yParity) == Some(tx.sender)
    ensures tx.kind.Eip155? ==> ParseLegacy(d, body, recover) == Ok(tx)
    ensures tx.kind.Eip1559? ==> ParseEip1559(d, body, recover) == Ok(tx)
  {
  }

  lemma EnvelopeAccepted(d: Decoders, tx: ParsedTx, body: seq<byte>, recover: Recover)
    requires body != [] && body[0] >= 0xc0
    requires tx.kind.Eip155? ==> ParseLegacy(d, body, recover) == Ok(tx)
    requires tx.kind.Eip1559? ==> ParseEip1559(d, body, recover) == Ok(tx)
    ensures ParseEnvelope(d, (if tx.kind.Eip155? then [] else [0x02]) + body, recover) == Ok(tx)
  {
    assert [] + body == body;
    assert ([0x02] + body)[1..] == body;
  }

  lemma EncodedIsAccepted(d: Decoders, e: Encoders, limit: nat -> nat, tx: ParsedTx, recover: Recover)
    requires ReadBack(d, e, GoodItem, limit) && InRange(tx, limit) && |Concat(TxItems(e, tx))| < U64
    requires recover(SigningPreimage(d, e, tx), tx.r, tx.s, tx.yParity) == Some(tx.sender)
    ensures ParseEnvelope(d, EncodeWith(e, tx), recover) == Ok(tx)
  {
    ItemsReadBack(d, e, GoodItem, limit, tx);
    if tx.kind.Eip155? {
      LegacyFieldsRead(d, TxItems(e, tx), tx);
    } else {
      Eip1559FieldsRead(d, TxItems(e, tx), tx);
    }
    WrappedListReads(TxItems(e, tx));
    BodyAccepted(d, e, tx, WrapList(TxItems(e, tx)), recover);
    WrapLead(TxItems(e, tx));
    EnvelopeAccepted(d, tx, WrapList(TxItems(e, tx)), recover);
  }

  lemma WrapLead(items: Items)
    requires |Concat(items)| < U64
    ensures WrapList(items) != [] && WrapList(items)[0] >= 0xc0
  {
    if |Concat(items)| > 55 {
      LongLength(|Concat(items)|);
    }
  }

  // ----- acceptance, exactly

  /** What a decoder accepts of an item is in the range it is asked for. */
  ghost predicate Bounded(d: Decoders, limit: nat -> nat, item: seq<byte>) {
    && (forall k | k <= 32 :: d.uint(item, k).Ok? ==> d.uint(item, k).value < limit(k))
    && (d.bytes(item).Ok? ==> |d.bytes(item).value| < U64)
    && (d.to(item).Ok? && d.to(item).value.Some? ==> |d.to(item).value.value| == 20)
  }

  ghost predicate AllBounded(d: Decoders, limit: nat -> nat, items: Items) {
    forall i :: 0 <= i < |items| ==> Bounded(d, limit, items[i])
  }

  lemma StrictBounded(item: seq<byte>)
    requires StrictLength(item) == Some(|item|)
    ensures Bounded(Strict(), ByteLimit, item)
  {
    forall k: nat | DecodeUint(item, k).Ok?
      ensures DecodeUint(item, k).value < ByteLimit(k)
    {
      var bytes := DecodeBytes(item).value;
      ValueBound(256, bytes);
      PowMonotone(256, |bytes|, k);
    }
    if DecodeBytes(item).Ok? {
      StrictIsCanonical(item, StrictHeader(item).value);
    }
  }

  lemma ListBounded(buf: seq<byte>)
    requires ListItems(buf).Ok?
    ensures AllBounded(Strict(), ByteLimit, ListItems(buf).value)
  {
    ListItemsStrict(buf);
    forall i | 0 <= i < |ListItems(buf).value|
      ensures Bounded(Strict(), ByteLimit, ListItems(buf).value[i])
    {
      StrictBounded(ListItems(buf).value[i]);
    }
  }

  lemma LegacyInRange(d: Decoders, limit: nat -> nat, raw: seq<byte>, recover: Recover)
    requires ParseLegacy(d, raw, recover).Ok? && AllBounded(d, limit, ListItems(raw).value)
    ensures InRange(ParseLegacy(d, raw, recover).value, limit)
  {
    LegacyFieldsInRange(d, limit, ListItems(raw).value);
  }

  lemma LegacyFieldsInRange(d: Decoders, limit: nat -> nat, items: Items)
    requires LegacyFields(d, items).Ok? && AllBounded(d, limit, items)
    ensures InRange(LegacyFields(d, items).value, limit)
  {
  }

  lemma Eip1559InRange(d: Decoders, limit: nat -> nat, payload: seq<byte>, recover: Recover)
    requires ParseEip1559(d, payload, recover).Ok? && AllBounded(d, limit, ListItems(payload).value)
    ensures InRange(ParseEip1559(d, payload, recover).value, limit)
  {
    Eip1559FieldsInRange(d, limit, ListItems(payload).value);
  }

  lemma Eip1559FieldsInRange(d: Decoders, limit: nat -> nat, items: Items)
    requires Eip1559Fields(d, items).Ok? && AllBounded(d, limit, items)
    ensures InRange(Eip1559Fields(d, items).value, limit)
  {
  }

  lemma AcceptedInRange(raw: seq<byte>, recover: Recover, tx: ParsedTx)
    requires ParseRawTx(raw, recover) == Ok(tx)
    ensures InRange(tx, ByteLimit)
  {
    EnvelopeHasList(Strict(), raw, recover);
    EnvelopeKinds(Strict(), raw, recover, tx);
    ListBounded(Body(raw));
    if tx.kind.Eip155? {
      LegacyInRange(Strict(), ByteLimit, raw, recover);
    } else {
      Eip1559InRange(Strict(), ByteLimit, raw[1..], recover);
    }
  }

  lemma ByteLimits()
    ensures ByteLimit(8) == U64 && ByteLimit(16) == U64 * U64 && ByteLimit(32) == U64 * U64 * U64 * U64
  {
    PowU64();
    PowSplit(256, 8, 8);
    PowSplit(256, 16, 16);
  }

  lemma {:induction false} PowSplit(b: nat, i: nat, j: nat)
    ensures Pow(b, i + j) == Pow(b, i) * Pow(b, j)
  {
    if i > 0 {
      PowSplit(b, i - 1, j);
      Associate(b, Pow(b, i - 1), Pow(b, j));
    }
  }

  lemma Associate(x: nat, y: nat, z: nat)
    ensures x * (y * z) == x * y * z
  {
  }

  /** The ranges of an EIP-155 or EIP-1559 transaction: its integers, the low half of s, the order of the two fees. */
  predicate WellFormed(tx: ParsedTx) {
    && tx.nonce < U64 && tx.gasLimit < U64 && tx.maxFee < U64 * U64 && tx.value < U64 * U64 * U64 * U64
    && (tx.to.None? || |tx.to.value| == 20) && |tx.data| < U64
    && 0 < tx.r < N && 0 < tx.s && 2 * tx.s < N && (tx.yParity == 0 || tx.yParity == 1)
    && (tx.kind == Eip155 ==> 2 * tx.chainId + 35 + tx.yParity < U64 && tx.maxPriority == tx.maxFee)
    && (tx.kind == Eip1559 ==> tx.chainId < U64 && tx.maxPriority <= tx.maxFee)
  }

  lemma InRangeIsWellFormed(tx: ParsedTx)
    ensures InRange(tx, ByteLimit) <==> WellFormed(tx)
  {
    ByteLimits();
    assert N == 2 * N_HALF + 1 && N < U64 * U64 * U64 * U64;
  }

  /** What is signed, from the fields alone. */
  function Signed(e: Encoders, tx: ParsedTx): seq<byte> {
    match tx.kind
    case Eip155 =>
      WrapList([e.uint(tx.nonce), e.uint(tx.maxFee), e.uint(tx.gasLimit), e.to(tx.to), e.uint(tx.value),
                e.bytes(tx.data)] + [e.uint(tx.chainId), e.uint(0), e.uint(0)])
    case Eip1559 =>
      [0x02] + WrapList([e.uint(tx.chainId), e.uint(tx.nonce), e.uint(tx.maxPriority), e.uint(tx.maxFee),
                         e.uint(tx.gasLimit), e.to(tx.to), e.uint(tx.value), e.bytes(tx.data), [0xc0]])
  }

  lemma PreimageIsSigned(tx: ParsedTx)
    ensures SigningPreimage(Strict(), CanonicalEncoders(), tx) == Signed(CanonicalEncoders(), tx)
  {
    var e := CanonicalEncoders();
    PreimageFields(e, tx, ReplayTail(tx.chainId));
    TailAsItems([EncodeUint(tx.nonce), EncodeUint(tx.maxFee), EncodeUint(tx.gasLimit), EncodeTo(tx.to),
                 EncodeUint(tx.value), EncodeBytes(tx.data)], tx.chainId, ReplayTail(tx.chainId));
  }

  lemma PreimageFields(e: Encoders, tx: ParsedTx, tail: seq<byte>)
    ensures tx.kind.Eip155? ==>
              LegacyPreimage(TxItems(e, tx), tail) ==
              ListWithTail([e.uint(tx.nonce), e.uint(tx.maxFee), e.uint(tx.gasLimit), e.to(tx.to), e.uint(tx.value),
                            e.bytes(tx.data)], tail)
    ensures tx.kind.Eip1559? ==> Eip1559Preimage(TxItems(e, tx)) == Signed(e, tx)
  {
    var items := TxItems(e, tx);
    if tx.kind.Eip155? {
      assert items[..6] == [items[0], items[1], items[2], items[3], items[4], items[5]];
    } else {
      assert items[..9] == [items[0], items[1], items[2], items[3], items[4], items[5], items[6], items[7], items[8]];
    }
  }

  /** Every well-formed transaction whose signature recovers is accepted in its canonical encoding, unchanged. */
  lemma CanonicalIsAccepted(tx: ParsedTx, recover: Recover)
    requires WellFormed(tx) && |Concat(TxItems(CanonicalEncoders(), tx))| < U64
    requires recover(Signed(CanonicalEncoders(), tx), tx.r, tx.s, tx.yParity) == Some(tx.sender)
    ensures ParseRawTx(EncodeTx(tx), recover) == Ok(tx)
  {
    InRangeIsWellFormed(tx);
    PreimageIsSigned(tx);
    StrictReadBack();
    EncodedIsAccepted(Strict(), CanonicalEncoders(), ByteLimit, tx, recover);
  }

  lemma ListInEncoding(e: Encoders, tx: ParsedTx)
    ensures |Concat(TxItems(e, tx))| <= |EncodeWith(e, tx)|
  {
  }

  lemma SignedFields(tx: ParsedTx, recover: Recover)
    requires var to := EncodeBytes(if tx.to.Some? then tx.to.value else []);
             var signed := match tx.kind
               case Eip155 =>
                 WrapList([EncodeUint(tx.nonce), EncodeUint(tx.maxFee), EncodeUint(tx.gasLimit), to,
                           EncodeUint(tx.value), EncodeBytes(tx.data)] +
                          [EncodeUint(tx.chainId), EncodeUint(0), EncodeUint(0)])
               case Eip1559 =>
                 [0x02] + WrapList([EncodeUint(tx.chainId), EncodeUint(tx.nonce), EncodeUint(tx.maxPriority),
                                    EncodeUint(tx.maxFee), EncodeUint(tx.gasLimit), to, EncodeUint(tx.value),
                                    EncodeBytes(tx.data), [0xc0]]);
             recover(signed, tx.r, tx.s, tx.yParity) == Some(tx.sender)
    ensures recover(Signed(CanonicalEncoders(), tx), tx.r, tx.s, tx.yParity) == Some(tx.sender)
  {
  }

  /**
  The parser takes exactly the canonical encodings of the well-formed transactions whose signature recovers, each to
  the transaction it encodes.
  */
  lemma AcceptedExactlyWhen(raw: seq<byte>, recover: Recover, tx: ParsedTx)
    requires |raw| < U64
    ensures ParseRawTx(raw, recover) == Ok(tx) <==>
              && WellFormed(tx) && raw == EncodeTx(tx)
              && recover(Signed(CanonicalEncoders(), tx), tx.r, tx.s, tx.yParity) == Some(tx.sender)
  {
    if ParseRawTx(raw, recover) == Ok(tx) {
      AcceptedIsCanonical(raw, recover);
      AcceptedInRange(raw, recover, tx);
      InRangeIsWellFormed(tx);
      SenderIsRecovered(raw, recover, tx);
      SignedFields(tx, recover);
    }
    ListInEncoding(CanonicalEncoders(), tx);
    if WellFormed(tx) && raw == EncodeTx(tx)
       && recover(Signed(CanonicalEncoders(), tx), tx.r, tx.s, tx.yParity) == Some(tx.sender) {
      CanonicalIsAccepted(tx, recover);
    }
  }

  // ----- refusal, exactly

  function Fault<T>(r: Result<T, TxParseError>): Option<TxParseError> { if r.Ok? then None else Some(r.error) }

  /** The checks on a legacy list of nine, in order: each item, then v, then the signature. */
  function LegacyChecks(d: Decoders, items: Items): seq<Option<TxParseError>>
    requires |items| == 9
  {
    var v, r, s := d.uint(items[6], 8), d.uint(items[7], 32), d.uint(items[8], 32);
    [Fault(d.uint(items[0], 8)), Fault(d.uint(items[1], 16)), Fault(d.uint(items[2], 8)), Fault(d.to(items[3])),
     Fault(d.uint(items[4], 32)), Fault(d.bytes(items[5])), Fault(v), Fault(r), Fault(s),
     if v.Ok? && 27 <= v.value <= 28 then Some(Pre155Rejected)
     else if v.Ok? && v.value < 35 then Some(InvalidSignature) else None,
     if v.Ok? && r.Ok? && s.Ok? && v.value >= 35 && !ValidSignature(r.value, s.value, (v.value - 35) % 2)
     then Some(InvalidSignature) else None]
  }

  /** Those on an EIP-1559 list of twelve: the order of the fees is checked after the fourth item. */
  function Eip1559Checks(d: Decoders, items: Items): seq<Option<TxParseError>>
    requires |items| == 12
  {
    var tip, fee := d.uint(items[2], 16), d.uint(items[3], 16);
    var y, r, s := d.uint(items[9], 8), d.uint(items[10], 32), d.uint(items[11], 32);
    [Fault(d.uint(items[0], 8)), Fault(d.uint(items[1], 8)), Fault(tip), Fault(fee),
     if tip.Ok? && fee.Ok? && tip.value > fee.value then Some(InvalidFeeOrdering) else None,
     Fault(d.uint(items[4], 8)), Fault(d.to(items[5])), Fault(d.uint(items[6], 32)), Fault(d.bytes(items[7])),
     Fault(d.accessList(items[8])), Fault(y), Fault(r), Fault(s),
     if y.Ok? && r.Ok? && s.Ok? && !ValidSignature(r.value, s.value, y.value) then Some(InvalidSignature) else None]
  }

  ghost predicate Passed(checks: seq<Option<TxParseError>>, n: nat) {
    n <= |checks| && forall j :: 0 <= j < n ==> checks[j].None?
  }

  /** The fields are taken if every check passes, and refused with the error of the first that fails. */
  lemma LegacyRefusedBy(d: Decoders, items: Items, i: nat)
    requires |items| == 9 && Passed(LegacyChecks(d, items), i)
    ensures var c := LegacyChecks(d, items);
            && (LegacyFields(d, items).Ok? <==> Passed(c, |c|))
            && (i < |c| && c[i].Some? ==> LegacyFields(d, items) == Err(c[i].value))
  {
    var c := LegacyChecks(d, items);
    assert Passed(c, |c|) <==> Passed(c, 6) && c[6].None? && c[7].None? && c[8].None? && c[9].None? && c[10].None?;
    assert Passed(c, 6) <==> c[0].None? && c[1].None? && c[2].None? && c[3].None? && c[4].None? && c[5].None?;
    assert i > 0 ==> c[0].None?;
    assert i > 1 ==> c[1].None?;
    assert i > 2 ==> c[2].None?;
    assert i > 3 ==> c[3].None?;
    assert i > 4 ==> c[4].None?;
    assert i > 5 ==> c[5].None?;
    assert i > 6 ==> c[6].None?;
    assert i > 7 ==> c[7].None?;
    assert i > 8 ==> c[8].None?;
    assert i > 9 ==> c[9].None?;
  }

  lemma Eip1559RefusedBy(d: Decoders, items: Items, i: nat)
    requires |items| == 12 && Passed(Eip1559Checks(d, items), i)
    ensures var c := Eip1559Checks(d, items);
            && (Eip1559Fields(d, items).Ok? <==> Passed(c, |c|))
            && (i < |c| && c[i].Some? ==> Eip1559Fields(d, items) == Err(c[i].value))
  {
    Eip1559Taken(d, items);
    if i < 7 {
      Eip1559RefusedEarly(d, items, i);
    } else {
      Eip1559RefusedLate(d, items, i);
    }
  }

  lemma Eip1559Taken(d: Decoders, items: Items)
    requires |items| == 12
    ensures Eip1559Fields(d, items).Ok? <==> Passed(Eip1559Checks(d, items), |Eip1559Checks(d, items)|)
  {
    var c := Eip1559Checks(d, items);
    assert Passed(c, |c|) <==> Passed(c, 7) && c[7].None? && c[8].None? && c[9].None? && c[10].None? && c[11].None?
                               && c[12].None? && c[13].None?;
    assert Passed(c, 7) <==> c[0].None? && c[1].None? && c[2].None? && c[3].None? && c[4].None? && c[5].None?
                             && c[6].None?;
  }

  lemma Eip1559RefusedEarly(d: Decoders, items: Items, i: nat)
    requires |items| == 12 && i < 7 && Passed(Eip1559Checks(d, items), i)
    ensures var c := Eip1559Checks(d, items); c[i].Some? ==> Eip1559Fields(d, items) == Err(c[i].value)
  {
    var c := Eip1559Checks(d, items);
    assert i > 0 ==> c[0].None?;
    assert i > 1 ==> c[1].None?;
    assert i > 2 ==> c[2].None?;
    assert i > 3 ==> c[3].None?;
    assert i > 4 ==> c[4].None?;
    assert i > 5 ==> c[5].None?;
  }

  lemma Eip1559RefusedLate(d: Decoders, items: Items, i: nat)
    requires |items| == 12 && i >= 7 && Passed(Eip1559Checks(d, items), i)
    ensures var c := Eip1559Checks(d, items); i < |c| && c[i].Some? ==> Eip1559Fields(d, items) == Err(c[i].value)
  {
    var c := Eip1559Checks(d, items);
    assert c[0].None? && c[1].None? && c[2].None? && c[3].None? && c[4].None? && c[5].None? && c[6].None?;
    assert i > 7 ==> c[7].None?;
    assert i > 8 ==> c[8].None?;
    assert i > 9 ==> c[9].None?;
    assert i > 10 ==> c[10].None?;
    assert i > 11 ==> c[11].None?;
    assert i > 12 ==> c[12].None?;
  }

  /**
  How a raw transaction is refused: for what is no list, a wrong number of items, an unknown type, an item or check
  that fails, the first in order, or a signature that does not recover.
  */
  lemma RefusedBy(raw: seq<byte>, recover: Recover, items: Items, i: nat)
    ensures raw == [] ==> ParseRawTx(raw, recover) == Err(Empty)
    ensures raw != [] && raw[0] < 0xc0 && raw[0] != 0x02 ==> ParseRawTx(raw, recover) == Err(UnsupportedType(raw[0]))
    ensures raw != [] && (raw[0] >= 0xc0 || raw[0] == 0x02) ==>
              var out, list := ParseRawTx(raw, recover), ListItems(Body(raw));
              && (list.Err? ==> out == Err(list.error))
              && (list == Ok(items) ==>
                    && (|items| != (if raw[0] >= 0xc0 then 9 else 12) ==> out == Err(WrongFieldCount))
                    && (raw[0] >= 0xc0 && |items| == 9 ==> Outcome(out, LegacyChecks(Strict(), items), i))
                    && (raw[0] == 0x02 && |items| == 12 ==> Outcome(out, Eip1559Checks(Strict(), items), i)))
  {
    if raw != [] && (raw[0] >= 0xc0 || raw[0] == 0x02) && ListItems(Body(raw)) == Ok(items) {
      RefusedWith(Strict(), raw, recover, items, i);
    }
  }

  /** Refused with the error of check `i`, if that is the first that fails, and else only if there is no sender. */
  ghost predicate Outcome(out: Result<ParsedTx, TxParseError>, checks: seq<Option<TxParseError>>, i: nat) {
    && (Passed(checks, i) && i < |checks| && checks[i].Some? ==> out == Err(checks[i].value))
    && (Passed(checks, |checks|) ==> out.Ok? || out == Err(RecoveryFailure))
  }

  lemma RefusedWith(d: Decoders, raw: seq<byte>, recover: Recover, items: Items, i: nat)
    requires raw != [] && (raw[0] >= 0xc0 || raw[0] == 0x02) && ListItems(Body(raw)) == Ok(items)
    ensures var out := ParseEnvelope(d, raw, recover);
            && (|items| != (if raw[0] >= 0xc0 then 9 else 12) ==> out == Err(WrongFieldCount))
            && (raw[0] >= 0xc0 && |items| == 9 ==> Outcome(out, LegacyChecks(d, items), i))
            && (raw[0] == 0x02 && |items| == 12 ==> Outcome(out, Eip1559Checks(d, items), i))
  {
    if raw[0] >= 0xc0 && |items| == 9 {
      LegacyOutcome(d, items, i, raw, recover);
    } else if raw[0] == 0x02 && |items| == 12 {
      Eip1559Outcome(d, items, i, raw[1..], recover);
    }
  }

  lemma LegacyOutcome(d: Decoders, items: Items, i: nat, raw: seq<byte>, recover: Recover)
    requires |items| == 9 && ListItems(raw) == Ok(items)
    ensures Outcome(ParseLegacy(d, raw, recover), LegacyChecks(d, items), i)
  {
    LegacyRefusedBy(d, items, 0);
    if Passed(LegacyChecks(d, items), i) {
      LegacyRefusedBy(d, items, i);
    }
  }

  lemma Eip1559Outcome(d: Decoders, items: Items, i: nat, payload: seq<byte>, recover: Recover)
    requires |items| == 12 && ListItems(payload) == Ok(items)
    ensures Outcome(ParseEip1559(d, payload, recover), Eip1559Checks(d, items), i)
  {
    Eip1559RefusedBy(d, items, 0);
    if Passed(Eip1559Checks(d, items), i) {
      Eip1559RefusedBy(d, items, i);
    }
  }

  /** The errors of the item decoders, given the item's payload. */
  lemma ItemFaults(item: seq<byte>, k: nat)
    ensures DecodeBytes(item).Err? <==> StrictHeader(item).None? || StrictHeader(item).value.list
    ensures DecodeBytes(item).Err? ==>
              && DecodeBytes(item) == Err(RlpDecode) && DecodeUint(item, k) == Err(RlpDecode)
              && DecodeTo(item) == Err(RlpDecode)
    ensures DecodeBytes(item).Ok? ==>
              var b := DecodeBytes(item).value;
              && (DecodeUint(item, k) == Err(NonCanonicalInteger) <==> b != [] && b[0] == 0)
              && (DecodeUint(item, k) == Err(ScalarTooLarge) <==> |b| > k && b[0] != 0)
              && (DecodeUint(item, k).Ok? <==> |b| <= k && (b == [] || b[0] != 0))
              && (DecodeTo(item) == Err(AddressLength) <==> |b| != 0 && |b| != 20)
  {
  }
}
