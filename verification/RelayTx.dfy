/**
The relay's lax transaction decoder. It reads the same two envelopes as the engine without checking canonical form,
field counts, fee order or signature ranges, and rebuilds the signing preimage with its own encoder.
*/
module RelayTx {
  import opened Common
  import opened Radix
  import opened Rlp
  import EngineTx

  datatype DecodedTx = DecodedTx(txType: nat, chainId: Option<nat>, nonce: nat, to: Option<seq<byte>>,
                                 value: seq<byte>, data: seq<byte>, gasLimit: nat, gasPrice: seq<byte>,
                                 from: seq<byte>, r: seq<byte>, s: seq<byte>, v: nat)

  // ----- item decoders

  function LaxU64(item: seq<byte>): Option<nat> {
    var b := LaxBytes(item);
    if b.None? || |b.value| > 8 then None else Some(Value(256, b.value))
  }

  /** Left-padded to 32 bytes. */
  function LaxWord(item: seq<byte>): Option<seq<byte>> {
    var b := LaxBytes(item);
    if b.None? || |b.value| > 32 then None else Some(Zeros(32 - |b.value|) + b.value)
  }

  function LaxAddress(item: seq<byte>): Option<Option<seq<byte>>> {
    var b := LaxBytes(item);
    if b.None? then None
    else if b.value == [] then Some(None)
    else if |b.value| == 20 then Some(Some(b.value)) else None
  }

  // ----- the relay's own encoder

  /** The `k` low bytes of `n`, most significant first. */
  function FixedBytes(n: nat, k: nat): seq<byte> {
    if k == 0 then [] else FixedBytes(n / 256, k - 1) + [n % 256]
  }

  function Trimmed(bytes: seq<byte>): seq<byte> { bytes[LeadingZeros(bytes)..] }

  function RlpEncodeU64(n: nat): seq<byte> {
    if n == 0 then [0x80]
    else
      var bytes := Trimmed(FixedBytes(n, 8));
      if |bytes| == 1 && bytes[0] <= 0x7f then bytes else [(0x80 + |bytes|) % 256] + bytes
  }

  function WrapRlpList(items: Items): seq<byte> {
    var n := |Concat(items)|;
    var lb := Trimmed(FixedBytes(n, 8));
    (if n <= 55 then [0xc0 + n] else [(0xf7 + |lb|) % 256] + lb) + Concat(items)
  }

  /** The list builder as the relay runs it. */
  method BuildList(items: Items) returns (out: seq<byte>)
    ensures out == WrapRlpList(items)
  {
    var n := 0;
    for i := 0 to |items|
      invariant n == |Concat(items[..i])|
    {
      assert items[..i + 1] == items[..i] + [items[i]];
      EngineTx.ConcatAppend(items[..i], items[i]);
      n := n + |items[i]|;
    }
    assert items[..|items|] == items;
    var header: seq<byte>;
    if n <= 55 {
      header := [0xc0 + n];
    } else {
      var lb := Trimmed(FixedBytes(n, 8));
      header := [(0xf7 + |lb|) % 256] + lb;
    }
    out := header;
    for i := 0 to |items|
      invariant out == header + Concat(items[..i])
    {
      assert items[..i + 1] == items[..i] + [items[i]];
      EngineTx.ConcatAppend(items[..i], items[i]);
      out := out + items[i];
    }
  }

  lemma {:induction false} FixedIsPadded(n: nat, k: nat)
    requires n < Pow(256, k)
    ensures |BigEndian(n)| <= k && FixedBytes(n, k) == Zeros(k - |BigEndian(n)|) + BigEndian(n)
    decreases k
  {
    if k > 0 {
      DivMod(n, 256);
      FixedIsPadded(n / 256, k - 1);
    }
  }

  lemma TrimmedFixed(n: nat)
    requires n < U64
    ensures Trimmed(FixedBytes(n, 8)) == BigEndian(n)
  {
    PowU64();
    FixedIsPadded(n, 8);
    DigitsWellFormed(256, n);
    LeadingZerosUnique(FixedBytes(n, 8), 8 - |BigEndian(n)|);
  }

  /** The relay's integer encoder writes what the canonical one writes. */
  lemma EncodersAgree(n: nat)
    requires n < U64
    ensures RlpEncodeU64(n) == EncodeUint(n)
  {
    PowU64();
    TrimmedFixed(n);
    DigitsLength(256, n, 8);
  }

  lemma WrapsAgree(items: Items)
    requires |Concat(items)| < U64
    ensures WrapRlpList(items) == WrapList(items)
  {
    TrimmedFixed(|Concat(items)|);
  }

  // ----- where the strict decoders accept, the lax ones read the same

  lemma BytesAgree(item: seq<byte>)
    requires EngineTx.DecodeBytes(item).Ok?
    ensures LaxBytes(item) == Some(EngineTx.DecodeBytes(item).value)
  {
  }

  lemma U64Agree(item: seq<byte>)
    requires EngineTx.DecodeUint(item, 8).Ok?
    ensures LaxU64(item) == Some(EngineTx.DecodeUint(item, 8).value)
  {
    BytesAgree(item);
  }

  lemma WordAgree(item: seq<byte>, k: nat)
    requires k <= 32 && EngineTx.DecodeUint(item, k).Ok?
    ensures LaxWord(item).Some? && |LaxWord(item).value| == 32
    ensures Value(256, LaxWord(item).value) == EngineTx.DecodeUint(item, k).value
  {
    BytesAgree(item);
    var b := LaxBytes(item).value;
    ValueZeros(256, 32 - |b|, b);
  }

  lemma AddressAgree(item: seq<byte>)
    requires EngineTx.DecodeTo(item).Ok?
    ensures LaxAddress(item) == Some(EngineTx.DecodeTo(item).value)
  {
    BytesAgree(item);
  }

  lemma ListAgree(buf: seq<byte>)
    requires EngineTx.ListItems(buf).Ok?
    ensures LaxList(buf) == Some(EngineTx.ListItems(buf).value)
  {
    var h := StrictHeader(buf).value;
    EngineTx.ItemsUnderOk(h, StrictLength, buf);
    ListAgreeAt(buf, h, buf[h.start..]);
  }

  lemma ListAgreeAt(buf: seq<byte>, h: Header, payload: seq<byte>)
    requires LaxHeader(buf) == Some(h) && h.list && h.start + h.len == |buf| && payload == buf[h.start..]
    requires Split(StrictLength, payload).Some?
    ensures LaxList(buf) == Split(StrictLength, payload)
  {
    StrictSplitIsLax(payload);
    assert buf[h.start..h.start + h.len] == payload;
  }

  /** Decoding an integer the relay encoded gives it back. */
  lemma U64RoundTrip(n: nat)
    requires n < U64
    ensures LaxU64(RlpEncodeU64(n)) == Some(n)
  {
    EncodersAgree(n);
    PowU64();
    EngineTx.UintReadBack(n, 8);
    U64Agree(EncodeUint(n));
  }

  // ----- the decoder

  /** How items are decoded and written; the field layouts below do not depend on it. */
  datatype LaxCodec = LaxCodec(u64: seq<byte> -> Option<nat>, word: seq<byte> -> Option<seq<byte>>,
                               address: seq<byte> -> Option<Option<seq<byte>>>,
                               bytes: seq<byte> -> Option<seq<byte>>,
                               put: nat -> seq<byte>)

  function Lax(): LaxCodec { LaxCodec(LaxU64, LaxWord, LaxAddress, LaxBytes, RlpEncodeU64) }

  /** The nine items a legacy decoder looks at; further items are ignored. */
  function LegacyFields(c: LaxCodec, items: Items): Option<DecodedTx> {
    if |items| < 9 then None
    else
      var nonce, gasPrice, gasLimit := c.u64(items[0]), c.word(items[1]), c.u64(items[2]);
      var to, value, data := c.address(items[3]), c.word(items[4]), c.bytes(items[5]);
      var v, r, s := c.u64(items[6]), c.word(items[7]), c.word(items[8]);
      if nonce.None? || gasPrice.None? || gasLimit.None? || to.None? || value.None? || data.None? || v.None?
         || r.None? || s.None? then None
      else if v.value != 27 && v.value != 28 && v.value < 35 then None
      else
        var chainId := if v.value < 35 then None else Some((v.value - 35) / 2);
        Some(DecodedTx(0, chainId, nonce.value, to.value, value.value, data.value, gasLimit.value, gasPrice.value, [],
                       r.value, s.value, v.value))
  }

  function LegacyParity(v: nat): nat
    requires v >= 27
  {
    if v < 35 then v - 27 else (v - 35) % 2
  }

  function LegacyPreimage(c: LaxCodec, items: Items, chainId: Option<nat>): seq<byte>
    requires |items| >= 6
  {
    WrapRlpList(items[..6] + if chainId.Some? then [c.put(chainId.value), [0x80], [0x80]] else [])
  }

  function WithFrom(tx: DecodedTx, preimage: seq<byte>, yParity: nat, recover: EngineTx.Recover): Option<DecodedTx> {
    var from := recover(preimage, Value(256, tx.r), Value(256, tx.s), yParity);
    if from.None? then None else Some(tx.(from := from.value))
  }

  function DecodeLegacy(c: LaxCodec, raw: seq<byte>, recover: EngineTx.Recover): Option<DecodedTx> {
    var items := LaxList(raw);
    if items.None? then None
    else
      var tx := LegacyFields(c, items.value);
      if tx.None? then None
      else
        WithFrom(tx.value, LegacyPreimage(c, items.value, tx.value.chainId), LegacyParity(tx.value.v), recover)
  }

  function Eip1559Fields(c: LaxCodec, items: Items): Option<DecodedTx> {
    if |items| < 12 then None
    else
      var chainId, nonce, tip, maxFee := c.u64(items[0]), c.u64(items[1]), c.bytes(items[2]), c.word(items[3]);
      var gasLimit, to, value, data := c.u64(items[4]), c.address(items[5]), c.word(items[6]), c.bytes(items[7]);
      var y, r, s := c.u64(items[9]), c.word(items[10]), c.word(items[11]);
      if chainId.None? || nonce.None? || tip.None? || maxFee.None? || gasLimit.None? || to.None? || value.None?
         || data.None? || y.None? || r.None? || s.None? then None
      else Some(DecodedTx(2, Some(chainId.value), nonce.value, to.value, value.value, data.value, gasLimit.value,
                          maxFee.value, [], r.value, s.value, y.value % 256))
  }

  function Eip1559Preimage(items: Items): seq<byte>
    requires |items| >= 9
  {
    [0x02] + WrapRlpList(items[..9])
  }

  function DecodeEip1559(c: LaxCodec, payload: seq<byte>, recover: EngineTx.Recover): Option<DecodedTx> {
    var items := LaxList(payload);
    if items.None? then None
    else
      var tx := Eip1559Fields(c, items.value);
      if tx.None? then None else WithFrom(tx.value, Eip1559Preimage(items.value), tx.value.v, recover)
  }

  function DecodeEnvelope(c: LaxCodec, raw: seq<byte>, recover: EngineTx.Recover): Option<DecodedTx> {
    if raw == [] then None
    else if raw[0] >= 0xc0 then DecodeLegacy(c, raw, recover)
    else if raw[0] == 0x02 then DecodeEip1559(c, raw[1..], recover)
    else None
  }

  function DecodeAndRecover(raw: seq<byte>, recover: EngineTx.Recover): Option<DecodedTx> {
    DecodeEnvelope(Lax(), raw, recover)
  }

  // ----- the two parsers agree

  /** Every field the two results share has the same value, and the sender is the same. */
  ghost predicate SameTx(p: EngineTx.ParsedTx, q: DecodedTx) {
    && q.txType == (if p.kind.Eip155? then 0 else 2) && q.chainId == Some(p.chainId)
    && q.nonce == p.nonce && q.gasLimit == p.gasLimit && q.to == p.to && q.data == p.data && q.from == p.sender
    && |q.value| == 32 && Value(256, q.value) == p.value && |q.gasPrice| == 32 && Value(256, q.gasPrice) == p.maxFee
    && |q.r| == 32 && Value(256, q.r) == p.r && |q.s| == 32 && Value(256, q.s) == p.s
    && q.v == (if p.kind.Eip155? then p.chainId * 2 + 35 + p.yParity else p.yParity)
  }

  ghost predicate IsWord(w: Option<seq<byte>>, n: nat) {
    w.Some? && |w.value| == 32 && Value(256, w.value) == n
  }

  /** Wherever the strict decoders accept one item, the lax ones read the same value. */
  ghost predicate Agree(d: EngineTx.Decoders, c: LaxCodec, item: seq<byte>) {
    && (d.uint(item, 8).Ok? ==> c.u64(item) == Some(d.uint(item, 8).value))
    && (d.uint(item, 16).Ok? ==> IsWord(c.word(item), d.uint(item, 16).value) && c.bytes(item).Some?)
    && (d.uint(item, 32).Ok? ==> IsWord(c.word(item), d.uint(item, 32).value))
    && (d.bytes(item).Ok? ==> c.bytes(item) == Some(d.bytes(item).value))
    && (d.to(item).Ok? ==> c.address(item) == Some(d.to(item).value))
  }

  ghost predicate AllAgree(d: EngineTx.Decoders, c: LaxCodec, items: Items) {
    forall i :: 0 <= i < |items| ==> Agree(d, c, items[i])
  }

  lemma StrictAgreesWithLax(item: seq<byte>)
    ensures Agree(EngineTx.Strict(), Lax(), item)
  {
    if EngineTx.DecodeBytes(item).Ok? {
      BytesAgree(item);
    }
    if EngineTx.DecodeUint(item, 8).Ok? {
      U64Agree(item);
    }
    if EngineTx.DecodeUint(item, 16).Ok? {
      WordAgree(item, 16);
    }
    if EngineTx.DecodeUint(item, 32).Ok? {
      WordAgree(item, 32);
    }
    if EngineTx.DecodeTo(item).Ok? {
      AddressAgree(item);
    }
  }

  lemma LegacyFieldsAgree(d: EngineTx.Decoders, c: LaxCodec, items: Items)
    requires EngineTx.LegacyFields(d, items).Ok? && AllAgree(d, c, items)
    ensures LegacyFields(c, items).Some?
    ensures SameTx(EngineTx.LegacyFields(d, items).value, LegacyFields(c, items).value)
    ensures LegacyParity(LegacyFields(c, items).value.v) == EngineTx.LegacyFields(d, items).value.yParity
  {
  }

  lemma Eip1559FieldsAgree(d: EngineTx.Decoders, c: LaxCodec, items: Items)
    requires EngineTx.Eip1559Fields(d, items).Ok? && AllAgree(d, c, items)
    ensures Eip1559Fields(c, items).Some?
    ensures SameTx(EngineTx.Eip1559Fields(d, items).value, Eip1559Fields(c, items).value)
  {
  }

  /** No slice is longer than this. */
  const MAX_SLICE: nat := 0x7fff_ffff_ffff_ffff

  lemma PrefixFits(items: Items, n: nat)
    requires n <= |items| && |Concat(items)| <= MAX_SLICE
    ensures |Concat(items[..n])| <= MAX_SLICE
  {
    assert items == items[..n] + items[n..];
    ConcatSplit(items[..n], items[n..]);
  }

  lemma U64ItemLength(n: nat)
    requires n < U64
    ensures |EncodeUint(n)| <= 9
  {
    PowU64();
    DigitsLength(256, n, 8);
  }

  lemma TailPreimage(front: Items, more: Items, tail: seq<byte>, all: Items)
    requires all == front + more && Concat(more) == tail && |Concat(front)| + |tail| < U64
    ensures WrapRlpList(all) == EngineTx.ListWithTail(front, tail)
  {
    ConcatSplit(front, more);
    EngineTx.ListAsTail(all, front, tail);
    WrapsAgree(all);
  }

  /** Both sides sign the same bytes: the engine appends a raw tail, the relay three more items. */
  lemma LegacyPreimagesAgree(items: Items, chainId: nat)
    requires |items| >= 6 && |Concat(items)| <= MAX_SLICE && chainId < U64
    ensures LegacyPreimage(Lax(), items, Some(chainId))
         == EngineTx.LegacyPreimage(items, EngineTx.ReplayTail(chainId))
  {
    EncodersAgree(chainId);
    ZeroItem();
    U64ItemLength(chainId);
    PrefixFits(items, 6);
    TailItems(EncodeUint(chainId));
    var more := [EncodeUint(chainId), [0x80], [0x80]];
    TailPreimage(items[..6], more, EncodeUint(chainId) + [0x80] + [0x80], items[..6] + more);
  }

  lemma Eip1559PreimagesAgree(items: Items)
    requires |items| >= 9 && |Concat(items)| <= MAX_SLICE
    ensures Eip1559Preimage(items) == EngineTx.Eip1559Preimage(items)
  {
    PrefixFits(items, 9);
    WrapsAgree(items[..9]);
  }

  lemma ListFits(buf: seq<byte>)
    requires EngineTx.ListItems(buf).Ok? && |buf| <= MAX_SLICE
    ensures |Concat(EngineTx.ListItems(buf).value)| <= MAX_SLICE
  {
    EngineTx.ListIsWrapped(buf);
  }

  lemma U64Fits(item: seq<byte>)
    requires EngineTx.DecodeUint(item, 8).Ok?
    ensures EngineTx.DecodeUint(item, 8).value < U64
  {
    var bytes := EngineTx.DecodeBytes(item).value;
    ValueBound(256, bytes);
    PowMonotone(256, |bytes|, 8);
    PowU64();
  }

  lemma ChainIdFits(d: EngineTx.Decoders, items: Items)
    requires EngineTx.LegacyFields(d, items).Ok? && d.uint(items[6], 8).value < U64
    ensures EngineTx.LegacyFields(d, items).value.chainId < U64
  {
  }

  lemma LegacyAgree(d: EngineTx.Decoders, c: LaxCodec, raw: seq<byte>, recover: EngineTx.Recover, items: Items)
    requires EngineTx.ParseLegacy(d, raw, recover).Ok? && EngineTx.ListItems(raw) == Result.Ok(items)
    requires LaxList(raw) == Some(items) && AllAgree(d, c, items)
    requires var id := EngineTx.LegacyFields(d, items).value.chainId;
             LegacyPreimage(c, items, Some(id)) == EngineTx.LegacyPreimage(items, d.tail(id))
    ensures DecodeLegacy(c, raw, recover).Some?
    ensures SameTx(EngineTx.ParseLegacy(d, raw, recover).value, DecodeLegacy(c, raw, recover).value)
  {
    LegacyFieldsAgree(d, c, items);
  }

  lemma Eip1559Agree(d: EngineTx.Decoders, c: LaxCodec, payload: seq<byte>, recover: EngineTx.Recover, items: Items)
    requires EngineTx.ParseEip1559(d, payload, recover).Ok? && EngineTx.ListItems(payload) == Result.Ok(items)
    requires LaxList(payload) == Some(items) && AllAgree(d, c, items)
    requires Eip1559Preimage(items) == EngineTx.Eip1559Preimage(items)
    ensures DecodeEip1559(c, payload, recover).Some?
    ensures SameTx(EngineTx.ParseEip1559(d, payload, recover).value, DecodeEip1559(c, payload, recover).value)
  {
    Eip1559FieldsAgree(d, c, items);
  }

  lemma ItemsAgree(items: Items)
    ensures AllAgree(EngineTx.Strict(), Lax(), items)
  {
    forall i | 0 <= i < |items|
      ensures Agree(EngineTx.Strict(), Lax(), items[i])
    {
      StrictAgreesWithLax(items[i]);
    }
  }

  lemma RelayAcceptsLegacy(raw: seq<byte>, recover: EngineTx.Recover, items: Items)
    requires |raw| <= MAX_SLICE && EngineTx.ListItems(raw) == Result.Ok(items)
    requires EngineTx.ParseLegacy(EngineTx.Strict(), raw, recover).Ok?
    ensures DecodeLegacy(Lax(), raw, recover).Some?
    ensures SameTx(EngineTx.ParseLegacy(EngineTx.Strict(), raw, recover).value, DecodeLegacy(Lax(), raw, recover).value)
  {
    ListFits(raw);
    ListAgree(raw);
    ItemsAgree(items);
    LegacyItemCount(EngineTx.Strict(), raw, recover, items);
    U64Fits(items[6]);
    ChainIdFits(EngineTx.Strict(), items);
    LegacyPreimagesAgree(items, EngineTx.LegacyFields(EngineTx.Strict(), items).value.chainId);
    LegacyAgree(EngineTx.Strict(), Lax(), raw, recover, items);
  }

  lemma LegacyItemCount(d: EngineTx.Decoders, raw: seq<byte>, recover: EngineTx.Recover, items: Items)
    requires EngineTx.ListItems(raw) == Result.Ok(items) && EngineTx.ParseLegacy(d, raw, recover).Ok?
    ensures EngineTx.LegacyFields(d, items).Ok? && |items| == 9 && d.uint(items[6], 8).Ok?
  {
  }

  lemma RelayAcceptsEip1559(payload: seq<byte>, recover: EngineTx.Recover, items: Items)
    requires |payload| <= MAX_SLICE && EngineTx.ListItems(payload) == Result.Ok(items)
    requires EngineTx.ParseEip1559(EngineTx.Strict(), payload, recover).Ok?
    ensures DecodeEip1559(Lax(), payload, recover).Some?
    ensures SameTx(EngineTx.ParseEip1559(EngineTx.Strict(), payload, recover).value,
                   DecodeEip1559(Lax(), payload, recover).value)
  {
    ListFits(payload);
    ListAgree(payload);
    ItemsAgree(items);
    Eip1559ItemCount(EngineTx.Strict(), payload, recover, items);
    Eip1559PreimagesAgree(items);
    Eip1559Agree(EngineTx.Strict(), Lax(), payload, recover, items);
  }

  lemma Eip1559ItemCount(d: EngineTx.Decoders, payload: seq<byte>, recover: EngineTx.Recover, items: Items)
    requires EngineTx.ListItems(payload) == Result.Ok(items) && EngineTx.ParseEip1559(d, payload, recover).Ok?
    ensures |items| == 12
  {
  }

  /**
  Every raw transaction the engine accepts, the relay decodes to the same type, chain id, nonce, gas limit, fee,
  recipient, value, data, signature and parity; and since both recover from the same preimage, to the same sender.
  */
  lemma RelayAcceptsWhatEngineAccepts(raw: seq<byte>, recover: EngineTx.Recover)
    requires |raw| <= MAX_SLICE && EngineTx.ParseRawTx(raw, recover).Ok?
    ensures DecodeAndRecover(raw, recover).Some?
    ensures SameTx(EngineTx.ParseRawTx(raw, recover).value, DecodeAndRecover(raw, recover).value)
  {
    EngineTx.EnvelopeHasList(EngineTx.Strict(), raw, recover);
    if raw[0] >= 0xc0 {
      RelayAcceptsLegacy(raw, recover, EngineTx.ListItems(raw).value);
    } else {
      RelayAcceptsEip1559(raw[1..], recover, EngineTx.ListItems(raw[1..]).value);
    }
  }

  // ----- what the relay reads and whom it recovers, on any bytes

  lemma LaxListFits(buf: seq<byte>)
    requires LaxList(buf).Some? && |buf| <= MAX_SLICE
    ensures |Concat(LaxList(buf).value)| <= MAX_SLICE
  {
    var h := LaxHeader(buf).value;
    ItemsTile(LaxLength, buf[h.start..h.start + h.len]);
  }

  lemma LegacyFrom(c: LaxCodec, raw: seq<byte>, recover: EngineTx.Recover, items: Items)
    requires LaxList(raw) == Some(items) && DecodeLegacy(c, raw, recover).Some?
    ensures var tx := DecodeLegacy(c, raw, recover).value;
            var v, r, s := tx.v, Value(256, tx.r), Value(256, tx.s);
            && |items| >= 9 && (v == 27 || v == 28 || v >= 35)
            && (v < 35 ==> recover(WrapRlpList(items[..6]), r, s, v - 27) == Some(tx.from))
            && (v >= 35 ==>
                  recover(WrapRlpList(items[..6] + [c.put((v - 35) / 2), [0x80], [0x80]]), r, s, (v - 35) % 2) ==
                  Some(tx.from))
  {
    assert items[..6] + [] == items[..6];
  }

  lemma Eip1559From(c: LaxCodec, payload: seq<byte>, recover: EngineTx.Recover, items: Items)
    requires LaxList(payload) == Some(items) && DecodeEip1559(c, payload, recover).Some?
    ensures var tx := DecodeEip1559(c, payload, recover).value;
            && |items| >= 12
            && recover([0x02] + WrapRlpList(items[..9]), Value(256, tx.r), Value(256, tx.s), tx.v) == Some(tx.from)
  {
  }

  lemma LaxHasList(c: LaxCodec, raw: seq<byte>, recover: EngineTx.Recover)
    requires DecodeEnvelope(c, raw, recover).Some?
    ensures raw != [] && (raw[0] >= 0xc0 || raw[0] == 0x02)
    ensures LaxList(if raw[0] >= 0xc0 then raw else raw[1..]).Some?
  {
  }

  /**
  On any bytes at all, the sender of a decoded transaction is the one recovered from what its kind signs: the first six
  items alone before EIP-155, with the chain id and two zeros after it, and the first nine under the type byte for
  EIP-1559, each list wrapped canonically.
  */
  lemma RelaySenderIsRecovered(raw: seq<byte>, recover: EngineTx.Recover, tx: DecodedTx, items: Items)
    requires |raw| <= MAX_SLICE && DecodeAndRecover(raw, recover) == Some(tx)
    requires raw != [] && LaxList(if raw[0] >= 0xc0 then raw else raw[1..]) == Some(items)
    ensures var r, s, v := Value(256, tx.r), Value(256, tx.s), tx.v;
            if raw[0] >= 0xc0 then
              && |items| >= 9 && (v == 27 || v == 28 || v >= 35)
              && (v < 35 ==> recover(WrapList(items[..6]), r, s, v - 27) == Some(tx.from))
              && (v >= 35 ==>
                    recover(WrapList(items[..6] + [EncodeUint((v - 35) / 2), [0x80], [0x80]]), r, s, (v - 35) % 2) ==
                    Some(tx.from))
            else raw[0] == 0x02 && |items| >= 12 && recover([0x02] + WrapList(items[..9]), r, s, v) == Some(tx.from)
  {
    LaxHasList(Lax(), raw, recover);
    if raw[0] >= 0xc0 {
      LegacyRecovered(Lax(), raw, recover, tx, items);
    } else {
      Eip1559Recovered(Lax(), raw[1..], recover, tx, items);
    }
  }

  lemma LegacyRecovered(c: LaxCodec, raw: seq<byte>, recover: EngineTx.Recover, tx: DecodedTx, items: Items)
    requires c.u64 == LaxU64 && c.put == RlpEncodeU64
    requires |raw| <= MAX_SLICE && LaxList(raw) == Some(items) && DecodeLegacy(c, raw, recover) == Some(tx)
    ensures var r, s, v := Value(256, tx.r), Value(256, tx.s), tx.v;
            && |items| >= 9 && (v == 27 || v == 28 || v >= 35)
            && (v < 35 ==> recover(WrapList(items[..6]), r, s, v - 27) == Some(tx.from))
            && (v >= 35 ==>
                  recover(WrapList(items[..6] + [EncodeUint((v - 35) / 2), [0x80], [0x80]]), r, s, (v - 35) % 2) ==
                  Some(tx.from))
  {
    LegacyFrom(c, raw, recover, items);
    VFits(c, raw, recover, items);
    LegacyWraps(raw, items, tx.v);
  }

  lemma LegacyWraps(raw: seq<byte>, items: Items, v: nat)
    requires |raw| <= MAX_SLICE && LaxList(raw) == Some(items) && |items| >= 6 && v < U64
    ensures WrapRlpList(items[..6]) == WrapList(items[..6])
    ensures v >= 35 ==> WrapRlpList(items[..6] + [RlpEncodeU64((v - 35) / 2), [0x80], [0x80]]) ==
                        WrapList(items[..6] + [EncodeUint((v - 35) / 2), [0x80], [0x80]])
  {
    LaxListFits(raw);
    PrefixFits(items, 6);
    WrapsAgree(items[..6]);
    if v >= 35 {
      ChainWraps(items[..6], (v - 35) / 2);
    }
  }

  lemma Eip1559Recovered(c: LaxCodec, payload: seq<byte>, recover: EngineTx.Recover, tx: DecodedTx, items: Items)
    requires |payload| <= MAX_SLICE && LaxList(payload) == Some(items) && DecodeEip1559(c, payload, recover) == Some(tx)
    ensures |items| >= 12
    ensures recover([0x02] + WrapList(items[..9]), Value(256, tx.r), Value(256, tx.s), tx.v) == Some(tx.from)
  {
    Eip1559From(c, payload, recover, items);
    LaxListFits(payload);
    PrefixFits(items, 9);
    WrapsAgree(items[..9]);
  }

  lemma ChainWraps(front: Items, chainId: nat)
    requires |Concat(front)| <= MAX_SLICE && chainId < U64
    ensures WrapRlpList(front + [RlpEncodeU64(chainId), [0x80], [0x80]]) ==
            WrapList(front + [EncodeUint(chainId), [0x80], [0x80]])
  {
    var more := [EncodeUint(chainId), [0x80], [0x80]];
    EncodersAgree(chainId);
    U64ItemLength(chainId);
    TailItems(EncodeUint(chainId));
    ConcatSplit(front, more);
    WrapsAgree(front + more);
  }

  lemma VFits(c: LaxCodec, raw: seq<byte>, recover: EngineTx.Recover, items: Items)
    requires c.u64 == LaxU64 && LaxList(raw) == Some(items) && DecodeLegacy(c, raw, recover).Some?
    ensures DecodeLegacy(c, raw, recover).value.v < U64
  {
    U64Bounded(items[6]);
  }

  /** Which item each field is read from, for either kind and on any bytes. */
  lemma RelayFieldsAre(raw: seq<byte>, recover: EngineTx.Recover, tx: DecodedTx, items: Items)
    requires DecodeAndRecover(raw, recover) == Some(tx)
    requires raw != [] && LaxList(if raw[0] >= 0xc0 then raw else raw[1..]) == Some(items)
    ensures if raw[0] >= 0xc0 then
              && |items| >= 9 && tx.txType == 0
              && LaxU64(items[0]) == Some(tx.nonce) && LaxWord(items[1]) == Some(tx.gasPrice)
              && LaxU64(items[2]) == Some(tx.gasLimit) && LaxAddress(items[3]) == Some(tx.to)
              && LaxWord(items[4]) == Some(tx.value) && LaxBytes(items[5]) == Some(tx.data)
              && LaxU64(items[6]) == Some(tx.v) && LaxWord(items[7]) == Some(tx.r) && LaxWord(items[8]) == Some(tx.s)
              && tx.chainId == if tx.v < 35 then None else Some((tx.v - 35) / 2)
            else
              && |items| >= 12 && tx.txType == 2
              && LaxU64(items[0]) == tx.chainId && LaxU64(items[1]) == Some(tx.nonce)
              && LaxWord(items[3]) == Some(tx.gasPrice) && LaxU64(items[4]) == Some(tx.gasLimit)
              && LaxAddress(items[5]) == Some(tx.to) && LaxWord(items[6]) == Some(tx.value)
              && LaxBytes(items[7]) == Some(tx.data) && LaxU64(items[9]).Some? && tx.v == LaxU64(items[9]).value % 256
              && LaxWord(items[10]) == Some(tx.r) && LaxWord(items[11]) == Some(tx.s)
  {
    LaxHasList(Lax(), raw, recover);
    FieldsOfKind(Lax(), raw, recover, tx, items);
  }

  lemma FieldsOfKind(c: LaxCodec, raw: seq<byte>, recover: EngineTx.Recover, tx: DecodedTx, items: Items)
    requires DecodeEnvelope(c, raw, recover) == Some(tx)
    requires raw != [] && LaxList(if raw[0] >= 0xc0 then raw else raw[1..]) == Some(items)
    ensures if raw[0] >= 0xc0 then
              && |items| >= 9 && tx.txType == 0
              && c.u64(items[0]) == Some(tx.nonce) && c.word(items[1]) == Some(tx.gasPrice)
              && c.u64(items[2]) == Some(tx.gasLimit) && c.address(items[3]) == Some(tx.to)
              && c.word(items[4]) == Some(tx.value) && c.bytes(items[5]) == Some(tx.data)
              && c.u64(items[6]) == Some(tx.v) && c.word(items[7]) == Some(tx.r) && c.word(items[8]) == Some(tx.s)
              && tx.chainId == if tx.v < 35 then None else Some((tx.v - 35) / 2)
            else
              && |items| >= 12 && tx.txType == 2
              && c.u64(items[0]) == tx.chainId && c.u64(items[1]) == Some(tx.nonce)
              && c.word(items[3]) == Some(tx.gasPrice) && c.u64(items[4]) == Some(tx.gasLimit)
              && c.address(items[5]) == Some(tx.to) && c.word(items[6]) == Some(tx.value)
              && c.bytes(items[7]) == Some(tx.data) && c.u64(items[9]).Some? && tx.v == c.u64(items[9]).value % 256
              && c.word(items[10]) == Some(tx.r) && c.word(items[11]) == Some(tx.s)
  {
  }

  /** The items that a legacy transaction is read from all decode. */
  predicate LegacyReadable(c: LaxCodec, items: Items) {
    && |items| >= 9 && c.u64(items[0]).Some? && c.word(items[1]).Some? && c.u64(items[2]).Some?
    && c.address(items[3]).Some? && c.word(items[4]).Some? && c.bytes(items[5]).Some? && c.u64(items[6]).Some?
    && c.word(items[7]).Some? && c.word(items[8]).Some?
  }

  predicate Eip1559Readable(c: LaxCodec, items: Items) {
    && |items| >= 12 && c.u64(items[0]).Some? && c.u64(items[1]).Some? && c.bytes(items[2]).Some?
    && c.word(items[3]).Some? && c.u64(items[4]).Some? && c.address(items[5]).Some? && c.word(items[6]).Some?
    && c.bytes(items[7]).Some? && c.u64(items[9]).Some? && c.word(items[10]).Some? && c.word(items[11]).Some?
  }

  lemma LegacyDecodes(c: LaxCodec, raw: seq<byte>, recover: EngineTx.Recover, items: Items)
    requires LaxList(raw) == Some(items)
    ensures DecodeLegacy(c, raw, recover).Some? <==>
              && LegacyReadable(c, items)
              && var v, r, s := c.u64(items[6]).value, c.word(items[7]).value, c.word(items[8]).value;
                 && (v == 27 || v == 28 || v >= 35)
                 && (if v < 35 then recover(WrapRlpList(items[..6]), Value(256, r), Value(256, s), v - 27)
                     else recover(WrapRlpList(items[..6] + [c.put((v - 35) / 2), [0x80], [0x80]]), Value(256, r),
                                  Value(256, s), (v - 35) % 2)).Some?
  {
    if |items| >= 6 {
      assert items[..6] + [] == items[..6];
    }
  }

  /** A legacy list is taken: it decodes, v is one of those known, and what its kind signs recovers. */
  predicate TakesLegacy(c: LaxCodec, items: Items, recover: EngineTx.Recover) {
    && LegacyReadable(c, items)
    && var v, r, s := c.u64(items[6]).value, c.word(items[7]).value, c.word(items[8]).value;
       && (v == 27 || v == 28 || v >= 35)
       && (if v < 35 then recover(WrapList(items[..6]), Value(256, r), Value(256, s), v - 27)
           else recover(WrapList(items[..6] + [EncodeUint((v - 35) / 2), [0x80], [0x80]]), Value(256, r), Value(256, s),
                        (v - 35) % 2)).Some?
  }

  predicate TakesEip1559(c: LaxCodec, items: Items, recover: EngineTx.Recover) {
    && Eip1559Readable(c, items)
    && recover([0x02] + WrapList(items[..9]), Value(256, c.word(items[10]).value), Value(256, c.word(items[11]).value),
               c.u64(items[9]).value % 256).Some?
  }

  lemma LegacyTaken(c: LaxCodec, raw: seq<byte>, recover: EngineTx.Recover, items: Items)
    requires c.u64 == LaxU64 && c.put == RlpEncodeU64 && |raw| <= MAX_SLICE && LaxList(raw) == Some(items)
    ensures DecodeLegacy(c, raw, recover).Some? <==> TakesLegacy(c, items, recover)
  {
    LegacyDecodes(c, raw, recover, items);
    if LegacyReadable(c, items) {
      U64Bounded(items[6]);
      LegacyWraps(raw, items, c.u64(items[6]).value);
    }
  }

  lemma U64Bounded(item: seq<byte>)
    requires LaxU64(item).Some?
    ensures LaxU64(item).value < U64
  {
    var bytes := LaxBytes(item).value;
    ValueBound(256, bytes);
    PowMonotone(256, |bytes|, 8);
    PowU64();
  }

  lemma Eip1559Taken(c: LaxCodec, payload: seq<byte>, recover: EngineTx.Recover, items: Items)
    requires |payload| <= MAX_SLICE && LaxList(payload) == Some(items)
    ensures DecodeEip1559(c, payload, recover).Some? <==> TakesEip1559(c, items, recover)
  {
    if |items| >= 9 {
      LaxListFits(payload);
      PrefixFits(items, 9);
      WrapsAgree(items[..9]);
    }
  }

  lemma EnvelopeTakes(c: LaxCodec, raw: seq<byte>, recover: EngineTx.Recover, items: Items)
    requires c.u64 == LaxU64 && c.put == RlpEncodeU64
    requires |raw| <= MAX_SLICE && raw != [] && LaxList(if raw[0] >= 0xc0 then raw else raw[1..]) == Some(items)
    ensures DecodeEnvelope(c, raw, recover).Some? <==>
              if raw[0] >= 0xc0 then TakesLegacy(c, items, recover) else raw[0] == 0x02 && TakesEip1559(c, items, recover)
  {
    if raw[0] >= 0xc0 {
      LegacyTaken(c, raw, recover, items);
    } else if raw[0] == 0x02 {
      Eip1559Taken(c, raw[1..], recover, items);
    }
  }

  /** On any bytes, when the relay takes a transaction of either kind. */
  lemma RelayTakesExactlyWhen(raw: seq<byte>, recover: EngineTx.Recover, items: Items)
    requires |raw| <= MAX_SLICE && raw != [] && LaxList(if raw[0] >= 0xc0 then raw else raw[1..]) == Some(items)
    ensures DecodeAndRecover(raw, recover).Some? <==>
              if raw[0] >= 0xc0 then TakesLegacy(Lax(), items, recover)
              else raw[0] == 0x02 && TakesEip1559(Lax(), items, recover)
  {
    EnvelopeTakes(Lax(), raw, recover, items);
  }

  /** Without a list nothing is taken. */
  lemma NoListNoTransaction(raw: seq<byte>, recover: EngineTx.Recover)
    requires raw == [] || LaxList(if raw[0] >= 0xc0 then raw else raw[1..]).None?
    ensures DecodeAndRecover(raw, recover).None?
  {
    if DecodeEnvelope(Lax(), raw, recover).Some? {
      LaxHasList(Lax(), raw, recover);
    }
  }
}
