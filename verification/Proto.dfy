/**
The two protobuf codecs: the engine's (strict varints, default values skipped on writing, iteration ends at the first
malformed field) and the relay's (lax varints, nothing skipped, malformed fields reported and stepped over).
*/
module Proto {
  import opened Common
  import opened Radix

  const U32: nat := 0x1_0000_0000

  datatype Value = Varint(n: nat) | Bytes(b: seq<byte>)

  datatype Field = Field(number: nat, value: Value)

  // ----- varints

  function EncodeVarint(n: nat): (r: seq<byte>)
    ensures r != []
  {
    if n < 128 then [n] else [n % 128 + 128] + EncodeVarint(n / 128)
  }

  /** What reading a varint comes to: its value if it is well formed, and how many bytes were consumed. */
  datatype Scan = Scan(value: Option<nat>, used: nat)

  /** The engine's reader, at the `i`-th byte: at most ten bytes, and only one bit in the tenth. */
  function StrictVarint(data: seq<byte>, i: nat): (r: Scan)
    ensures r.used <= |data| && (r.value.Some? ==> r.used > 0)
  {
    if data == [] || i >= 10 || (i == 9 && data[0] % 128 > 1) then Scan(None, 0)
    else if data[0] < 128 then Scan(Some(data[0]), 1)
    else
      var rest := StrictVarint(data[1..], i + 1);
      if rest.value.None? then Scan(None, 0)
      else Scan(Some(data[0] % 128 + 128 * rest.value.value), rest.used + 1)
  }

  /** The relay's reader: the tenth byte is cut down to one bit instead of being refused. */
  function LaxVarint(data: seq<byte>, i: nat): (r: Scan)
    ensures r.used <= |data| && (data != [] ==> r.used > 0)
  {
    if data == [] then Scan(None, 0)
    else
      var bits := if i >= 9 then data[0] % 2 else data[0] % 128;
      if data[0] < 128 then Scan(Some(bits), 1)
      else if i >= 9 then Scan(None, 1)
      else
        var rest := LaxVarint(data[1..], i + 1);
        if rest.value.None? then Scan(None, rest.used + 1)
        else Scan(Some(bits + 128 * rest.value.value), rest.used + 1)
  }

  /** A varint the engine accepts decodes to the same value over the same bytes in the relay. */
  lemma {:induction false} EngineVarintReadsInRelay(data: seq<byte>, i: nat)
    requires StrictVarint(data, i).value.Some?
    ensures LaxVarint(data, i) == StrictVarint(data, i)
  {
    if data[0] >= 128 {
      EngineVarintReadsInRelay(data[1..], i + 1);
    }
  }

  lemma Pow128()
    ensures Pow(128, 9) == 0x8000_0000_0000_0000
  {
    assert Pow(128, 3) == 0x20_0000;
    assert Pow(128, 6) == 128 * 128 * 128 * Pow(128, 3);
    assert Pow(128, 9) == 128 * 128 * 128 * Pow(128, 6);
  }

  lemma TooWide(n: nat, i: nat)
    requires n > 0 && (i >= 10 || (i == 9 && n >= 2))
    ensures n * Pow(128, i) >= U64
  {
    Pow128();
    if i >= 10 {
      PowMonotone(128, 10, i);
      assert Pow(128, 10) == 128 * Pow(128, 9);
      Scale(Pow(128, i), 1, n);
    } else {
      Scale(Pow(128, 9), 2, n);
    }
  }

  lemma LastByte(n: nat, i: nat)
    requires n * Pow(128, i) < U64 && n > 0
    ensures i <= 9 && (i == 9 ==> n == 1)
  {
    if i >= 10 || (i == 9 && n >= 2) {
      TooWide(n, i);
    }
  }

  lemma Shifted(n: nat, i: nat)
    requires n * Pow(128, i) < U64
    ensures (n / 128) * Pow(128, i + 1) < U64
  {
    var p := Pow(128, i);
    DivMod(n, 128);
    Scale(p, (n / 128) * 128, n);
    assert (n / 128) * (128 * p) == p * ((n / 128) * 128);
  }

  lemma StrictContinues(n: nat, i: nat, tail: seq<byte>, used: nat)
    requires n >= 128 && i < 9 && StrictVarint(tail, i + 1) == Scan(Some(n / 128), used)
    ensures StrictVarint([n % 128 + 128] + tail, i) == Scan(Some(n), used + 1)
  {
    var data := [n % 128 + 128] + tail;
    assert data[1..] == tail && data[0] % 128 == n % 128;
  }

  /** Both readers take back what the encoder wrote, and exactly that. */
  lemma {:induction false} VarintRoundTrip(n: nat, i: nat, rest: seq<byte>)
    requires n * Pow(128, i) < U64 && i <= 9
    ensures StrictVarint(EncodeVarint(n) + rest, i) == Scan(Some(n), |EncodeVarint(n)|)
    ensures LaxVarint(EncodeVarint(n) + rest, i) == Scan(Some(n), |EncodeVarint(n)|)
    decreases n
  {
    if n > 0 {
      LastByte(n, i);
    }
    if n >= 128 {
      var more := EncodeVarint(n / 128);
      Shifted(n, i);
      VarintRoundTrip(n / 128, i + 1, rest);
      StrictContinues(n, i, more + rest, |more|);
      SeqAssoc([n % 128 + 128], more, rest);
    }
    EngineVarintReadsInRelay(EncodeVarint(n) + rest, i);
  }

  lemma {:induction false} StrictIsShort(data: seq<byte>, i: nat)
    requires StrictVarint(data, i).value.Some?
    ensures StrictVarint(data, i).used + i <= 10
    decreases |data|
  {
    if data[0] >= 128 {
      StrictIsShort(data[1..], i + 1);
    }
  }

  lemma VarintIsShort(n: nat)
    requires n < U64
    ensures |EncodeVarint(n)| <= 10
  {
    VarintRoundTrip(n, 0, []);
    StrictIsShort(EncodeVarint(n) + [], 0);
  }

  // ----- the varint loops

  /** The engine's writer. */
  method PushVarint(buf: seq<byte>, value: nat) returns (out: seq<byte>)
    ensures out == buf + EncodeVarint(value)
  {
    out := buf;
    var v := value;
    while true
      invariant v >= 0 && out + EncodeVarint(v) == buf + EncodeVarint(value)
      decreases v
    {
      var b := v % 128;
      if v / 128 == 0 {
        out := out + [b];
        return;
      }
      out := out + [b + 128];
      v := v / 128;
    }
  }

  /** The relay's writer. */
  method WriteVarint(buf: seq<byte>, value: nat) returns (out: seq<byte>)
    ensures out == buf + EncodeVarint(value)
  {
    out := buf;
    var n := value;
    while n >= 128
      invariant n >= 0 && out + EncodeVarint(n) == buf + EncodeVarint(value)
    {
      out := out + [n % 128 + 128];
      n := n / 128;
    }
    out := out + [n];
  }

  /** With `i` continuation bytes read, the remaining data decide the outcome `all`. */
  ghost predicate StrictResumes(all: Scan, rest: seq<byte>, i: nat, result: nat) {
    var r := StrictVarint(rest, i);
    if r.value.None? then all.value.None? else all == Scan(Some(result + r.value.value * Pow(128, i)), i + r.used)
  }

  ghost predicate LaxResumes(all: Scan, rest: seq<byte>, i: nat, result: nat) {
    var r := LaxVarint(rest, i);
    if r.value.None? then all == Scan(None, i + r.used)
    else all == Scan(Some(result + r.value.value * Pow(128, i)), i + r.used)
  }

  lemma Accumulate(result: nat, bits: nat, v: nat, p: nat)
    ensures result + (bits + 128 * v) * p == (result + bits * p) + v * (128 * p)
  {
  }

  lemma StrictStep(all: Scan, rest: seq<byte>, i: nat, result: nat)
    requires rest != [] && i < 10 && !(i == 9 && rest[0] % 128 > 1) && StrictResumes(all, rest, i, result)
    ensures var result' := result + rest[0] % 128 * Pow(128, i);
            if rest[0] < 128 then all == Scan(Some(result'), i + 1) else StrictResumes(all, rest[1..], i + 1, result')
  {
    var r := StrictVarint(rest[1..], i + 1);
    if rest[0] >= 128 && r.value.Some? {
      Accumulate(result, rest[0] % 128, r.value.value, Pow(128, i));
    }
  }

  lemma LaxStep(all: Scan, rest: seq<byte>, i: nat, result: nat)
    requires rest != [] && i < 10 && LaxResumes(all, rest, i, result)
    ensures var result' := result + (if i == 9 then rest[0] % 2 else rest[0] % 128) * Pow(128, i);
            if rest[0] < 128 then all == Scan(Some(result'), i + 1)
            else if i == 9 then all == Scan(None, 10)
            else LaxResumes(all, rest[1..], i + 1, result')
  {
    if rest[0] >= 128 && i < 9 {
      var r := LaxVarint(rest[1..], i + 1);
      if r.value.Some? {
        Accumulate(result, rest[0] % 128, r.value.value, Pow(128, i));
      }
    }
  }

  /** The engine's reader, adding payload bits above the ones read so far. */
  method ReadVarintStrict(data: seq<byte>) returns (r: Option<(nat, nat)>)
    ensures r.Some? <==> StrictVarint(data, 0).value.Some?
    ensures r.Some? ==> StrictVarint(data, 0) == Scan(Some(r.value.0), r.value.1)
  {
    ghost var all := StrictVarint(data, 0);
    var result: nat, scale: nat, rest := 0, 1, data;
    for i := 0 to |data|
      invariant i <= 10 && scale == Pow(128, i) && |rest| == |data| - i
      invariant StrictResumes(all, rest, i, result)
    {
      if i >= 10 {
        return None;
      }
      var payload := rest[0] % 128;
      if i == 9 && payload > 1 {
        return None;
      }
      StrictStep(all, rest, i, result);
      result := result + payload * scale;
      scale := 128 * scale;
      if rest[0] < 128 {
        return Some((result, i + 1));
      }
      rest := rest[1..];
    }
    return None;
  }

  /** The bits that a byte adds, cut down to the last one that fits a `u64`. */
  function LaxBits(b: byte, i: nat): nat { if i == 9 then b % 2 else b % 128 }

  lemma NatProduct(a: nat, b: nat)
    ensures a * b >= 0
  {
  }

  /** One turn of the relay's reader, for the value `val'` it comes to. */
  lemma LaxTurn(all: Scan, rest: seq<byte>, i: nat, val: nat, val': nat)
    requires rest != [] && i <= 9 && LaxResumes(all, rest, i, val) && val' == val + LaxBits(rest[0], i) * Pow(128, i)
    ensures rest[0] < 128 ==> all == Scan(Some(val'), i + 1)
    ensures rest[0] >= 128 && i == 9 ==> all == Scan(None, 10)
    ensures rest[0] >= 128 && i < 9 ==> LaxResumes(all, rest[1..], i + 1, val')
  {
    LaxStep(all, rest, i, val);
  }

  /** The relay's reader; a shifted byte keeps only the bits that fit a `u64`. */
  method ReadVarintLax(data: seq<byte>) returns (r: Scan)
    ensures r == LaxVarint(data, 0)
  {
    ghost var all := LaxVarint(data, 0);
    var val: nat, scale: nat, i: nat, rest := 0, 1, 0, data;
    while true
      invariant i <= 9 && scale == Pow(128, i) && LaxResumes(all, rest, i, val)
      decreases |rest|
    {
      if rest == [] {
        return Scan(None, i);
      }
      var b := rest[0];
      NatProduct(LaxBits(b, i), scale);
      var val' := val + LaxBits(b, i) * scale;
      LaxTurn(all, rest, i, val, val');
      if b < 128 {
        return Scan(Some(val'), i + 1);
      }
      if i == 9 {
        return Scan(None, i + 1);
      }
      val, i, scale, rest := val', i + 1, 128 * scale, rest[1..];
    }
  }

  // ----- fields

  function Wire(v: Value): nat { if v.Varint? then 0 else 2 }

  /** A field as both codecs lay it out. */
  function RawField(f: Field): seq<byte> {
    EncodeVarint(f.number * 8 + Wire(f.value)) +
    match f.value
    case Varint(n) => EncodeVarint(n)
    case Bytes(b) => EncodeVarint(|b|) + b
  }

  lemma ShortField(f: Field)
    requires f.number < U32 && match f.value case Varint(n) => n < U64 case Bytes(b) => |b| <= 32
    ensures |RawField(f)| <= 52
  {
    VarintIsShort(f.number * 8 + Wire(f.value));
    VarintIsShort(match f.value case Varint(n) => n case Bytes(b) => |b|);
  }

  predicate IsDefault(v: Value) { v == Varint(0) || v == Bytes([]) }

  /** The engine's field writers skip default values. */
  function EngineField(f: Field): seq<byte> { if IsDefault(f.value) then [] else RawField(f) }

  function Print(field: Field -> seq<byte>, fs: seq<Field>): seq<byte> {
    if fs == [] then [] else field(fs[0]) + Print(field, fs[1..])
  }

  function RawAll(fs: seq<Field>): seq<byte> { Print(RawField, fs) }

  function EngineAll(fs: seq<Field>): seq<byte> { Print(EngineField, fs) }

  lemma {:induction false} PrintConcat(field: Field -> seq<byte>, p: seq<Field>, q: seq<Field>)
    ensures Print(field, p + q) == Print(field, p) + Print(field, q)
  {
    if p == [] {
      assert p + q == q && Print(field, p) + Print(field, q) == Print(field, q);
    } else {
      assert (p + q)[1..] == p[1..] + q;
      PrintConcat(field, p[1..], q);
      SeqAssoc(field(p[0]), Print(field, p[1..]), Print(field, q));
    }
  }

  lemma PrintOne(field: Field -> seq<byte>, f: Field)
    ensures Print(field, [f]) == field(f)
  {
    assert [f][1..] == [];
    assert field(f) + [] == field(f);
  }

  lemma SeqAssoc<T>(a: seq<T>, b: seq<T>, c: seq<T>)
    ensures a + (b + c) == a + b + c
  {
  }

  function NonDefault(fs: seq<Field>): seq<Field> {
    if fs == [] then [] else (if IsDefault(fs[0].value) then [] else [fs[0]]) + NonDefault(fs[1..])
  }

  /** What follows a tag, for a reader of varints: the value and the bytes consumed. */
  function Body(read: seq<byte> -> Scan, wire: nat, rest: seq<byte>): (Option<Value>, nat) {
    var r := read(rest);
    if r.value.None? || r.used > |rest| then (None, r.used)
    else if wire == 0 then (Some(Varint(r.value.value)), r.used)
    else if r.value.value > |rest| - r.used then (None, r.used)
    else (Some(Bytes(rest[r.used..r.used + r.value.value])), r.used + r.value.value)
  }

  function ReadStrict(data: seq<byte>): Scan { StrictVarint(data, 0) }

  function ReadLax(data: seq<byte>): Scan { LaxVarint(data, 0) }

  /** The engine's iterator: the next field and its length, or None when iteration ends. */
  function NextStrictWith(read: seq<byte> -> Scan, data: seq<byte>): Option<(Field, nat)> {
    var t := read(data);
    if t.value.None? || !(0 < t.used <= |data|) then None
    else
      var number, wire := t.value.value / 8, t.value.value % 8;
      if number == 0 || number >= U32 || (wire != 0 && wire != 2) then None
      else
        var (v, used) := Body(read, wire, data[t.used..]);
        if v.None? then None else Some((Field(number, v.value), t.used + used))
  }

  function StrictNext(data: seq<byte>): Option<(Field, nat)> { NextStrictWith(ReadStrict, data) }

  function FieldsBy(next: seq<byte> -> Option<(Field, nat)>, data: seq<byte>): seq<Field>
    decreases |data|
  {
    if data == [] then []
    else
      var r := next(data);
      if r.None? || !(0 < r.value.1 <= |data|) then [] else [r.value.0] + FieldsBy(next, data[r.value.1..])
  }

  function StrictFields(data: seq<byte>): seq<Field> { FieldsBy(StrictNext, data) }

  /** The relay's next field or an error and how far the position moves either way, if positions had no limit. */
  function NextLaxWith(read: seq<byte> -> Scan, data: seq<byte>): (Option<Field>, nat) {
    var t := read(data);
    if t.value.None? || t.used > |data| then (None, t.used)
    else
      var number, wire := t.value.value / 8 % U32, t.value.value % 8;
      if wire != 0 && wire != 2 then (None, t.used)
      else
        var (v, used) := Body(read, wire, data[t.used..]);
        (if v.None? then None else Some(Field(number, v.value)), t.used + used)
  }

  function LaxNext(data: seq<byte>): (Option<Field>, nat) { NextLaxWith(ReadLax, data) }

  /** Where a length-delimited field at `pos` claims to end: the position after its length plus that length. */
  function ClaimedEnd(read: seq<byte> -> Scan, pos: nat, data: seq<byte>): Option<nat> {
    var t := read(data);
    if t.value.None? || t.used > |data| || t.value.value % 8 != 2 then None
    else
      var l := read(data[t.used..]);
      if l.value.None? then None else Some(pos + t.used + l.used + l.value.value)
  }

  /** The relay's iterator panics on a field that claims to end beyond the 64-bit positions. */
  predicate Overruns(read: seq<byte> -> Scan, pos: nat, data: seq<byte>) {
    var end := ClaimedEnd(read, pos, data);
    end.Some? && end.value >= U64
  }

  datatype Item = Yield(field: Field) | Malformed | Overrun

  /** The relay's iterator at `pos`, with `data` left: the item it comes to and how far it moves. */
  function LaxItemWith(read: seq<byte> -> Scan, pos: nat, data: seq<byte>): (Item, nat) {
    if Overruns(read, pos, data) then (Overrun, 0)
    else
      var (f, used) := NextLaxWith(read, data);
      (if f.None? then Malformed else Yield(f.value), used)
  }

  function LaxItem(pos: nat, data: seq<byte>): (Item, nat) { LaxItemWith(ReadLax, pos, data) }

  function LaxItemsBy(next: (nat, seq<byte>) -> (Item, nat), pos: nat, data: seq<byte>): seq<Item>
    decreases |data|
  {
    if data == [] then []
    else
      var (item, used) := next(pos, data);
      [item] + if item.Overrun? || !(0 < used <= |data|) then [] else LaxItemsBy(next, pos + used, data[used..])
  }

  /** What the relay's iterator comes to on a whole buffer; a panic ends it. */
  function LaxItems(data: seq<byte>): seq<Item> { LaxItemsBy(LaxItem, 0, data) }

  lemma LaxNextMoves(data: seq<byte>)
    requires data != []
    ensures 0 < LaxNext(data).1 <= |data|
  {
  }

  /** Unless it panics, the relay's position always moves, so that its iteration ends. */
  lemma LaxItemMoves(pos: nat, data: seq<byte>)
    requires data != [] && !LaxItem(pos, data).0.Overrun?
    ensures 0 < LaxItem(pos, data).1 <= |data|
  {
    LaxNextMoves(data);
  }

  predicate ValidField(f: Field) {
    && 1 <= f.number < U32
    && match f.value
       case Varint(n) => n < U64
       case Bytes(b) => |b| < U64
  }

  /** Reading what `EncodeVarint` wrote for any `u64`, whatever follows. */
  ghost predicate ReadsVarints(read: seq<byte> -> Scan) {
    forall n: nat, rest: seq<byte> | n < U64 :: read(EncodeVarint(n) + rest) == Scan(Some(n), |EncodeVarint(n)|)
  }

  lemma BothReadVarints()
    ensures ReadsVarints(ReadStrict) && ReadsVarints(ReadLax)
  {
    forall n: nat, rest: seq<byte> | n < U64
      ensures ReadStrict(EncodeVarint(n) + rest) == Scan(Some(n), |EncodeVarint(n)|)
      ensures ReadLax(EncodeVarint(n) + rest) == Scan(Some(n), |EncodeVarint(n)|)
    {
      VarintRoundTrip(n, 0, rest);
    }
  }

  lemma BodyReads(read: seq<byte> -> Scan, v: Value, rest: seq<byte>)
    requires ReadsVarints(read) && ValidField(Field(1, v))
    ensures match v
            case Varint(n) => Body(read, 0, EncodeVarint(n) + rest) == (Some(v), |EncodeVarint(n)|)
            case Bytes(b) => Body(read, 2, EncodeVarint(|b|) + b + rest) == (Some(v), |EncodeVarint(|b|)| + |b|)
  {
    match v
    case Varint(n) =>
    case Bytes(b) =>
      var data := EncodeVarint(|b|) + b + rest;
      assert data == EncodeVarint(|b|) + (b + rest);
      assert data[|EncodeVarint(|b|)|..|EncodeVarint(|b|)| + |b|] == b;
  }

  function BodyBytes(v: Value): seq<byte> {
    match v
    case Varint(n) => EncodeVarint(n)
    case Bytes(b) => EncodeVarint(|b|) + b
  }

  lemma TagParts(number: nat, wire: nat)
    requires wire < 8
    ensures (number * 8 + wire) / 8 == number && (number * 8 + wire) % 8 == wire
  {
  }

  lemma TagAndBody(tag: seq<byte>, body: seq<byte>, rest: seq<byte>)
    ensures tag + body + rest == tag + (body + rest) && (tag + (body + rest))[|tag|..] == body + rest
  {
  }

  lemma NextOfRaw(read: seq<byte> -> Scan, f: Field, rest: seq<byte>, data: seq<byte>)
    requires ReadsVarints(read) && ValidField(f) && data == RawField(f) + rest
    ensures NextStrictWith(read, data) == Some((f, |RawField(f)|))
    ensures NextLaxWith(read, data) == (Some(f), |RawField(f)|)
  {
    var tag, body := f.number * 8 + Wire(f.value), BodyBytes(f.value);
    TagParts(f.number, Wire(f.value));
    TagAndBody(EncodeVarint(tag), body, rest);
    assert read(data) == Scan(Some(tag), |EncodeVarint(tag)|);
    BodyReads(read, f.value, rest);
  }

  lemma EndOfRaw(read: seq<byte> -> Scan, pos: nat, f: Field, rest: seq<byte>, data: seq<byte>)
    requires ReadsVarints(read) && ValidField(f) && data == RawField(f) + rest
    ensures ClaimedEnd(read, pos, data) == if f.value.Varint? then None else Some(pos + |RawField(f)|)
  {
    var tag, body := f.number * 8 + Wire(f.value), BodyBytes(f.value);
    TagParts(f.number, Wire(f.value));
    TagAndBody(EncodeVarint(tag), body, rest);
    assert read(data) == Scan(Some(tag), |EncodeVarint(tag)|);
    if f.value.Bytes? {
      TagAndBody(EncodeVarint(|f.value.b|), f.value.b, rest);
    }
  }

  lemma ItemOfRaw(pos: nat, f: Field, rest: seq<byte>)
    requires ReadsVarints(ReadLax) && ValidField(f) && pos + |RawField(f) + rest| < U64
    ensures LaxItem(pos, RawField(f) + rest) == (Yield(f), |RawField(f)|)
  {
    NextOfRaw(ReadLax, f, rest, RawField(f) + rest);
    EndOfRaw(ReadLax, pos, f, rest, RawField(f) + rest);
  }

  function Yields(fs: seq<Field>): seq<Item> {
    seq(|fs|, i requires 0 <= i < |fs| => Yield(fs[i]))
  }

  lemma RawNotEmpty(f: Field)
    ensures RawField(f) != []
  {
  }

  lemma {:induction false} FieldsByPrinted(field: Field -> seq<byte>, next: seq<byte> -> Option<(Field, nat)>,
                                           fs: seq<Field>)
    requires forall f | f in fs :: field(f) != []
    requires forall f, rest | f in fs :: next(field(f) + rest) == Some((f, |field(f)|))
    ensures FieldsBy(next, Print(field, fs)) == fs
  {
    if fs != [] {
      var data, n := Print(field, fs), |field(fs[0])|;
      assert next(data) == Some((fs[0], n));
      assert data[n..] == Print(field, fs[1..]);
      FieldsByPrinted(field, next, fs[1..]);
    }
  }

  lemma {:induction false} LaxItemsByPrinted(field: Field -> seq<byte>, next: (nat, seq<byte>) -> (Item, nat),
                                             pos: nat, fs: seq<Field>)
    requires forall f | f in fs :: field(f) != []
    requires forall p: nat, f, rest | f in fs && p + |field(f) + rest| < U64 ::
               next(p, field(f) + rest) == (Yield(f), |field(f)|)
    requires pos + |Print(field, fs)| < U64
    ensures LaxItemsBy(next, pos, Print(field, fs)) == Yields(fs)
    decreases |fs|
  {
    if fs != [] {
      var data, n := Print(field, fs), |field(fs[0])|;
      assert next(pos, data) == (Yield(fs[0]), n);
      assert data[n..] == Print(field, fs[1..]);
      LaxItemsByPrinted(field, next, pos + n, fs[1..]);
      assert Yields(fs) == [Yield(fs[0])] + Yields(fs[1..]);
    }
  }

  /** A field list laid out field after field is read back by either iterator, without an error. */
  lemma FieldsOfRaw(fs: seq<Field>)
    requires (forall i :: 0 <= i < |fs| ==> ValidField(fs[i])) && |RawAll(fs)| < U64
    ensures StrictFields(RawAll(fs)) == fs
    ensures LaxItems(RawAll(fs)) == Yields(fs)
  {
    BothReadVarints();
    forall f | f in fs
      ensures RawField(f) != []
    {
      RawNotEmpty(f);
    }
    forall f, rest | f in fs
      ensures StrictNext(RawField(f) + rest) == Some((f, |RawField(f)|))
    {
      NextOfRaw(ReadStrict, f, rest, RawField(f) + rest);
    }
    forall p: nat, f, rest | f in fs && p + |RawField(f) + rest| < U64
      ensures LaxItem(p, RawField(f) + rest) == (Yield(f), |RawField(f)|)
    {
      ItemOfRaw(p, f, rest);
    }
    FieldsByPrinted(RawField, StrictNext, fs);
    LaxItemsByPrinted(RawField, LaxItem, 0, fs);
  }

  /** `whole` writes a field as `field` does, except that it writes nothing for a default value. */
  lemma {:induction false} PrintSkips(whole: Field -> seq<byte>, field: Field -> seq<byte>, fs: seq<Field>)
    requires forall f: Field :: field(f) == if IsDefault(f.value) then [] else whole(f)
    ensures Print(field, fs) == Print(whole, NonDefault(fs))
  {
    if fs != [] {
      var f, rest := fs[0], fs[1..];
      PrintSkips(whole, field, rest);
      if IsDefault(f.value) {
        assert NonDefault(fs) == NonDefault(rest);
      } else {
        assert NonDefault(fs) == [f] + NonDefault(rest);
        assert NonDefault(fs)[1..] == NonDefault(rest);
      }
    }
  }

  lemma EngineSkipsDefaults(fs: seq<Field>)
    ensures EngineAll(fs) == RawAll(NonDefault(fs))
  {
    PrintSkips(RawField, EngineField, fs);
  }

  lemma {:induction false} NonDefaultIn(fs: seq<Field>)
    ensures forall f <- NonDefault(fs) :: f in fs
  {
    if fs != [] {
      NonDefaultIn(fs[1..]);
    }
  }

  lemma NonDefaultValid(fs: seq<Field>)
    requires forall i :: 0 <= i < |fs| ==> ValidField(fs[i])
    ensures forall i :: 0 <= i < |NonDefault(fs)| ==> ValidField(NonDefault(fs)[i])
  {
    NonDefaultIn(fs);
    forall i | 0 <= i < |NonDefault(fs)|
      ensures ValidField(NonDefault(fs)[i])
    {
      assert NonDefault(fs)[i] in fs;
    }
  }

  /** What the engine writes is read back by either iterator, its default values left out. */
  lemma FieldsOfEngine(fs: seq<Field>)
    requires (forall i :: 0 <= i < |fs| ==> ValidField(fs[i])) && |EngineAll(fs)| < U64
    ensures StrictFields(EngineAll(fs)) == NonDefault(fs)
    ensures LaxItems(EngineAll(fs)) == Yields(NonDefault(fs))
  {
    EngineSkipsDefaults(fs);
    NonDefaultValid(fs);
    FieldsOfRaw(NonDefault(fs));
  }

  lemma BodyAgrees(wire: nat, rest: seq<byte>)
    requires Body(ReadStrict, wire, rest).0.Some?
    ensures Body(ReadLax, wire, rest) == Body(ReadStrict, wire, rest)
  {
    EngineVarintReadsInRelay(rest, 0);
  }

  lemma FieldAgrees(data: seq<byte>)
    requires data != [] && StrictNext(data).Some?
    ensures LaxNext(data) == (Some(StrictNext(data).value.0), StrictNext(data).value.1)
  {
    EngineVarintReadsInRelay(data, 0);
    var t := ReadStrict(data);
    BodyAgrees(t.value.value % 8, data[t.used..]);
  }

  /** A field within the data claims to end within them. */
  lemma EndWithin(pos: nat, data: seq<byte>)
    requires LaxNext(data).0.Some? && pos + |data| < U64
    ensures !Overruns(ReadLax, pos, data)
  {
  }

  /** On any bytes at all, a field the engine's iterator yields is the relay's next field too. */
  lemma EngineFieldReadsInRelay(pos: nat, data: seq<byte>)
    requires data != [] && StrictNext(data).Some? && pos + |data| < U64
    ensures LaxItem(pos, data) == (Yield(StrictNext(data).value.0), StrictNext(data).value.1)
  {
    FieldAgrees(data);
    EndWithin(pos, data);
  }

  /** One more than the largest value that the bytes from the `i`-th on can write. */
  function VarintBound(i: nat): (b: nat)
    ensures b >= 2
    decreases 9 - i
  {
    if i >= 9 then 2 else 128 * VarintBound(i + 1)
  }

  lemma VarintBoundIsU64()
    ensures VarintBound(0) == U64
  {
    assert VarintBound(6) == 128 * 128 * 128 * 2;
    assert VarintBound(3) == 128 * 128 * 128 * VarintBound(6);
    assert VarintBound(0) == 128 * 128 * 128 * VarintBound(3);
  }

  lemma {:induction false} LaxVarintFits(data: seq<byte>, i: nat)
    requires i <= 9 && LaxVarint(data, i).value.Some?
    ensures LaxVarint(data, i).value.value < VarintBound(i)
    decreases 9 - i
  {
    if i < 9 {
      if data[0] >= 128 {
        LaxVarintFits(data[1..], i + 1);
      }
    }
  }

  /** A length is read as a `u64`. */
  lemma LaxVarintIsU64(data: seq<byte>)
    requires ReadLax(data).value.Some?
    ensures ReadLax(data).value.value < U64
  {
    LaxVarintFits(data, 0);
    VarintBoundIsU64();
  }

  // ----- taking a claimed length off a buffer

  datatype Taken = Slice(end: nat) | TooLong | SlicePanic

  /**
  The relay's guard `pos + len > buf.len()` and the slice after it, in 64-bit arithmetic: with overflow checks the sum
  panics, without them it wraps and the slice is taken up to wherever it wrapped to.
  */
  function Take(checked: bool, pos: nat, len: nat, size: nat): Taken {
    if checked && pos + len >= U64 then SlicePanic
    else
      var end := (pos + len) % U64;
      if end > size then TooLong else if end < pos then SlicePanic else Slice(end)
  }

  /** In either build it panics exactly when the sum leaves 64 bits, and otherwise compares the true end. */
  lemma TakePanicsExactlyWhen(checked: bool, pos: nat, len: nat, size: nat)
    requires pos <= size < U64 && len < U64
    ensures Take(checked, pos, len, size).SlicePanic? <==> pos + len >= U64
    ensures pos + len < U64 ==>
              Take(checked, pos, len, size) == if pos + len > size then TooLong else Slice(pos + len)
  {
    if pos + len >= U64 {
      Wraps(pos + len);
    }
  }

  lemma Wraps(x: nat)
    requires U64 <= x < 2 * U64
    ensures x % U64 == x - U64
  {
  }

  // ----- the iterators as the sources run them

  class FieldIter {
    const data: seq<byte>
    var pos: nat

    constructor (data: seq<byte>)
      ensures this.data == data && pos == 0
    {
      this.data, pos := data, 0;
    }

    method Next() returns (r: Option<Field>)
      requires pos <= |data|
      modifies this
      ensures r.Some? <==> old(pos) < |data| && StrictNext(data[old(pos)..]).Some?
      ensures r.Some? ==> old(pos) <= pos <= |data|
      ensures r.Some? ==> StrictNext(data[old(pos)..]) == Some((r.value, pos - old(pos)))
    {
      if pos >= |data| {
        return None;
      }
      var used;
      r, used := NextOf(data[pos..]);
      pos := pos + used;
    }

    /** The next field of the bytes that are left, and how far the position moves. */
    method NextOf(rest: seq<byte>) returns (r: Option<Field>, used: nat)
      ensures used <= |rest|
      ensures StrictNext(rest) == if r.None? then None else Some((r.value, used))
    {
      used := 0;
      var t := ReadVarintStrict(rest);
      if t.None? {
        return None, used;
      }
      var (tag, consumed) := t.value;
      var number, wire := tag / 8, tag % 8;
      used := used + consumed;
      if number == 0 || number >= U32 || (wire != 0 && wire != 2) {
        return None, used;
      }
      var body := rest[consumed..];
      var v := ReadVarintStrict(body);
      if v.None? {
        return None, used;
      }
      var (value, more) := v.value;
      used := used + more;
      if wire == 0 {
        return Some(Field(number, Varint(value))), used;
      }
      if value > |body| - more {
        return None, used;
      }
      used := used + value;
      return Some(Field(number, Bytes(body[more..more + value]))), used;
    }
  }

  /** The item in terms of the two varints that decide it. */
  lemma ItemParts(read: seq<byte> -> Scan, pos: nat, data: seq<byte>)
    requires var t := read(data); t.value.Some? && t.used <= |data|
    ensures var t := read(data);
            var body := data[t.used..];
            var l, wire, number := read(body), t.value.value % 8, t.value.value / 8 % U32;
            && (wire != 0 && wire != 2 ==> LaxItemWith(read, pos, data) == (Malformed, t.used))
            && (wire == 0 || wire == 2 ==>
                  && (l.value.None? ==> LaxItemWith(read, pos, data) == (Malformed, t.used + l.used))
                  && (l.value.Some? && l.used <= |body| && wire == 0 ==>
                        LaxItemWith(read, pos, data) == (Yield(Field(number, Varint(l.value.value))), t.used + l.used)))
            && (wire == 2 && l.value.Some? && l.used <= |body| ==> DelimitedItem(read, pos, data, t.used, number, body, l))
  {
  }

  predicate DelimitedItem(read: seq<byte> -> Scan, pos: nat, data: seq<byte>, used: nat, number: nat, body: seq<byte>,
                          l: Scan)
    requires l.value.Some? && l.used <= |body|
  {
    var len, end := l.value.value, pos + used + l.used + l.value.value;
    LaxItemWith(read, pos, data) ==
    if end >= U64 then (Overrun, 0)
    else if len > |body| - l.used then (Malformed, used + l.used)
    else (Yield(Field(number, Bytes(body[l.used..l.used + len]))), used + l.used + len)
  }

  lemma SliceOfRest(buf: seq<byte>, pos: nat, a: nat, b: nat, len: nat)
    requires pos + a + b + len <= |buf|
    ensures buf[pos..][a..][b..b + len] == buf[pos + a + b..pos + a + b + len]
  {
  }

  class ProtoIter {
    const buf: seq<byte>
    var pos: nat

    constructor (buf: seq<byte>)
      ensures this.buf == buf && pos == 0
    {
      this.buf, pos := buf, 0;
    }

    /**
    Called while bytes are left. Panics exactly when the field is length-delimited and the position after its length
    plus that length reaches 2^64; otherwise yields a field or an error item, and moves.
    */
    method Next(checked: bool) returns (item: Item)
      requires pos < |buf| < U64
      modifies this
      ensures item.Overrun? <==> Overruns(ReadLax, old(pos), buf[old(pos)..])
      ensures item == LaxItem(old(pos), buf[old(pos)..]).0
      ensures !item.Overrun? ==> old(pos) < pos <= |buf| && pos - old(pos) == LaxItem(old(pos), buf[old(pos)..]).1
    {
      var rest := buf[pos..];
      var t := ReadVarintLax(rest);
      ghost var start := pos;
      pos := pos + t.used;
      if t.value.None? {
        return Malformed;
      }
      ItemParts(ReadLax, start, rest);
      var number, wire := t.value.value / 8 % U32, t.value.value % 8;
      if wire != 0 && wire != 2 {
        return Malformed;
      }
      var body := rest[t.used..];
      var v := ReadVarintLax(body);
      pos := pos + v.used;
      if v.value.None? {
        return Malformed;
      }
      if wire == 0 {
        return Yield(Field(number, Varint(v.value.value)));
      }
      LaxVarintIsU64(body);
      item := TakeField(checked, number, v.value.value);
      if item.Yield? {
        SliceOfRest(buf, start, t.used, v.used, v.value.value);
      }
    }

    /** The guard and the slice after a length has been read. */
    method TakeField(checked: bool, number: nat, len: nat) returns (item: Item)
      requires pos <= |buf| < U64 && len < U64
      modifies this
      ensures item.Overrun? <==> old(pos) + len >= U64
      ensures item.Malformed? <==> |buf| < old(pos) + len < U64
      ensures !item.Yield? ==> pos == old(pos)
      ensures item.Yield? ==> pos == old(pos) + len && item == Yield(Field(number, Bytes(buf[old(pos)..pos])))
    {
      TakePanicsExactlyWhen(checked, pos, len, |buf|);
      match Take(checked, pos, len, |buf|)
      case SlicePanic =>
        return Overrun;
      case TooLong =>
        return Malformed;
      case Slice(end) =>
        item := Yield(Field(number, Bytes(buf[pos..end])));
        pos := end;
    }
  }

  // ----- eleven bytes that claim 2^64 - 1

  // ----- what a varint is

  /** Seven bits a byte, the least significant first. */
  function Groups(s: seq<byte>): nat {
    if s == [] then 0 else s[0] % 128 + 128 * Groups(s[1..])
  }

  /** The first `k` bytes are one varint: all but the last have the top bit set. */
  ghost predicate Terminated(data: seq<byte>, k: nat) {
    1 <= k <= |data| && forall i :: 0 <= i < k ==> (data[i] < 128 <==> i == k - 1)
  }

  /** What both writers write is the shortest varint of the number. */
  lemma {:induction false} VarintIs(n: nat)
    ensures var e := EncodeVarint(n); Terminated(e, |e|) && Groups(e) == n && (|e| > 1 ==> e[|e| - 1] != 0)
    decreases n
  {
    if n >= 128 {
      VarintIs(n / 128);
      var e, rest := EncodeVarint(n), EncodeVarint(n / 128);
      assert e[1..] == rest;
      forall i | 0 <= i < |e|
        ensures e[i] < 128 <==> i == |e| - 1
      {
        assert i > 0 ==> e[i] == rest[i - 1];
      }
    }
  }

  lemma TerminatedCons(data: seq<byte>, k: nat)
    requires data != [] && data[0] >= 128
    ensures Terminated(data, k) <==> k >= 1 && Terminated(data[1..], k - 1)
    ensures 1 <= k <= |data| ==> Groups(data[..k]) == data[0] % 128 + 128 * Groups(data[1..][..k - 1])
  {
    var tail := data[1..];
    if 1 <= k <= |data| {
      assert data[..k][1..] == tail[..k - 1];
    }
    if k >= 1 && Terminated(tail, k - 1) {
      forall i | 0 <= i < k
        ensures data[i] < 128 <==> i == k - 1
      {
        assert i > 0 ==> data[i] == tail[i - 1];
      }
    }
    if Terminated(data, k) {
      forall i | 0 <= i < k - 1
        ensures tail[i] < 128 <==> i == k - 2
      {
        assert tail[i] == data[i + 1];
      }
    }
  }

  lemma TerminatedOne(data: seq<byte>, k: nat)
    requires data != [] && data[0] < 128
    ensures Terminated(data, k) <==> k == 1
    ensures Groups(data[..1]) == data[0]
  {
    assert data[..1] == [data[0]] && Groups([data[0]][1..]) == 0;
  }

  /** The engine's reader takes a varint of at most ten bytes, the tenth at most one, for the number it is. */
  lemma {:induction false} StrictReads(data: seq<byte>, i: nat, v: nat, k: nat)
    requires i < 10
    ensures StrictVarint(data, i) == Scan(Some(v), k) <==>
              Terminated(data, k) && i + k <= 10 && (i + k == 10 ==> data[k - 1] <= 1) && Groups(data[..k]) == v
    decreases |data|
  {
    if data != [] && data[0] < 128 {
      TerminatedOne(data, k);
    } else if data != [] {
      TerminatedCons(data, k);
      var tail := data[1..];
      if i < 9 && k >= 1 {
        var rest := StrictVarint(tail, i + 1);
        if rest.value.Some? {
          StrictReads(tail, i + 1, rest.value.value, k - 1);
        }
        if Terminated(tail, k - 1) {
          StrictReads(tail, i + 1, Groups(tail[..k - 1]), k - 1);
        }
      }
    }
  }

  lemma ModCons(b: nat, g: nat, m: nat)
    requires b < 128 && m > 0
    ensures (b + 128 * g) % (128 * m) == b + 128 * (g % m)
  {
    Radix.DivMod(g, m);
    var q, r := g / m, g % m;
    assert b + 128 * g == q * (128 * m) + (b + 128 * r) by {
      assert 128 * (q * m) == q * (128 * m);
    }
    Radix.DivModUnique(q, 128 * m, b + 128 * r);
  }

  lemma LaxOne(data: seq<byte>, i: nat)
    requires data != [] && data[0] < 128 && i < 10
    ensures LaxVarint(data, i) == Scan(Some(data[0] % VarintBound(i)), 1)
  {
    if i < 9 {
      SmallMod(data[0], VarintBound(i + 1));
    }
  }

  lemma SmallMod(x: nat, m: nat)
    requires x < 128 && m > 0
    ensures x % (128 * m) == x
  {
    Radix.DivModUnique(0, 128 * m, x);
  }

  ghost predicate LaxTakes(data: seq<byte>, i: nat, v: nat, k: nat, m: nat)
    requires m > 0
  {
    Terminated(data, k) && i + k <= 10 && Groups(data[..k]) % m == v
  }

  lemma LaxMore(data: seq<byte>, i: nat, v: nat, k: nat, m: nat)
    requires data != [] && data[0] >= 128 && i < 9 && k >= 1 && m > 0
    requires forall w: nat :: LaxVarint(data[1..], i + 1) == Scan(Some(w), k - 1) <==> LaxTakes(data[1..], i + 1, w, k - 1, m)
    ensures LaxVarint(data, i) == Scan(Some(v), k) <==> LaxTakes(data, i, v, k, 128 * m)
  {
    var tail := data[1..];
    TerminatedCons(data, k);
    var rest := LaxVarint(tail, i + 1);
    if rest.value.Some? && rest.used == k - 1 {
      assert LaxTakes(tail, i + 1, rest.value.value, k - 1, m);
      ModCons(data[0] % 128, Groups(tail[..k - 1]), m);
    } else if Terminated(tail, k - 1) {
      assert LaxVarint(tail, i + 1) != Scan(Some(Groups(tail[..k - 1]) % m), k - 1);
    }
  }

  /** The relay's takes one of at most ten bytes for the number it is modulo 2^64. */
  lemma {:induction false} LaxReads(data: seq<byte>, i: nat, v: nat, k: nat)
    requires i < 10
    ensures LaxVarint(data, i) == Scan(Some(v), k) <==> LaxTakes(data, i, v, k, VarintBound(i))
    decreases |data|
  {
    if data != [] && data[0] < 128 {
      LaxOne(data, i);
      TerminatedOne(data, k);
    } else if data != [] && i < 9 && k >= 1 {
      var tail := data[1..];
      forall w: nat
        ensures LaxVarint(tail, i + 1) == Scan(Some(w), k - 1) <==> LaxTakes(tail, i + 1, w, k - 1, VarintBound(i + 1))
      {
        LaxReads(tail, i + 1, w, k - 1);
      }
      LaxMore(data, i, v, k, VarintBound(i + 1));
    } else if data != [] {
      TerminatedCons(data, k);
    }
  }

  /** On any bytes, what either reader takes for a varint. */
  lemma ReadersTake(data: seq<byte>, v: nat, k: nat)
    ensures StrictVarint(data, 0) == Scan(Some(v), k) <==>
              Terminated(data, k) && k <= 10 && (k == 10 ==> data[9] <= 1) && Groups(data[..k]) == v
    ensures LaxVarint(data, 0) == Scan(Some(v), k) <==>
              Terminated(data, k) && k <= 10 && Groups(data[..k]) % U64 == v
  {
    StrictReads(data, 0, v, k);
    LaxReads(data, 0, v, k);
    VarintBoundIsU64();
  }

  /**
  A field's bytes: the number and the wire type in one varint, and then the varint, or the length and the bytes. The
  engine leaves a zero and empty bytes out.
  */
  lemma FieldBytes(f: Field)
    ensures RawField(f) == match f.value
                           case Varint(n) => EncodeVarint(8 * f.number) + EncodeVarint(n)
                           case Bytes(b) => EncodeVarint(8 * f.number + 2) + EncodeVarint(|b|) + b
    ensures EngineField(f) == if f.value == Varint(0) || f.value == Bytes([]) then [] else RawField(f)
    ensures RawField(Field(1, Varint(150))) == [0x08, 0x96, 0x01]
    ensures RawField(Field(2, Bytes([0x74, 0x65, 0x73, 0x74]))) == [0x12, 0x04, 0x74, 0x65, 0x73, 0x74]
  {
    assert EncodeVarint(150) == [0x96] + EncodeVarint(1);
  }

  function OnesThenOne(k: nat): seq<byte> { if k == 0 then [0x01] else [0xff] + OnesThenOne(k - 1) }

  /** 0A FF FF FF FF FF FF FF FF FF 01 */
  function Overlong(): seq<byte> { [0x0a] + OnesThenOne(9) }

  lemma OneMore(tail: seq<byte>, data: seq<byte>, i: nat, v: nat, used: nat)
    requires i < 9 && data == [0xff] + tail
    ensures LaxVarint(tail, i + 1) == Scan(Some(v), used) ==> LaxVarint(data, i) == Scan(Some(127 + 128 * v), used + 1)
    ensures StrictVarint(tail, i + 1) == Scan(Some(v), used) ==>
              StrictVarint(data, i) == Scan(Some(127 + 128 * v), used + 1)
  {
    assert data[1..] == tail;
  }

  ghost predicate ReadsAs(data: seq<byte>, i: nat, r: Scan) { LaxVarint(data, i) == r == StrictVarint(data, i) }

  lemma OneMoreReads(tail: seq<byte>, data: seq<byte>, i: nat, v: nat, used: nat)
    requires i < 9 && data == [0xff] + tail && ReadsAs(tail, i + 1, Scan(Some(v), used))
    ensures ReadsAs(data, i, Scan(Some(127 + 128 * v), used + 1))
  {
    OneMore(tail, data, i, v, used);
  }

  lemma {:induction false} OnesRead(k: nat)
    requires k <= 9
    ensures |OnesThenOne(k)| == k + 1
    ensures ReadsAs(OnesThenOne(k), 9 - k, Scan(Some(VarintBound(9 - k) - 1), k + 1))
  {
    if k > 0 {
      var tail, bound := OnesThenOne(k - 1), VarintBound(10 - k);
      OnesRead(k - 1);
      OneMoreReads(tail, OnesThenOne(k), 9 - k, bound - 1, k);
      assert VarintBound(9 - k) == 128 * bound;
    } else {
      LastOne([0x01]);
    }
  }

  lemma LastOne(data: seq<byte>)
    requires data == [0x01]
    ensures ReadsAs(data, 9, Scan(Some(1), 1))
  {
  }

  lemma OverlongReads()
    ensures var d := Overlong();
            && |d| == 11 && d[1..] == OnesThenOne(9)
            && ReadLax(d) == Scan(Some(10), 1) == ReadStrict(d)
            && ReadLax(d[1..]) == Scan(Some(U64 - 1), 10) == ReadStrict(d[1..])
  {
    OnesRead(9);
    VarintBoundIsU64();
    assert Overlong()[1..] == OnesThenOne(9);
  }

  /** The relay's iterator panics on these bytes, where the engine's merely finds no field. */
  lemma OverlongPanics()
    ensures |Overlong()| == 11 && LaxItems(Overlong()) == [Overrun] && StrictFields(Overlong()) == []
  {
    OverlongReads();
    OverlongItem(ReadLax, Overlong(), OnesThenOne(9));
    OverlongItem(ReadStrict, Overlong(), OnesThenOne(9));
    OverlongLists(LaxItem, StrictNext, Overlong());
  }

  lemma OverlongLists(next: (nat, seq<byte>) -> (Item, nat), strict: seq<byte> -> Option<(Field, nat)>, d: seq<byte>)
    requires d != [] && next(0, d).0 == Overrun && strict(d) == None
    ensures LaxItemsBy(next, 0, d) == [Overrun] && FieldsBy(strict, d) == []
  {
  }

  lemma OverlongItem(read: seq<byte> -> Scan, d: seq<byte>, ones: seq<byte>)
    requires |d| == 11 && d[1..] == ones && read(d) == Scan(Some(10), 1) && read(ones) == Scan(Some(U64 - 1), 10)
    ensures LaxItemWith(read, 0, d) == (Overrun, 0) && NextStrictWith(read, d) == None
  {
  }
}
