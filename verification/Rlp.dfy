/**
Recursive-length prefix, Appendix B of the Ethereum Yellow Paper: the canonical encoding, the strict reader the
engine uses (which accepts canonical encodings only) and the lax reader the relay hand-rolls.
*/
module Rlp {
  import opened Common
  import opened Radix

  /** Where an item's payload starts and how long its header says it is. */
  datatype Header = Header(list: bool, start: nat, len: nat)

  type Items = seq<seq<byte>>

  // ----- canonical encoding

  /** The digits of `n` in base 256, most significant first, without a leading zero. */
  function BigEndian(n: nat): seq<byte> {
    DigitsWellFormed(256, n);
    Digits(256, n)
  }

  /** A header; the length-of-length byte wraps as a `u8` does, which no length below 2^64 reaches. */
  function LengthPrefix(short: byte, long: byte, n: nat): seq<byte>
    requires short <= 0xc0
  {
    if n <= 55 then [short + n] else [(long + |BigEndian(n)|) % 256] + BigEndian(n)
  }

  function EncodeBytes(s: seq<byte>): seq<byte> {
    if |s| == 1 && s[0] < 0x80 then s else LengthPrefix(0x80, 0xb7, |s|) + s
  }

  function EncodeUint(n: nat): seq<byte> {
    EncodeBytes(BigEndian(n))
  }

  function Concat(items: Items): seq<byte> {
    if items == [] then [] else items[0] + Concat(items[1..])
  }

  function WrapList(items: Items): seq<byte> {
    LengthPrefix(0xc0, 0xf7, |Concat(items)|) + Concat(items)
  }

  lemma {:induction false} ConcatSplit(a: Items, b: Items)
    ensures Concat(a + b) == Concat(a) + Concat(b)
  {
    if a == [] {
      assert a + b == b;
    } else {
      assert (a + b)[1..] == a[1..] + b;
      ConcatSplit(a[1..], b);
    }
  }

  lemma TailItems(chainId: seq<byte>)
    ensures Concat([chainId, [0x80], [0x80]]) == chainId + [0x80] + [0x80]
  {
    assert [chainId, [0x80], [0x80]][1..] == [[0x80], [0x80]];
    assert [[0x80], [0x80]][1..] == [[0x80]];
    assert [[0x80]][1..] == [];
  }

  lemma ZeroItem()
    ensures EncodeUint(0) == [0x80]
  {
    assert BigEndian(0) == [];
  }

  // ----- the two header readers

  /** How the first byte classifies an item: its own value, a short length, or the number of length bytes. */
  datatype Lead = Single | Short(list: bool, len: nat) | Long(list: bool, lenOfLen: nat)

  function LeadOf(b: byte): (r: Lead)
    ensures r.Long? ==> 1 <= r.lenOfLen <= 8
    ensures r.Short? ==> r.len <= 55
  {
    if b <= 0x7f then Single
    else if b <= 0xb7 then Short(false, b - 0x80)
    else if b <= 0xbf then Long(false, b - 0xb7)
    else if b <= 0xf7 then Short(true, b - 0xc0)
    else Long(true, b - 0xf7)
  }

  function LaxHeader(buf: seq<byte>): (r: Option<Header>)
    ensures r.Some? ==> 0 < r.value.start + r.value.len
  {
    if buf == [] then None
    else
      match LeadOf(buf[0])
      case Single => Some(Header(false, 0, 1))
      case Short(list, len) => Some(Header(list, 1, len))
      case Long(list, n) =>
        if |buf| < 1 + n then None else Some(Header(list, 1 + n, Value(256, buf[1..1 + n])))
  }

  /** What the strict reader demands on top: shortest forms only, and a payload that is there. */
  predicate Canonical(buf: seq<byte>, h: Header)
    requires LaxHeader(buf) == Some(h)
  {
    && h.start + h.len <= |buf|
    && match LeadOf(buf[0])
       case Single => true
       case Short(list, len) => list || len != 1 || buf[1] >= 0x80
       case Long(_, _) => buf[1] != 0 && h.len >= 56
  }

  function StrictHeader(buf: seq<byte>): (r: Option<Header>)
    ensures r.Some? ==> LaxHeader(buf) == r
  {
    var h := LaxHeader(buf);
    if h.Some? && Canonical(buf, h.value) then h else None
  }

  // ----- splitting a payload into items

  function ItemLength(h: Option<Header>): Option<nat> {
    if h.None? then None else Some(h.value.start + h.value.len)
  }

  function LaxLength(buf: seq<byte>): Option<nat> { ItemLength(LaxHeader(buf)) }

  function StrictLength(buf: seq<byte>): Option<nat> { ItemLength(StrictHeader(buf)) }

  /** The items of a payload, when `first` tells how long its first item is. */
  function Split(first: seq<byte> -> Option<nat>, payload: seq<byte>): Option<Items>
    decreases |payload|
  {
    if payload == [] then Some([])
    else
      var n := first(payload);
      if n.None? || !(0 < n.value <= |payload|) then None
      else
        var rest := Split(first, payload[n.value..]);
        if rest.None? then None else Some([payload[..n.value]] + rest.value)
  }

  /** The items of a list; bytes after the list are ignored. */
  function LaxList(buf: seq<byte>): Option<Items> {
    var h := LaxHeader(buf);
    if h.None? || !h.value.list || h.value.start + h.value.len > |buf| then None
    else Split(LaxLength, buf[h.value.start..h.value.start + h.value.len])
  }

  function LaxBytes(item: seq<byte>): Option<seq<byte>> {
    var h := LaxHeader(item);
    if h.None? || h.value.list || h.value.start + h.value.len > |item| then None
    else Some(item[h.value.start..h.value.start + h.value.len])
  }

  // ----- the lax reader as the relay runs it

  method ReadLength(bytes: seq<byte>) returns (len: nat)
    ensures len == Value(256, bytes)
  {
    len := 0;
    for i := 0 to |bytes|
      invariant len == Value(256, bytes[..i])
    {
      assert bytes[..i + 1][..i] == bytes[..i];
      len := len * 256 + bytes[i];
    }
    assert bytes[..|bytes|] == bytes;
  }

  method ReadHeader(buf: seq<byte>) returns (r: Option<Header>)
    ensures r == LaxHeader(buf)
  {
    if |buf| == 0 {
      return None;
    }
    var b := buf[0];
    if b <= 0x7f {
      return Some(Header(false, 0, 1));
    } else if b <= 0xb7 {
      return Some(Header(false, 1, b - 0x80));
    } else if b <= 0xbf {
      var n := b - 0xb7;
      if |buf| < 1 + n {
        return None;
      }
      var len := ReadLength(buf[1..1 + n]);
      return Some(Header(false, 1 + n, len));
    } else if b <= 0xf7 {
      return Some(Header(true, 1, b - 0xc0));
    } else {
      var n := b - 0xf7;
      if |buf| < 1 + n {
        return None;
      }
      var len := ReadLength(buf[1..1 + n]);
      return Some(Header(true, 1 + n, len));
    }
  }

  /** With `items` read, what the remaining bytes `rest` hold decides the whole result `all`. */
  ghost predicate ReadSoFar(first: seq<byte> -> Option<nat>, all: Option<Items>, items: Items, rest: seq<byte>) {
    var r := Split(first, rest);
    all == if r.None? then None else Some(items + r.value)
  }

  lemma ReadStart(first: seq<byte> -> Option<nat>, payload: seq<byte>)
    ensures ReadSoFar(first, Split(first, payload), [], payload)
  {
    var all := Split(first, payload);
    assert all.Some? ==> [] + all.value == all.value;
  }

  lemma ReadNext(first: seq<byte> -> Option<nat>, all: Option<Items>, items: Items, rest: seq<byte>)
    requires rest != [] && ReadSoFar(first, all, items, rest)
    ensures var n := first(rest);
            if n.None? || !(0 < n.value <= |rest|) then all.None?
            else ReadSoFar(first, all, items + [rest[..n.value]], rest[n.value..])
  {
    var n := first(rest);
    if n.Some? && 0 < n.value <= |rest| {
      var r := Split(first, rest[n.value..]);
      if r.Some? {
        assert items + ([rest[..n.value]] + r.value) == (items + [rest[..n.value]]) + r.value;
      }
    }
  }

  lemma ReadEnd(first: seq<byte> -> Option<nat>, all: Option<Items>, items: Items)
    requires ReadSoFar(first, all, items, [])
    ensures all == Some(items)
  {
    assert items + [] == items;
  }

  method ReadItems(payload: seq<byte>) returns (r: Option<Items>)
    ensures r == Split(LaxLength, payload)
  {
    var items: Items, rest := [], payload;
    ghost var all := Split(LaxLength, payload);
    ReadStart(LaxLength, payload);
    while rest != []
      invariant ReadSoFar(LaxLength, all, items, rest)
      decreases |rest|
    {
      ReadNext(LaxLength, all, items, rest);
      var h := ReadHeader(rest);
      if h.None? {
        return None;
      }
      var n := h.value.start + h.value.len;
      if n > |rest| {
        return None;
      }
      items := items + [rest[..n]];
      rest := rest[n..];
    }
    ReadEnd(LaxLength, all, items);
    return Some(items);
  }

  method FromList(buf: seq<byte>) returns (r: Option<Items>)
    ensures r == LaxList(buf)
  {
    var h := ReadHeader(buf);
    if h.None? || !h.value.list || h.value.start + h.value.len > |buf| {
      return None;
    }
    r := ReadItems(buf[h.value.start..h.value.start + h.value.len]);
  }

  // ----- tiling, and lists read back

  /** The items of an accepted payload tile it, and none is empty. */
  lemma {:induction false} ItemsTile(first: seq<byte> -> Option<nat>, payload: seq<byte>)
    requires Split(first, payload).Some?
    ensures Concat(Split(first, payload).value) == payload
    ensures forall item <- Split(first, payload).value :: item != []
    decreases |payload|
  {
    if payload != [] {
      var n := first(payload).value;
      ItemsTile(first, payload[n..]);
      assert Split(first, payload).value[1..] == Split(first, payload[n..]).value;
    }
  }

  /** However an item continues, `first` finds its end. */
  ghost predicate Delimits(first: seq<byte> -> Option<nat>, item: seq<byte>) {
    item != [] && forall rest: seq<byte> :: first(item + rest) == Some(|item|)
  }

  lemma {:induction false} SplitConcat(first: seq<byte> -> Option<nat>, items: Items)
    requires forall i :: 0 <= i < |items| ==> Delimits(first, items[i])
    ensures Split(first, Concat(items)) == Some(items)
  {
    if items != [] {
      SplitConcat(first, items[1..]);
      var rest := Concat(items[1..]);
      var all := items[0] + rest;
      assert first(all) == Some(|items[0]|);
      assert all[..|items[0]|] == items[0] && all[|items[0]|..] == rest;
      assert items == [items[0]] + items[1..];
    }
  }

  /** Where the stricter of two readers accepts, the other reads the same items. */
  lemma {:induction false} SplitAgree(f: seq<byte> -> Option<nat>, g: seq<byte> -> Option<nat>, payload: seq<byte>)
    requires forall p: seq<byte> :: f(p).Some? ==> g(p) == f(p)
    requires Split(f, payload).Some?
    ensures Split(g, payload) == Split(f, payload)
    decreases |payload|
  {
    if payload != [] {
      SplitAgree(f, g, payload[f(payload).value..]);
    }
  }

  lemma StrictSplitIsLax(payload: seq<byte>)
    requires Split(StrictLength, payload).Some?
    ensures Split(LaxLength, payload) == Split(StrictLength, payload)
  {
    SplitAgree(StrictLength, LaxLength, payload);
  }

  lemma HeaderPrefix(item: seq<byte>, rest: seq<byte>)
    requires LaxHeader(item).Some?
    ensures LaxHeader(item + rest) == LaxHeader(item)
  {
    assert (item + rest)[0] == item[0];
    if LeadOf(item[0]).Long? {
      var n := LeadOf(item[0]).lenOfLen;
      assert (item + rest)[1..1 + n] == item[1..1 + n];
    }
  }

  /** An item whose header says exactly how long it is. */
  predicate SelfDelimiting(item: seq<byte>) {
    item != [] && LaxLength(item) == Some(|item|)
  }

  lemma SelfDelimitingDelimits(item: seq<byte>)
    requires SelfDelimiting(item)
    ensures Delimits(LaxLength, item)
  {
    forall rest: seq<byte>
      ensures LaxLength(item + rest) == Some(|item|)
    {
      HeaderPrefix(item, rest);
    }
  }

  // ----- headers written and read

  lemma PowU64()
    ensures Pow(256, 8) == U64
  {
    assert Pow(256, 4) == 0x1_0000_0000;
  }

  /** A length of 56 or more below 2^64 takes one to eight digits, the first of them not zero. */
  lemma LongLength(n: nat)
    requires 55 < n < U64
    ensures 1 <= |BigEndian(n)| <= 8 && BigEndian(n)[0] != 0 && Value(256, BigEndian(n)) == n
  {
    PowU64();
    DigitsWellFormed(256, n);
    DigitsLength(256, n, 8);
  }

  /** Conversely one to eight length bytes without a leading zero are the digits of a length below 2^64. */
  lemma LengthBytes(lb: seq<byte>)
    requires 1 <= |lb| <= 8 && lb[0] != 0
    ensures BigEndian(Value(256, lb)) == lb && Value(256, lb) < U64
  {
    DigitsOfValue(256, lb);
    ValueBound(256, lb);
    PowU64();
    PowMonotone(256, |lb|, 8);
  }

  lemma LongHeaderRead(code: byte, d: seq<byte>, payload: seq<byte>, buf: seq<byte>)
    requires 1 <= |d| <= 8 && d[0] != 0 && Value(256, d) == |payload| && 55 < |payload|
    requires (code == 0xb7 || code == 0xf7) && buf == [code + |d|] + d + payload
    ensures StrictHeader(buf) == Some(Header(code == 0xf7, 1 + |d|, |payload|))
  {
    assert LeadOf(buf[0]) == Long(code == 0xf7, |d|);
    assert buf[1..1 + |d|] == d;
  }

  /** Reading back a long header that `LengthPrefix` wrote. */
  lemma LongPrefixRead(short: byte, code: byte, payload: seq<byte>, p: seq<byte>)
    requires short <= 0xc0 && (code == 0xb7 || code == 0xf7) && 55 < |payload| < U64
    requires p == LengthPrefix(short, code, |payload|)
    ensures StrictHeader(p + payload) == Some(Header(code == 0xf7, |p|, |payload|))
  {
    LongLength(|payload|);
    LongHeaderRead(code, BigEndian(|payload|), payload, p + payload);
  }

  lemma ListPrefix(payload: seq<byte>, p: seq<byte>)
    requires |payload| < U64 && p == LengthPrefix(0xc0, 0xf7, |payload|)
    ensures StrictHeader(p + payload) == Some(Header(true, |p|, |payload|))
  {
    if |payload| > 55 {
      LongPrefixRead(0xc0, 0xf7, payload, p);
    } else {
      assert (p + payload)[0] == 0xc0 + |payload|;
    }
  }

  lemma ShortBytesPrefix(s: seq<byte>, buf: seq<byte>)
    requires |s| <= 55 && !(|s| == 1 && s[0] < 0x80) && buf == [0x80 + |s|] + s
    ensures StrictHeader(buf) == Some(Header(false, 1, |s|)) && buf[1..] == s
  {
    assert LeadOf(buf[0]) == Short(false, |s|);
    assert |s| == 1 ==> buf[1] == s[0];
  }

  lemma BytesPrefix(s: seq<byte>)
    requires |s| < U64
    ensures var h := StrictHeader(EncodeBytes(s));
            && h.Some? && !h.value.list && h.value.start + h.value.len == |EncodeBytes(s)|
            && EncodeBytes(s)[h.value.start..] == s
  {
    if |s| > 55 {
      LongPrefixRead(0x80, 0xb7, s, LengthPrefix(0x80, 0xb7, |s|));
    } else if |s| == 1 && s[0] < 0x80 {
      assert LeadOf(s[0]).Single?;
    } else {
      ShortBytesPrefix(s, [0x80 + |s|] + s);
    }
  }

  /** What the encoder of strings writes says itself how long it is, and the lax reader reads it back. */
  lemma BytesDelimit(s: seq<byte>)
    requires |s| < U64
    ensures SelfDelimiting(EncodeBytes(s)) && LaxBytes(EncodeBytes(s)) == Some(s)
  {
    BytesPrefix(s);
    LaxPayload(EncodeBytes(s), LaxHeader(EncodeBytes(s)).value);
  }

  lemma LaxPayload(item: seq<byte>, h: Header)
    requires LaxHeader(item) == Some(h) && !h.list && h.start + h.len == |item|
    ensures LaxBytes(item) == Some(item[h.start..]) && item != []
  {
    assert item[h.start..h.start + h.len] == item[h.start..];
  }

  /** So does what the encoder of lists writes. */
  lemma ListDelimits(items: Items)
    requires |Concat(items)| < U64
    ensures SelfDelimiting(WrapList(items))
  {
    ListPrefix(Concat(items), LengthPrefix(0xc0, 0xf7, |Concat(items)|));
  }

  /** The lax reader finds a header unless its bytes end; the strict one refuses a length that could be shorter. */
  lemma LaxTakesMore(buf: seq<byte>)
    ensures LaxHeader(buf).None? <==>
              buf == [] || (184 <= buf[0] <= 191 && |buf| < buf[0] - 182) || (248 <= buf[0] && |buf| < buf[0] - 246)
    ensures LaxBytes([0xb8, 0x00]) == Some([]) && StrictHeader([0xb8, 0x00]) == None
  {
    var item: seq<byte> := [0xb8, 0x00];
    assert item[1..2] == [0] && Value(256, [0]) == 0;
    assert item[2..2] == [];
  }

  /** A long header: a code above `base` that counts the bytes of the length, the length, and then the payload. */
  ghost predicate LongForm(base: nat, out: seq<byte>, payload: seq<byte>) {
    && |out| > |payload| + 1
    && var k := |out| - 1 - |payload|;
       k <= 8 && out[0] == base + k && out[1] != 0 && Value(256, out[1..1 + k]) == |payload| && out[1 + k..] == payload
  }

  lemma LongPrefixForm(short: byte, long: byte, payload: seq<byte>, out: seq<byte>)
    requires short <= 0xc0 && long <= 247 && 55 < |payload| < U64
    requires out == LengthPrefix(short, long, |payload|) + payload
    ensures LongForm(long, out, payload)
  {
    LongLength(|payload|);
    var d := BigEndian(|payload|);
    assert out[1..1 + |d|] == d && out[1 + |d|..] == payload;
  }

  /** The two productions of RLP, for strings and for lists, as the Yellow Paper gives them. */
  lemma EncodingIs(s: seq<byte>, items: Items)
    requires |s| < U64 && |Concat(items)| < U64
    ensures if |s| == 1 && s[0] < 128 then EncodeBytes(s) == s
            else if |s| < 56 then EncodeBytes(s) == [128 + |s|] + s
            else LongForm(183, EncodeBytes(s), s)
    ensures if |Concat(items)| < 56 then WrapList(items) == [192 + |Concat(items)|] + Concat(items)
            else LongForm(247, WrapList(items), Concat(items))
  {
    if |s| >= 56 {
      LongPrefixForm(128, 183, s, EncodeBytes(s));
    }
    if |Concat(items)| >= 56 {
      LongPrefixForm(192, 247, Concat(items), WrapList(items));
    }
  }

  /** The header code of a kind of item: short lengths are added to the first, lengths of lengths to the second. */
  function Codes(list: bool): (byte, byte) { if list then (0xc0, 0xf7) else (0x80, 0xb7) }

  lemma LongIsCanonical(item: seq<byte>, h: Header)
    requires StrictHeader(item) == Some(h) && h.start + h.len == |item| && LeadOf(item[0]).Long?
    ensures 55 < h.len < U64
    ensures item == LengthPrefix(Codes(h.list).0, Codes(h.list).1, h.len) + item[h.start..]
  {
    var lb := item[1..h.start];
    LengthBytes(lb);
    LongParts(item, h.start, lb);
    assert item[0] == Codes(h.list).1 + |lb|;
  }

  lemma LongParts(item: seq<byte>, start: nat, lb: seq<byte>)
    requires 1 <= start <= |item| && lb == item[1..start]
    ensures item == [item[0]] + lb + item[start..]
  {
  }

  lemma ShortIsCanonical(item: seq<byte>, h: Header)
    requires StrictHeader(item) == Some(h) && h.start + h.len == |item| && LeadOf(item[0]).Short?
    ensures h.len <= 55 && item == [Codes(h.list).0 + h.len] + item[1..] && h.start == 1
    ensures !h.list && h.len == 1 ==> item[1] >= 0x80
  {
  }

  /** The strict reader accepts canonical encodings only: the item is determined by its payload. */
  lemma StrictIsCanonical(item: seq<byte>, h: Header)
    requires StrictHeader(item) == Some(h) && h.start + h.len == |item|
    ensures h.len < U64
    ensures h.list ==> item == LengthPrefix(0xc0, 0xf7, h.len) + item[h.start..]
    ensures !h.list ==> item == EncodeBytes(item[h.start..])
  {
    if LeadOf(item[0]).Long? {
      LongIsCanonical(item, h);
    } else if LeadOf(item[0]).Short? {
      ShortIsCanonical(item, h);
    } else {
      assert item[0..] == item;
    }
  }

  /** Every item was cut off the front of some rest of the payload. */
  lemma {:induction false} SplitItem(first: seq<byte> -> Option<nat>, payload: seq<byte>, i: nat) returns (rest: seq<byte>)
    requires Split(first, payload).Some? && i < |Split(first, payload).value|
    ensures var n := |Split(first, payload).value[i]|;
            rest != [] && n <= |rest| && first(rest) == Some(n) && Split(first, payload).value[i] == rest[..n]
    decreases |payload|
  {
    if i == 0 {
      rest := payload;
    } else {
      rest := SplitItem(first, payload[first(payload).value..], i - 1);
    }
  }

  lemma StrictItemsDelimited(payload: seq<byte>, i: nat)
    requires Split(StrictLength, payload).Some? && i < |Split(StrictLength, payload).value|
    ensures StrictLength(Split(StrictLength, payload).value[i]) == Some(|Split(StrictLength, payload).value[i]|)
  {
    var rest := SplitItem(StrictLength, payload, i);
    StrictPrefix(rest, |Split(StrictLength, payload).value[i]|);
  }

  lemma StrictPrefix(buf: seq<byte>, n: nat)
    requires StrictLength(buf) == Some(n) && n <= |buf|
    ensures StrictLength(buf[..n]) == Some(n)
  {
    if LeadOf(buf[0]).Long? {
      var k := LeadOf(buf[0]).lenOfLen;
      assert buf[..n][1..1 + k] == buf[1..1 + k];
    }
  }

  lemma LaxListOfPrefixed(buf: seq<byte>, p: seq<byte>, payload: seq<byte>)
    requires LaxHeader(buf) == Some(Header(true, |p|, |payload|)) && buf == p + payload
    ensures LaxList(buf) == Split(LaxLength, payload)
  {
    var slice := buf[|p|..|p| + |payload|];
    assert slice == payload;
  }

  /** Reading a wrapped list of self-delimiting items gives the items back, in the short and the long form. */
  lemma ListRoundTrip(items: Items)
    requires forall i :: 0 <= i < |items| ==> SelfDelimiting(items[i])
    requires |Concat(items)| < U64
    ensures LaxList(WrapList(items)) == Some(items)
  {
    forall i | 0 <= i < |items|
      ensures Delimits(LaxLength, items[i])
    {
      SelfDelimitingDelimits(items[i]);
    }
    SplitConcat(LaxLength, items);
    ListPrefix(Concat(items), LengthPrefix(0xc0, 0xf7, |Concat(items)|));
    LaxListOfPrefixed(WrapList(items), LengthPrefix(0xc0, 0xf7, |Concat(items)|), Concat(items));
  }
}
