/** The loops over an iterator's fields that every decoder of either side is built from, and what they see. */
module FieldLoops {
  import opened Common
  import opened Proto

  // ----- field loops

  function Fold<A, E>(step: (A, E) -> A, acc: A, items: seq<E>): A
    decreases |items|
  {
    if items == [] then acc else Fold(step, step(acc, items[0]), items[1..])
  }

  /** The relay's `flatten`: error items are dropped, and a panic ends the loop. */
  function FlatFold<A>(step: (A, Field) -> A, acc: A, items: seq<Item>): Call<A>
    decreases |items|
  {
    if items == [] then Returned(acc)
    else
      match items[0]
      case Yield(f) => FlatFold(step, step(acc, f), items[1..])
      case Malformed => FlatFold(step, acc, items[1..])
      case Overrun => Panicked
  }

  /** The relay's `?` in a field loop: the first error item fails the whole decoding. */
  function TryFold<A>(step: (A, Field) -> A, acc: A, items: seq<Item>): Call<Option<A>>
    decreases |items|
  {
    if items == [] then Returned(Some(acc))
    else
      match items[0]
      case Yield(f) => TryFold(step, step(acc, f), items[1..])
      case Malformed => Returned(None)
      case Overrun => Panicked
  }

  function FlatDecode<A>(step: (A, Field) -> A, acc: A, bytes: seq<byte>): Call<A> {
    FlatFold(step, acc, LaxItems(bytes))
  }

  function TryDecode<A>(step: (A, Field) -> A, acc: A, bytes: seq<byte>): Call<Option<A>> {
    TryFold(step, acc, LaxItems(bytes))
  }

  function EngineDecode<A>(step: (A, Field) -> A, acc: A, bytes: seq<byte>): A {
    Fold(step, acc, StrictFields(bytes))
  }

  predicate AllValid(fs: seq<Field>) { forall i :: 0 <= i < |fs| ==> ValidField(fs[i]) }

  lemma {:induction false} FoldConcat<A, E>(step: (A, E) -> A, acc: A, p: seq<E>, q: seq<E>)
    ensures Fold(step, acc, p + q) == Fold(step, Fold(step, acc, p), q)
    decreases |p|
  {
    if p == [] {
      assert p + q == q;
    } else {
      assert (p + q)[1..] == p[1..] + q;
      FoldConcat(step, step(acc, p[0]), p[1..], q);
    }
  }

  lemma FoldOne<A, E>(step: (A, E) -> A, acc: A, e: E)
    ensures Fold(step, acc, [e]) == step(acc, e)
  {
    assert Fold(step, step(acc, e), [e][1..]) == step(acc, e);
  }

  /** A fold follows the accumulators `accs` if every step does. */
  lemma {:induction false} FoldChain<A, E>(step: (A, E) -> A, accs: seq<A>, items: seq<E>, n: nat)
    requires n <= |items| && |accs| == |items| + 1
    requires forall i :: 0 <= i < n ==> step(accs[i], items[i]) == accs[i + 1]
    ensures Fold(step, accs[0], items[..n]) == accs[n]
  {
    if n > 0 {
      FoldChain(step, accs, items, n - 1);
      assert items[..n] == items[..n - 1] + [items[n - 1]];
      FoldConcat(step, accs[0], items[..n - 1], [items[n - 1]]);
      FoldOne(step, accs[n - 1], items[n - 1]);
    }
  }

  lemma {:induction false} FoldYields<A>(step: (A, Field) -> A, acc: A, fs: seq<Field>)
    ensures FlatFold(step, acc, Yields(fs)) == Returned(Fold(step, acc, fs))
    ensures TryFold(step, acc, Yields(fs)) == Returned(Some(Fold(step, acc, fs)))
    decreases |fs|
  {
    if fs != [] {
      assert Yields(fs)[1..] == Yields(fs[1..]);
      FoldYields(step, step(acc, fs[0]), fs[1..]);
    }
  }

  /** Every decoder sees exactly the fields that were laid out. */
  lemma DecodersSeeFields<A>(step: (A, Field) -> A, acc: A, fs: seq<Field>, bytes: seq<byte>)
    requires AllValid(fs) && bytes == RawAll(fs) && |bytes| < U64
    ensures FlatDecode(step, acc, bytes) == Returned(Fold(step, acc, fs))
    ensures TryDecode(step, acc, bytes) == Returned(Some(Fold(step, acc, fs)))
    ensures EngineDecode(step, acc, bytes) == Fold(step, acc, fs)
  {
    FieldsOfRaw(fs);
    FoldYields(step, acc, fs);
  }

  // ----- what a decoder reads from any fields

  /** What `pick` makes of the last field that it takes, or `none` when it takes none. */
  function LastOf<T>(pick: Field -> Option<T>, none: T, fs: seq<Field>): T {
    if fs == [] then none
    else
      var last := pick(fs[|fs| - 1]);
      if last.Some? then last.value else LastOf(pick, none, fs[..|fs| - 1])
  }

  function VarintAt(number: nat): Field -> Option<nat> {
    (f: Field) => if f.number == number && f.value.Varint? then Some(f.value.n) else None
  }

  function BytesAt(number: nat): Field -> Option<seq<byte>> {
    (f: Field) => if f.number == number && f.value.Bytes? then Some(f.value.b) else None
  }

  /** The same when they are `size` bytes. */
  function SizedAt(number: nat, size: nat): Field -> Option<seq<byte>> {
    (f: Field) => if f.number == number && f.value.Bytes? && |f.value.b| == size then Some(f.value.b) else None
  }

  /** A part of the accumulator that each field either sets or leaves is set by the last one that does. */
  lemma {:induction false} FoldSets<A(!new), T(!new)>(step: (A, Field) -> A, part: A -> T, pick: Field -> Option<T>,
                                                      acc: A, fs: seq<Field>)
    requires forall a, f :: part(step(a, f)) == if pick(f).Some? then pick(f).value else part(a)
    ensures part(Fold(step, acc, fs)) == LastOf(pick, part(acc), fs)
  {
    if fs != [] {
      var n := |fs| - 1;
      FoldSets(step, part, pick, acc, fs[..n]);
      assert fs == fs[..n] + [fs[n]];
      FoldConcat(step, acc, fs[..n], [fs[n]]);
      FoldOne(step, Fold(step, acc, fs[..n]), fs[n]);
    }
  }

  // ----- when the loops return

  function Fields(items: seq<Item>): seq<Field> {
    if items == [] then [] else (if items[0].Yield? then [items[0].field] else []) + Fields(items[1..])
  }

  /** A flattened loop returns exactly when no field overruns, and has then seen every well-formed one. */
  lemma {:induction false} FlatReturnsExactlyWhen<A>(step: (A, Field) -> A, acc: A, items: seq<Item>)
    ensures FlatFold(step, acc, items).Returned? <==> Overrun !in items
    ensures Overrun !in items ==> FlatFold(step, acc, items) == Returned(Fold(step, acc, Fields(items)))
    decreases |items|
  {
    if items != [] {
      var acc' := if items[0].Yield? then step(acc, items[0].field) else acc;
      assert items == [items[0]] + items[1..];
      FlatReturnsExactlyWhen(step, acc', items[1..]);
      if items[0].Yield? {
        assert Fields(items)[1..] == Fields(items[1..]);
      } else {
        assert Fields(items) == Fields(items[1..]);
      }
    }
  }

  /** The first item that is not a field, if there is one. */
  function FirstStop(items: seq<Item>): Option<Item> {
    if items == [] then None else if items[0].Yield? then FirstStop(items[1..]) else Some(items[0])
  }

  /** A failing loop panics exactly when a field overruns before any error item, and fails at an error item else. */
  lemma {:induction false} TryEndsBy<A>(step: (A, Field) -> A, acc: A, items: seq<Item>)
    ensures TryFold(step, acc, items) == match FirstStop(items)
                                         case None => Returned(Some(Fold(step, acc, Fields(items))))
                                         case Some(Overrun) => Panicked
                                         case Some(_) => Returned(None)
    decreases |items|
  {
    if items != [] && items[0].Yield? {
      TryEndsBy(step, step(acc, items[0].field), items[1..]);
      assert Fields(items)[1..] == Fields(items[1..]);
    }
  }

  // ----- the loops as the sources run them

  lemma LaxItemsStep(next: (nat, seq<byte>) -> (Item, nat), pos: nat, data: seq<byte>)
    requires data != [] && !next(pos, data).0.Overrun? && 0 < next(pos, data).1 <= |data|
    ensures LaxItemsBy(next, pos, data) ==
            [next(pos, data).0] + LaxItemsBy(next, pos + next(pos, data).1, data[next(pos, data).1..])
  {
  }

  lemma StrictFieldsStep(next: seq<byte> -> Option<(Field, nat)>, data: seq<byte>)
    requires data != [] && next(data).Some? && 0 < next(data).value.1 <= |data|
    ensures FieldsBy(next, data) == [next(data).value.0] + FieldsBy(next, data[next(data).value.1..])
  {
  }

  /** The items of a buffer from a position on. */
  function ItemsFrom(bytes: seq<byte>, pos: nat): seq<Item>
    requires pos <= |bytes|
  {
    LaxItemsBy(LaxItem, pos, bytes[pos..])
  }

  lemma ItemsStart(bytes: seq<byte>)
    ensures ItemsFrom(bytes, 0) == LaxItems(bytes) && ItemsFrom(bytes, |bytes|) == []
  {
    assert bytes[0..] == bytes;
  }

  lemma RelayTurnBy(next: (nat, seq<byte>) -> (Item, nat), pos: nat, data: seq<byte>, item: Item, pos': nat,
                    rest: seq<byte>)
    requires data != [] && item == next(pos, data).0 && !item.Overrun?
    requires pos < pos' <= pos + |data| && pos' - pos == next(pos, data).1 && rest == data[pos' - pos..]
    ensures LaxItemsBy(next, pos, data) == [item] + LaxItemsBy(next, pos', rest)
  {
    LaxItemsStep(next, pos, data);
  }

  /** One turn of a relay field loop at `pos`, where the iterator comes to `item` and moves on to `pos'`. */
  lemma RelayTurn(bytes: seq<byte>, pos: nat, item: Item, pos': nat)
    requires pos < |bytes| && item == LaxItem(pos, bytes[pos..]).0
    requires !item.Overrun? ==> pos < pos' <= |bytes| && pos' - pos == LaxItem(pos, bytes[pos..]).1
    ensures item.Overrun? ==> ItemsFrom(bytes, pos) == [item]
    ensures !item.Overrun? ==> ItemsFrom(bytes, pos) == [item] + ItemsFrom(bytes, pos')
  {
    if item.Overrun? {
      OverrunEnds(LaxItem, pos, bytes[pos..]);
    } else {
      assert bytes[pos'..] == bytes[pos..][pos' - pos..];
      RelayTurnBy(LaxItem, pos, bytes[pos..], item, pos', bytes[pos'..]);
    }
  }

  lemma OverrunEnds(next: (nat, seq<byte>) -> (Item, nat), pos: nat, data: seq<byte>)
    requires data != [] && next(pos, data).0.Overrun?
    ensures LaxItemsBy(next, pos, data) == [Overrun]
  {
  }

  lemma FoldStep<A>(step: (A, Field) -> A, acc: A, item: Item, items: seq<Item>)
    ensures FlatFold(step, acc, [item] + items) ==
            match item
            case Yield(f) => FlatFold(step, step(acc, f), items)
            case Malformed => FlatFold(step, acc, items)
            case Overrun => Panicked
    ensures TryFold(step, acc, [item] + items) ==
            match item
            case Yield(f) => TryFold(step, step(acc, f), items)
            case Malformed => Returned(None)
            case Overrun => Panicked
  {
    assert ([item] + items)[1..] == items;
  }

  lemma FoldTurn<A>(step: (A, Field) -> A, acc: A, bytes: seq<byte>, pos: nat, item: Item, pos': nat)
    requires pos < |bytes| && item == LaxItem(pos, bytes[pos..]).0
    requires !item.Overrun? ==> pos < pos' <= |bytes| && pos' - pos == LaxItem(pos, bytes[pos..]).1
    ensures var all, flat := ItemsFrom(bytes, pos), FlatFold(step, acc, ItemsFrom(bytes, pos));
            match item
            case Yield(f) =>
              && flat == FlatFold(step, step(acc, f), ItemsFrom(bytes, pos'))
              && TryFold(step, acc, all) == TryFold(step, step(acc, f), ItemsFrom(bytes, pos'))
            case Malformed => flat == FlatFold(step, acc, ItemsFrom(bytes, pos')) && TryFold(step, acc, all) == Returned(None)
            case Overrun => flat == Panicked && TryFold(step, acc, all) == Panicked
  {
    RelayTurn(bytes, pos, item, pos');
    if item.Overrun? {
      FoldStep(step, acc, item, []);
      assert [item] + [] == [item];
    } else {
      FoldStep(step, acc, item, ItemsFrom(bytes, pos'));
    }
  }

  /** One turn of an engine field loop at `pos`. */
  lemma EngineTurn<A>(step: (A, Field) -> A, acc: A, bytes: seq<byte>, pos: nat, f: Option<Field>, pos': nat)
    requires pos <= |bytes|
    requires f.Some? <==> pos < |bytes| && StrictNext(bytes[pos..]).Some?
    requires f.Some? ==> pos' <= |bytes| && StrictNext(bytes[pos..]) == Some((f.value, pos' - pos))
    ensures f.None? ==> EngineDecode(step, acc, bytes[pos..]) == acc
    ensures f.Some? ==> pos < pos'
    ensures f.Some? ==> EngineDecode(step, acc, bytes[pos..]) == EngineDecode(step, step(acc, f.value), bytes[pos'..])
  {
    var data := bytes[pos..];
    if f.Some? {
      FieldAgrees(data);
      LaxNextMoves(data);
      StrictFieldsStep(StrictNext, data);
      var rest := StrictFields(bytes[pos'..]);
      assert data[pos' - pos..] == bytes[pos'..];
      assert ([f.value] + rest)[1..] == rest;
    }
  }

  /** The engine's field loop. */
  method RunEngineLoop<A>(step: (A, Field) -> A, start: A, bytes: seq<byte>) returns (acc: A)
    ensures acc == EngineDecode(step, start, bytes)
  {
    var it := new FieldIter(bytes);
    acc := start;
    assert bytes[0..] == bytes;
    while true
      invariant it.data == bytes && it.pos <= |bytes|
      invariant EngineDecode(step, acc, bytes[it.pos..]) == EngineDecode(step, start, bytes)
      decreases |bytes| - it.pos
    {
      ghost var pos := it.pos;
      var f := it.Next();
      EngineTurn(step, acc, bytes, pos, f, it.pos);
      if f.None? {
        return;
      }
      acc := step(acc, f.value);
    }
  }

  /** The relay's field loop over the flattened iterator. */
  method RunFlatLoop<A>(checked: bool, step: (A, Field) -> A, start: A, bytes: seq<byte>) returns (r: Call<A>)
    requires |bytes| < U64
    ensures r == FlatDecode(step, start, bytes)
    ensures r.Panicked? <==> Overrun in LaxItems(bytes)
  {
    var it := new ProtoIter(bytes);
    var acc := start;
    ItemsStart(bytes);
    FlatReturnsExactlyWhen(step, start, LaxItems(bytes));
    while it.pos < |bytes|
      invariant it.buf == bytes && it.pos <= |bytes|
      invariant FlatFold(step, acc, ItemsFrom(bytes, it.pos)) == FlatDecode(step, start, bytes)
      decreases |bytes| - it.pos
    {
      ghost var pos := it.pos;
      var item := it.Next(checked);
      FoldTurn(step, acc, bytes, pos, item, it.pos);
      match item
      case Yield(f) =>
        acc := step(acc, f);
      case Malformed =>
      case Overrun =>
        return Panicked;
    }
    return Returned(acc);
  }

  /** The relay's field loop that fails at the first error item. */
  method RunTryLoop<A>(checked: bool, step: (A, Field) -> A, start: A, bytes: seq<byte>) returns (r: Call<Option<A>>)
    requires |bytes| < U64
    ensures r == TryDecode(step, start, bytes)
    ensures r.Panicked? <==> FirstStop(LaxItems(bytes)) == Some(Overrun)
  {
    var it := new ProtoIter(bytes);
    var acc := start;
    ItemsStart(bytes);
    TryEndsBy(step, start, LaxItems(bytes));
    while it.pos < |bytes|
      invariant it.buf == bytes && it.pos <= |bytes|
      invariant TryFold(step, acc, ItemsFrom(bytes, it.pos)) == TryDecode(step, start, bytes)
      decreases |bytes| - it.pos
    {
      ghost var pos := it.pos;
      var item := it.Next(checked);
      FoldTurn(step, acc, bytes, pos, item, it.pos);
      match item
      case Yield(f) =>
        acc := step(acc, f);
      case Malformed =>
        return Returned(None);
      case Overrun =>
        return Panicked;
    }
    return Returned(Some(acc));
  }
}
