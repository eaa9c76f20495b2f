/**
The shared pixel canvas contract: 4096 one-byte pixels packed into 128 words, painted in batches through a one-word
write-back cache, with counters and a log. Words are 256 bits and the masks and shifts are the contract's own.
*/
module PixelCanvas {
  import opened Common
  import Radix

  const PIXELS: nat := 4096
  const WORDS: nat := 128
  const MAX_BATCH: nat := 128
  const BLOCK_PIXEL_CAP: nat := 1024

  type Address = nat

  // ----- 256-bit words

  /** A word's bits, least significant first. */
  type Word = w: seq<bool> | |w| == 256 witness seq(256, _ => false)

  function Zero(): Word { seq(256, _ => false) }

  function And(a: Word, b: Word): Word { seq(256, i requires 0 <= i < 256 => a[i] && b[i]) }

  function Or(a: Word, b: Word): Word { seq(256, i requires 0 <= i < 256 => a[i] || b[i]) }

  function Not(a: Word): Word { seq(256, i requires 0 <= i < 256 => !a[i]) }

  function Shl(a: Word, n: nat): Word { seq(256, i requires 0 <= i < 256 => n <= i && a[i - n]) }

  function Shr(a: Word, n: nat): Word { seq(256, i requires 0 <= i < 256 => i + n < 256 && a[i + n]) }

  /** The word of a number below 256. */
  function FromByte(b: byte): Word {
    seq(256, i requires 0 <= i < 256 => i < 8 && Digit(b, i))
  }

  function Digit(x: nat, i: nat): bool { if i == 0 then x % 2 == 1 else Digit(x / 2, i - 1) }

  /** The number that bits write, least significant first. */
  function Number(bits: seq<bool>): (x: nat)
    ensures x < Radix.Pow(2, |bits|)
  {
    if bits == [] then 0 else (if bits[0] then 1 else 0) + 2 * Number(bits[1..])
  }

  lemma Pow8()
    ensures Radix.Pow(2, 8) == 256
  {
    assert Radix.Pow(2, 4) == 16;
    assert Radix.Pow(2, 8) == 16 * Radix.Pow(2, 4);
  }

  /** The low byte of a word. */
  function LowByte(w: Word): byte {
    Pow8();
    Number(w[..8])
  }

  lemma {:induction false} NumberOfDigits(x: nat, bits: seq<bool>)
    requires x < Radix.Pow(2, |bits|) && forall i :: 0 <= i < |bits| ==> bits[i] == Digit(x, i)
    ensures Number(bits) == x
  {
    if bits != [] {
      NumberOfDigits(x / 2, bits[1..]);
    }
  }

  lemma LowOfByte(b: byte)
    ensures LowByte(FromByte(b)) == b
  {
    Pow8();
    NumberOfDigits(b, FromByte(b)[..8]);
  }

  /** The contract's read of the byte at `shift`. */
  function ByteAt(w: Word, shift: nat): byte { LowByte(Shr(w, shift)) }

  /** The contract's write of `color` at `shift`. */
  function WriteByte(w: Word, shift: nat, color: byte): Word {
    Or(And(w, Not(Shl(FromByte(0xff), shift))), Shl(FromByte(color), shift))
  }

  lemma LowAgrees(a: Word, b: Word)
    requires forall i :: 0 <= i < 8 ==> a[i] == b[i]
    ensures LowByte(a) == LowByte(b)
  {
    assert a[..8] == b[..8];
  }

  lemma {:induction false} AllOnes(x: nat, n: nat, i: nat)
    requires i < n && x + 1 == Radix.Pow(2, n)
    ensures Digit(x, i)
  {
    if i > 0 {
      AllOnes(x / 2, n - 1, i - 1);
    }
  }

  lemma MaskBits(i: nat)
    requires i < 8
    ensures FromByte(0xff)[i]
  {
    Pow8();
    AllOnes(0xff, 8, i);
  }

  lemma WrittenBit(w: Word, j: nat, color: byte, i: nat)
    requires j < 32 && i < 256
    ensures WriteByte(w, j * 8, color)[i] == if j * 8 <= i < j * 8 + 8 then FromByte(color)[i - j * 8] else w[i]
  {
    var s := j * 8;
    if s <= i < s + 8 {
      MaskBits(i - s);
    }
  }

  /** A write is read back at its own byte and changes no other. */
  lemma WriteRead(w: Word, j: nat, color: byte, k: nat)
    requires j < 32 && k < 32
    ensures ByteAt(WriteByte(w, j * 8, color), k * 8) == if k == j then color else ByteAt(w, k * 8)
  {
    var a := Shr(WriteByte(w, j * 8, color), k * 8);
    forall i | 0 <= i < 8
      ensures a[i] == if k == j then FromByte(color)[i] else Shr(w, k * 8)[i]
    {
      WrittenBit(w, j, color, i + k * 8);
    }
    if k == j {
      LowAgrees(a, FromByte(color));
      LowOfByte(color);
    } else {
      LowAgrees(a, Shr(w, k * 8));
    }
  }

  // ----- the packed canvas

  type Words = s: seq<Word> | |s| == WORDS witness seq(WORDS, _ => Zero())

  function Pixel(ws: Words, p: nat): byte
    requires p < PIXELS
  {
    ByteAt(ws[p / 32], p % 32 * 8)
  }

  /** The flat canvas: byte p is the color at position p. */
  function Canvas(ws: Words): (c: seq<byte>)
    ensures |c| == PIXELS && forall p :: 0 <= p < PIXELS ==> c[p] == Pixel(ws, p)
  {
    seq(PIXELS, p requires 0 <= p < PIXELS => Pixel(ws, p))
  }

  function PaintOne(ws: Words, pos: nat, color: byte): Words
    requires pos < PIXELS
  {
    ws[pos / 32 := WriteByte(ws[pos / 32], pos % 32 * 8, color)]
  }

  lemma PaintOneFlat(ws: Words, pos: nat, color: byte)
    requires pos < PIXELS
    ensures Canvas(PaintOne(ws, pos, color)) == Canvas(ws)[pos := color]
  {
    forall p | 0 <= p < PIXELS
      ensures Pixel(PaintOne(ws, pos, color), p) == if p == pos then color else Pixel(ws, p)
    {
      WriteRead(ws[pos / 32], pos % 32, color, p % 32);
    }
  }

  predicate InRange(positions: seq<nat>, colors: seq<byte>) {
    && |positions| == |colors|
    && forall k :: 0 <= k < |positions| ==> positions[k] < PIXELS && colors[k] < 16
  }

  /** One write after the other, straight to the words. */
  function PaintWords(ws: Words, positions: seq<nat>, colors: seq<byte>): Words
    requires InRange(positions, colors)
  {
    if positions == [] then ws
    else
      var n := |positions| - 1;
      PaintOne(PaintWords(ws, positions[..n], colors[..n]), positions[n], colors[n])
  }

  /** One write after the other on the flat canvas; the last one wins. */
  function Paint(canvas: seq<byte>, positions: seq<nat>, colors: seq<byte>): (c: seq<byte>)
    requires |canvas| == PIXELS && InRange(positions, colors)
    ensures |c| == PIXELS
  {
    if positions == [] then canvas
    else
      var n := |positions| - 1;
      Paint(canvas, positions[..n], colors[..n])[positions[n] := colors[n]]
  }

  lemma {:induction false} PaintFlat(ws: Words, positions: seq<nat>, colors: seq<byte>)
    requires InRange(positions, colors)
    ensures Canvas(PaintWords(ws, positions, colors)) == Paint(Canvas(ws), positions, colors)
  {
    if positions != [] {
      var n := |positions| - 1;
      PaintFlat(ws, positions[..n], colors[..n]);
      PaintOneFlat(PaintWords(ws, positions[..n], colors[..n]), positions[n], colors[n]);
    }
  }

  /** Painting as a whole: a position gets its last color in the batch, and every other pixel stays. */
  lemma {:induction false} LastWins(canvas: seq<byte>, positions: seq<nat>, colors: seq<byte>, p: nat)
    requires |canvas| == PIXELS && InRange(positions, colors) && p < PIXELS
    ensures p !in positions ==> Paint(canvas, positions, colors)[p] == canvas[p]
    ensures forall k | 0 <= k < |positions| && positions[k] == p && p !in positions[k + 1..] ::
              Paint(canvas, positions, colors)[p] == colors[k]
  {
    if positions != [] {
      var n := |positions| - 1;
      LastWins(canvas, positions[..n], colors[..n], p);
      forall k | 0 <= k < |positions| && positions[k] == p && p !in positions[k + 1..]
        ensures Paint(canvas, positions, colors)[p] == colors[k]
      {
        if k < n {
          assert positions[n] in positions[k + 1..];
          assert positions[..n][k + 1..] <= positions[k + 1..];
        }
      }
    }
  }

  // ----- counters

  ghost function Sum<K(!new)>(m: map<K, nat>): nat {
    if m == map[] then 0
    else
      var k :| k in m;
      m[k] + Sum(m - {k})
  }

  lemma {:induction false} SumRemove<K(!new)>(m: map<K, nat>, k: K)
    requires k in m
    ensures Sum(m) == m[k] + Sum(m - {k})
    decreases |m|
  {
    var c :| c in m && Sum(m) == m[c] + Sum(m - {c});
    if c != k {
      SumRemove(m - {c}, k);
      SumRemove(m - {k}, c);
      assert m - {c} - {k} == m - {k} - {c};
    }
  }

  function Lookup<K>(m: map<K, nat>, k: K): nat { if k in m then m[k] else 0 }

  lemma SumAdd<K(!new)>(m: map<K, nat>, k: K, n: nat)
    ensures Sum(m[k := Lookup(m, k) + n]) == Sum(m) + n
  {
    var m' := m[k := Lookup(m, k) + n];
    SumRemove(m', k);
    if k in m {
      SumRemove(m, k);
      assert m' - {k} == m - {k};
    } else {
      assert m' - {k} == m;
    }
  }

  // ----- the contract

  datatype Error =
    | Paused
    | LengthMismatch
    | BatchSize
    | BlockPixelCap
    | PosOutOfRange
    | ColorOutOfRange
    | NotOwner

  /** An event, with the block that logged it. */
  datatype PixelsSet = PixelsSet(artist: Address, block: nat, positions: seq<nat>, colors: seq<byte>)

  datatype State = State(words: Words, totalPixels: nat, pixelsBy: map<Address, nat>, paintedInBlock: map<nat, nat>,
                         owner: Address, paused: bool, log: seq<PixelsSet>)

  /** The first entry out of range, the position being looked at before the color. */
  function FirstBad(positions: seq<nat>, colors: seq<byte>): Option<Error>
    requires |positions| == |colors|
  {
    if positions == [] then None
    else if positions[0] >= PIXELS then Some(PosOutOfRange)
    else if colors[0] >= 16 then Some(ColorOutOfRange)
    else FirstBad(positions[1..], colors[1..])
  }

  lemma {:induction false} FirstBadNone(positions: seq<nat>, colors: seq<byte>)
    requires |positions| == |colors|
    ensures FirstBad(positions, colors) == None <==> InRange(positions, colors)
  {
    if positions != [] {
      FirstBadNone(positions[1..], colors[1..]);
      if InRange(positions[1..], colors[1..]) && positions[0] < PIXELS && colors[0] < 16 {
        forall k | 0 <= k < |positions|
          ensures positions[k] < PIXELS && colors[k] < 16
        {
          if k > 0 {
            assert positions[k] == positions[1..][k - 1] && colors[k] == colors[1..][k - 1];
          }
        }
      }
    }
  }

  function Refusal(s: State, block: nat, positions: seq<nat>, colors: seq<byte>): Option<Error> {
    if s.paused then Some(Paused)
    else if |positions| != |colors| then Some(LengthMismatch)
    else if !(1 <= |positions| <= MAX_BATCH) then Some(BatchSize)
    else if Lookup(s.paintedInBlock, block) + |positions| > BLOCK_PIXEL_CAP then Some(BlockPixelCap)
    else FirstBad(positions, colors)
  }

  /** A batch that is not refused, with no cache. */
  function Accepted(s: State, artist: Address, block: nat, positions: seq<nat>, colors: seq<byte>): State
    requires InRange(positions, colors)
  {
    var n := |positions|;
    State(PaintWords(s.words, positions, colors), s.totalPixels + n,
          s.pixelsBy[artist := Lookup(s.pixelsBy, artist) + n],
          s.paintedInBlock[block := Lookup(s.paintedInBlock, block) + n],
          s.owner, s.paused, s.log + [PixelsSet(artist, block, positions, colors)])
  }

  /** What `setPixels` does to the state: nothing at all when it is refused. */
  function AfterSet(s: State, artist: Address, block: nat, positions: seq<nat>, colors: seq<byte>): State {
    if Refusal(s, block, positions, colors).Some? then s
    else
      FirstBadNone(positions, colors);
      Accepted(s, artist, block, positions, colors)
  }

  /** The words as they will be once the cached word is written back. */
  function WrittenBack(ws: Words, cur: Option<nat>, word: Word): Words {
    if cur.Some? && cur.value < WORDS then ws[cur.value := word] else ws
  }

  lemma PaintStep(ws: Words, positions: seq<nat>, colors: seq<byte>, k: nat)
    requires |positions| == |colors| && k < |positions| && InRange(positions[..k], colors[..k])
    requires positions[k] < PIXELS && colors[k] < 16
    ensures InRange(positions[..k + 1], colors[..k + 1])
    ensures PaintWords(ws, positions[..k + 1], colors[..k + 1]) ==
            PaintOne(PaintWords(ws, positions[..k], colors[..k]), positions[k], colors[k])
  {
    var ps, cs := positions[..k + 1], colors[..k + 1];
    assert ps[..k] == positions[..k] && cs[..k] == colors[..k];
  }

  lemma {:induction false} BadLater(positions: seq<nat>, colors: seq<byte>, k: nat)
    requires |positions| == |colors| && k <= |positions| && InRange(positions[..k], colors[..k])
    ensures FirstBad(positions, colors) == FirstBad(positions[k..], colors[k..])
  {
    if k > 0 {
      var ps, cs := positions[1..], colors[1..];
      assert ps[..k - 1] == positions[..k][1..] && cs[..k - 1] == colors[..k][1..];
      assert positions[0] == positions[..k][0] && colors[0] == colors[..k][0];
      BadLater(ps, cs, k - 1);
      assert ps[k - 1..] == positions[k..] && cs[k - 1..] == colors[k..];
    }
  }

  class PixelCanvas {
    var words: Words
    var totalPixels: nat
    var pixelsBy: map<Address, nat>
    var paintedInBlock: map<nat, nat>
    var owner: Address
    var paused: bool
    var log: seq<PixelsSet>

    function View(): State
      reads this
    {
      State(words, totalPixels, pixelsBy, paintedInBlock, owner, paused, log)
    }

    constructor (sender: Address)
      ensures View() == Fresh(sender)
    {
      words, totalPixels := seq(WORDS, _ => Zero()), 0;
      pixelsBy, paintedInBlock := map[], map[];
      owner, paused, log := sender, false, [];
    }

    /** The write loop with its one-word cache; `bad` is the error of the first entry out of range. */
    method Write(positions: seq<nat>, colors: seq<byte>) returns (bad: Option<Error>)
      requires 0 < |positions| == |colors|
      modifies this`words
      ensures bad == FirstBad(positions, colors)
      ensures bad.None? ==> InRange(positions, colors) && words == PaintWords(old(words), positions, colors)
    {
      var cur: Option<nat>, word := None, Zero();
      for k := 0 to |positions|
        invariant InRange(positions[..k], colors[..k])
        invariant cur.Some? ==> cur.value < WORDS
        invariant cur.None? ==> k == 0
        invariant WrittenBack(words, cur, word) == PaintWords(old(words), positions[..k], colors[..k])
      {
        var pos, color := positions[k], colors[k];
        BadLater(positions, colors, k);
        if pos >= PIXELS {
          return Some(PosOutOfRange);
        }
        if color >= 16 {
          return Some(ColorOutOfRange);
        }
        PaintStep(old(words), positions, colors, k);
        var index, shift := pos / 32, pos % 32 * 8;
        if cur != Some(index) {
          if cur.Some? {
            words := words[cur.value := word];
          }
          cur := Some(index);
          word := words[index];
        }
        word := WriteByte(word, shift, color);
      }
      words := words[cur.value := word];
      assert positions[..|positions|] == positions && colors[..|colors|] == colors;
      FirstBadNone(positions, colors);
      return None;
    }

    /** A refused call leaves the state as it was: the chain undoes what a reverted call wrote. */
    method SetPixels(sender: Address, block: nat, positions: seq<nat>, colors: seq<byte>) returns (bad: Option<Error>)
      modifies this
      ensures bad == Refusal(old(View()), block, positions, colors)
      ensures View() == AfterSet(old(View()), sender, block, positions, colors)
    {
      var n := |positions|;
      if paused {
        return Some(Paused);
      }
      if n != |colors| {
        return Some(LengthMismatch);
      }
      if !(n >= 1 && n <= MAX_BATCH) {
        return Some(BatchSize);
      }
      var painted := Lookup(paintedInBlock, block) + n;
      if !(painted <= BLOCK_PIXEL_CAP) {
        return Some(BlockPixelCap);
      }
      var words0, painted0 := words, paintedInBlock;
      paintedInBlock := paintedInBlock[block := painted];
      bad := Write(positions, colors);
      if bad.Some? {
        words, paintedInBlock := words0, painted0;
        return;
      }
      totalPixels := totalPixels + n;
      pixelsBy := pixelsBy[sender := Lookup(pixelsBy, sender) + n];
      log := log + [PixelsSet(sender, block, positions, colors)];
    }

    method GetCanvas() returns (out: array<byte>)
      ensures out[..] == Canvas(words)
    {
      out := new byte[PIXELS](_ => 0);
      for i := 0 to WORDS
        invariant out.Length == PIXELS && fresh(out)
        invariant forall p :: 0 <= p < 32 * i ==> out[p] == Pixel(words, p)
        invariant forall p :: 32 * i <= p < PIXELS ==> out[p] == 0
      {
        var word := words[i];
        if word == Zero() {
          ZeroBytes(words, i);
          continue;
        }
        for j := 0 to 32
          invariant out.Length == PIXELS
          invariant forall p :: 0 <= p < 32 * i + j ==> out[p] == Pixel(words, p)
          invariant forall p :: 32 * i + j <= p < PIXELS ==> out[p] == 0
        {
          assert (32 * i + j) / 32 == i && (32 * i + j) % 32 == j;
          out[32 * i + j] := LowByte(Shr(word, j * 8));
        }
      }
    }

    method GetPixel(pos: nat) returns (r: Result<byte, Error>)
      ensures r == if pos < PIXELS then Ok(Canvas(words)[pos]) else Err(PosOutOfRange)
    {
      if pos >= PIXELS {
        return Err(PosOutOfRange);
      }
      return Ok(LowByte(Shr(words[pos / 32], pos % 32 * 8)));
    }

    method SetPaused(sender: Address, p: bool) returns (bad: Option<Error>)
      modifies this`paused
      ensures bad == (if sender == owner then None else Some(NotOwner))
      ensures View() == Pause(old(View()), sender, p)
    {
      if sender != owner {
        return Some(NotOwner);
      }
      paused := p;
      return None;
    }
  }

  function Fresh(owner: Address): State { State(seq(WORDS, _ => Zero()), 0, map[], map[], owner, false, []) }

  function Pause(s: State, sender: Address, p: bool): State { if sender == s.owner then s.(paused := p) else s }

  lemma {:induction false} NumberOfNone(bits: seq<bool>)
    requires forall i :: 0 <= i < |bits| ==> !bits[i]
    ensures Number(bits) == 0
  {
    if bits != [] {
      NumberOfNone(bits[1..]);
    }
  }

  lemma ZeroByte(shift: nat)
    ensures ByteAt(Zero(), shift) == 0
  {
    NumberOfNone(Shr(Zero(), shift)[..8]);
  }

  lemma ZeroBytes(ws: Words, i: nat)
    requires i < WORDS && ws[i] == Zero()
    ensures forall p :: 32 * i <= p < 32 * i + 32 ==> Pixel(ws, p) == 0
  {
    forall p | 32 * i <= p < 32 * i + 32
      ensures Pixel(ws, p) == 0
    {
      assert p / 32 == i;
      ZeroByte(p % 32 * 8);
    }
  }

  // ----- what every run keeps

  /** The canvas a client gets from the log alone, starting blank. */
  function Replay(log: seq<PixelsSet>): (c: seq<byte>)
    requires forall e <- log :: InRange(e.positions, e.colors)
    ensures |c| == PIXELS
  {
    if log == [] then seq(PIXELS, _ => 0)
    else
      var e := log[|log| - 1];
      assert forall x <- log[..|log| - 1] :: x in log;
      Paint(Replay(log[..|log| - 1]), e.positions, e.colors)
  }

  /** The canvas is the log replayed, and every color is a palette index. */
  ghost predicate Shown(ws: Words, log: seq<PixelsSet>) {
    && (forall e <- log :: InRange(e.positions, e.colors))
    && Canvas(ws) == Replay(log)
    && (forall p :: 0 <= p < PIXELS ==> Canvas(ws)[p] < 16)
  }

  /** The pixels of the logged batches that `keep` holds of. */
  function Count(log: seq<PixelsSet>, keep: PixelsSet -> bool): nat {
    if log == [] then 0
    else
      var e := log[|log| - 1];
      Count(log[..|log| - 1], keep) + if keep(e) then |e.positions| else 0
  }

  function By(artist: Address): PixelsSet -> bool { (e: PixelsSet) => e.artist == artist }

  function In(block: nat): PixelsSet -> bool { (e: PixelsSet) => e.block == block }

  function Any(): PixelsSet -> bool { (e: PixelsSet) => true }

  /** A counter holds, under each key, the pixels of that key's batches. */
  ghost predicate Tallies(m: map<nat, nat>, log: seq<PixelsSet>, keep: nat -> PixelsSet -> bool) {
    forall x: nat :: Lookup(m, x) == Count(log, keep(x))
  }

  /**
  Every counter counts the logged batches: of an artist, of a block, and all of them. The counts by artist and by block
  add up to the total, and no block is over its cap.
  */
  ghost predicate Counted(total: nat, byArtist: map<Address, nat>, inBlock: map<nat, nat>, log: seq<PixelsSet>) {
    && Tallies(byArtist, log, By) && Tallies(inBlock, log, In)
    && total == Count(log, Any()) == Sum(byArtist) == Sum(inBlock)
    && forall b | b in inBlock :: inBlock[b] <= 1024
  }

  ghost predicate Valid(s: State) {
    Shown(s.words, s.log) && Counted(s.totalPixels, s.pixelsBy, s.paintedInBlock, s.log)
  }

  lemma FreshValid(owner: Address)
    ensures Valid(Fresh(owner))
  {
    var ws := Fresh(owner).words;
    forall p | 0 <= p < PIXELS
      ensures Pixel(ws, p) == 0
    {
      ZeroBytes(ws, p / 32);
    }
    assert Canvas(ws) == Replay([]);
  }

  lemma {:induction false} PaintKeepsColors(canvas: seq<byte>, positions: seq<nat>, colors: seq<byte>)
    requires |canvas| == PIXELS && InRange(positions, colors) && forall p :: 0 <= p < PIXELS ==> canvas[p] < 16
    ensures forall p :: 0 <= p < PIXELS ==> Paint(canvas, positions, colors)[p] < 16
  {
    if positions != [] {
      var n := |positions| - 1;
      PaintKeepsColors(canvas, positions[..n], colors[..n]);
    }
  }

  lemma PaintShows(ws: Words, log: seq<PixelsSet>, e: PixelsSet)
    requires Shown(ws, log) && InRange(e.positions, e.colors)
    ensures Shown(PaintWords(ws, e.positions, e.colors), log + [e])
  {
    PaintFlat(ws, e.positions, e.colors);
    PaintKeepsColors(Canvas(ws), e.positions, e.colors);
    assert (log + [e])[..|log|] == log;
  }

  lemma CountSnoc(log: seq<PixelsSet>, e: PixelsSet, keep: PixelsSet -> bool)
    ensures Count(log + [e], keep) == Count(log, keep) + if keep(e) then |e.positions| else 0
  {
    assert (log + [e])[..|log|] == log;
  }

  lemma TallyStep(m: map<nat, nat>, key: nat, log: seq<PixelsSet>, e: PixelsSet, keep: nat -> PixelsSet -> bool)
    requires Tallies(m, log, keep) && forall x: nat :: keep(x)(e) <==> x == key
    ensures Tallies(m[key := Lookup(m, key) + |e.positions|], log + [e], keep)
  {
    forall x: nat
      ensures Lookup(m[key := Lookup(m, key) + |e.positions|], x) == Count(log + [e], keep(x))
    {
      CountSnoc(log, e, keep(x));
    }
  }

  lemma SumsStep(total: nat, byArtist: map<Address, nat>, inBlock: map<nat, nat>, artist: Address, block: nat, n: nat)
    requires total == Sum(byArtist) == Sum(inBlock)
    ensures total + n == Sum(byArtist[artist := Lookup(byArtist, artist) + n]) ==
            Sum(inBlock[block := Lookup(inBlock, block) + n])
  {
    SumAdd(byArtist, artist, n);
    SumAdd(inBlock, block, n);
  }

  lemma PaintCounts(total: nat, byArtist: map<Address, nat>, inBlock: map<nat, nat>, log: seq<PixelsSet>, e: PixelsSet)
    requires Counted(total, byArtist, inBlock, log)
    requires Lookup(inBlock, e.block) + |e.positions| <= BLOCK_PIXEL_CAP
    ensures var n := |e.positions|;
            Counted(total + n, byArtist[e.artist := Lookup(byArtist, e.artist) + n],
                    inBlock[e.block := Lookup(inBlock, e.block) + n], log + [e])
  {
    SumsStep(total, byArtist, inBlock, e.artist, e.block, |e.positions|);
    CountSnoc(log, e, Any());
    TallyStep(byArtist, e.artist, log, e, By);
    TallyStep(inBlock, e.block, log, e, In);
  }

  lemma SetShows(s: State, e: PixelsSet)
    requires Shown(s.words, s.log) && InRange(e.positions, e.colors)
    ensures var s' := Accepted(s, e.artist, e.block, e.positions, e.colors); Shown(s'.words, s'.log)
  {
    PaintShows(s.words, s.log, e);
  }

  lemma SetCounts(s: State, e: PixelsSet)
    requires Counted(s.totalPixels, s.pixelsBy, s.paintedInBlock, s.log)
    requires InRange(e.positions, e.colors) && Lookup(s.paintedInBlock, e.block) + |e.positions| <= BLOCK_PIXEL_CAP
    ensures var s' := Accepted(s, e.artist, e.block, e.positions, e.colors);
            Counted(s'.totalPixels, s'.pixelsBy, s'.paintedInBlock, s'.log)
  {
    PaintCounts(s.totalPixels, s.pixelsBy, s.paintedInBlock, s.log, e);
  }

  lemma SetPixelsKeeps(s: State, artist: Address, block: nat, positions: seq<nat>, colors: seq<byte>)
    requires Valid(s)
    ensures Valid(AfterSet(s, artist, block, positions, colors))
  {
    if Refusal(s, block, positions, colors).None? {
      FirstBadNone(positions, colors);
      SetShows(s, PixelsSet(artist, block, positions, colors));
      SetCounts(s, PixelsSet(artist, block, positions, colors));
    }
  }

  datatype Call =
    | Set(sender: Address, block: nat, positions: seq<nat>, colors: seq<byte>)
    | SetPause(sender: Address, p: bool)

  function Do(s: State, call: Call): State {
    match call
    case Set(sender, block, positions, colors) => AfterSet(s, sender, block, positions, colors)
    case SetPause(sender, p) => Pause(s, sender, p)
  }

  function Run(owner: Address, calls: seq<Call>): State {
    if calls == [] then Fresh(owner) else Do(Run(owner, calls[..|calls| - 1]), calls[|calls| - 1])
  }

  /** Over every run: the canvas is the log replayed, every color a palette index, and every counter counts the log. */
  lemma {:induction false} RunsKeepCanvas(owner: Address, calls: seq<Call>)
    ensures Valid(Run(owner, calls))
  {
    if calls == [] {
      FreshValid(owner);
    } else {
      var s, call := Run(owner, calls[..|calls| - 1]), calls[|calls| - 1];
      RunsKeepCanvas(owner, calls[..|calls| - 1]);
      if call.Set? {
        SetPixelsKeeps(s, call.sender, call.block, call.positions, call.colors);
      }
    }
  }

  /** A batch that may be painted: as long as it has colors, one to 128 pixels, room for them in the block, all in range. */
  ghost predicate Paintable(paused: bool, painted: nat, positions: seq<nat>, colors: seq<byte>) {
    && !paused && |positions| == |colors| && 1 <= |positions| <= 128 && painted + |positions| <= 1024
    && forall k :: 0 <= k < |positions| ==> positions[k] < 4096 && colors[k] < 16
  }

  lemma RefusedExactlyWhen(s: State, block: nat, positions: seq<nat>, colors: seq<byte>)
    ensures Refusal(s, block, positions, colors).None? <==>
              Paintable(s.paused, Lookup(s.paintedInBlock, block), positions, colors)
  {
    if |positions| == |colors| {
      FirstBadNone(positions, colors);
    }
  }

  /** The error of a batch refused for an entry is that of its first one out of range, the position coming first. */
  lemma FirstBadIsFirst(positions: seq<nat>, colors: seq<byte>, k: nat)
    requires |positions| == |colors| && k < |positions|
    requires forall j :: 0 <= j < k ==> positions[j] < 4096 && colors[j] < 16
    requires positions[k] >= 4096 || colors[k] >= 16
    ensures FirstBad(positions, colors) == Some(if positions[k] >= 4096 then PosOutOfRange else ColorOutOfRange)
  {
    BadLater(positions, colors, k);
  }

  /** The owner paused painting and has not resumed it since. */
  ghost predicate PausedBy(owner: Address, calls: seq<Call>) {
    exists k :: 0 <= k < |calls| && calls[k] == SetPause(owner, true)
                && forall j :: k < j < |calls| ==> calls[j] != SetPause(owner, false)
  }

  /** The batches among the calls that could be painted when they came, whoever sent them. */
  ghost function Batches(owner: Address, calls: seq<Call>): seq<PixelsSet> {
    if calls == [] then []
    else
      var before, call := calls[..|calls| - 1], calls[|calls| - 1];
      var log := Batches(owner, before);
      if call.Set? && Paintable(PausedBy(owner, before), Count(log, In(call.block)), call.positions, call.colors)
      then log + [PixelsSet(call.sender, call.block, call.positions, call.colors)]
      else log
  }

  lemma PausedStep(owner: Address, calls: seq<Call>, call: Call)
    ensures PausedBy(owner, calls + [call]) <==>
              call == SetPause(owner, true) || (call != SetPause(owner, false) && PausedBy(owner, calls))
  {
    var more := calls + [call];
    assert more[|calls|] == call && forall j :: 0 <= j < |calls| ==> more[j] == calls[j];
  }

  /**
  What a run comes to, from its calls alone: the deployer owns it for good, painting is paused exactly while the owner
  says so, and the log holds exactly the batches that could be painted when they came, each under its sender.
  */
  lemma {:induction false} RunIs(owner: Address, calls: seq<Call>)
    ensures var s := Run(owner, calls);
            s.owner == owner && (s.paused <==> PausedBy(owner, calls)) && s.log == Batches(owner, calls)
  {
    if calls != [] {
      var before, call := calls[..|calls| - 1], calls[|calls| - 1];
      RunIs(owner, before);
      assert calls == before + [call];
      PausedStep(owner, before, call);
      RunsKeepCanvas(owner, before);
      LogStep(Run(owner, before), call);
    }
  }

  lemma LogStep(s: State, call: Call)
    requires Valid(s)
    ensures Do(s, call).log ==
            if call.Set? && Paintable(s.paused, Count(s.log, In(call.block)), call.positions, call.colors)
            then s.log + [PixelsSet(call.sender, call.block, call.positions, call.colors)]
            else s.log
  {
    if call.Set? {
      RefusedExactlyWhen(s, call.block, call.positions, call.colors);
    }
  }
}
