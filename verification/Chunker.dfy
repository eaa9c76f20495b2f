/**
The quest page's chunker: the pending pixels in order of position, cut greedily into transactions that respect the
contract's batch size and a gas budget counted in distinct storage words.
*/
module Chunker {
  import opened Common
  import PixelCanvas

  const MAX_BATCH: nat := 128
  const GAS_BASE: nat := 100000
  const GAS_PER_PIXEL: nat := 1200
  const GAS_PER_WORD: nat := 23000
  const GAS_BUDGET: nat := 800000

  /** A position and its color. */
  type Dot = (nat, byte)

  datatype Chunk = Chunk(pixels: seq<Dot>, words: nat)

  function EstimateGas(pixels: nat, words: nat): nat {
    GAS_BASE + GAS_PER_PIXEL * pixels + GAS_PER_WORD * words
  }

  function WordsOf(dots: seq<Dot>): set<nat> { set i | 0 <= i < |dots| :: dots[i].0 / 32 }

  /** One transaction's limits, with the exact count of distinct words. */
  predicate Fits(dots: seq<Dot>) {
    |dots| <= MAX_BATCH && EstimateGas(|dots|, |WordsOf(dots)|) <= GAS_BUDGET
  }

  // ----- greedy cutting, for any limit that holds of every part of what it holds of

  function Flatten<T>(parts: seq<seq<T>>): seq<T> {
    if parts == [] then [] else parts[0] + Flatten(parts[1..])
  }

  ghost predicate Hereditary<T(!new)>(fits: seq<T> -> bool) {
    forall s: seq<T>, i, j | fits(s) && 0 <= i <= j <= |s| :: fits(s[i..j])
  }

  /** From a fitting prefix of length k, the longest one reached by adding elements while they fit. */
  function Longest<T>(fits: seq<T> -> bool, s: seq<T>, k: nat): (n: nat)
    requires k <= |s|
    ensures k <= n <= |s|
    decreases |s| - k
  {
    if k < |s| && fits(s[..k + 1]) then Longest(fits, s, k + 1) else k
  }

  function Greedy<T>(fits: seq<T> -> bool, s: seq<T>): seq<seq<T>>
    decreases |s|
  {
    if s == [] then []
    else
      var k := Longest(fits, s, 1);
      [s[..k]] + Greedy(fits, s[k..])
  }

  lemma {:induction false} LongestReaches<T(!new)>(fits: seq<T> -> bool, s: seq<T>, k: nat, j: nat)
    requires Hereditary(fits) && k <= j <= |s| && fits(s[..j])
    ensures Longest(fits, s, k) >= j
    decreases |s| - k
  {
    if k < j {
      assert s[..j][0..k + 1] == s[..k + 1];
      LongestReaches(fits, s, k + 1, j);
    }
  }

  /** Cutting a suffix greedily takes no more parts than any cutting of the whole under the same limit. */
  lemma {:induction false} GreedyStaysAhead<T(!new)>(fits: seq<T> -> bool, s: seq<T>, d: nat, parts: seq<seq<T>>)
    requires Hereditary(fits) && d <= |s| && Flatten(parts) == s && forall p <- parts :: fits(p)
    ensures |Greedy(fits, s[d..])| <= |parts|
    decreases |parts|
  {
    if parts != [] && d < |s| {
      var m, rest, u := |parts[0]|, Flatten(parts[1..]), s[d..];
      assert s == parts[0] + rest;
      if m <= d {
        assert rest[d - m..] == u;
        GreedyStaysAhead(fits, rest, d - m, parts[1..]);
      } else {
        var k := Longest(fits, u, 1);
        assert u[..m - d] == parts[0][d..m];
        LongestReaches(fits, u, 1, m - d);
        assert rest[d + k - m..] == u[k..];
        GreedyStaysAhead(fits, rest, d + k - m, parts[1..]);
      }
    }
  }

  lemma GreedyIsLeast<T(!new)>(fits: seq<T> -> bool, s: seq<T>, parts: seq<seq<T>>)
    requires Hereditary(fits) && Flatten(parts) == s && forall p <- parts :: fits(p)
    ensures |Greedy(fits, s)| <= |parts|
  {
    assert s[0..] == s;
    GreedyStaysAhead(fits, s, 0, parts);
  }

  lemma {:induction false} LongestFits<T>(fits: seq<T> -> bool, s: seq<T>, k: nat)
    requires k <= |s| && fits(s[..k])
    ensures fits(s[..Longest(fits, s, k)])
    decreases |s| - k
  {
    if k < |s| && fits(s[..k + 1]) {
      LongestFits(fits, s, k + 1);
    }
  }

  /** The parts are not empty, fit, and in order make up the whole. */
  lemma {:induction false} GreedyPartitions<T(!new)>(fits: seq<T> -> bool, s: seq<T>)
    requires forall x: T :: fits([x])
    ensures Flatten(Greedy(fits, s)) == s
    ensures forall p <- Greedy(fits, s) :: p != [] && fits(p)
    decreases |s|
  {
    if s != [] {
      var k := Longest(fits, s, 1);
      assert s[..1] == [s[0]];
      LongestFits(fits, s, 1);
      GreedyPartitions(fits, s[k..]);
      assert s == s[..k] + s[k..];
      assert Greedy(fits, s)[1..] == Greedy(fits, s[k..]);
    }
  }

  // ----- the transaction limits

  lemma FitsIsHereditary()
    ensures Hereditary(Fits)
  {
    forall s: seq<Dot>, i, j | Fits(s) && 0 <= i <= j <= |s|
      ensures Fits(s[i..j])
    {
      var part := s[i..j];
      forall w | w in WordsOf(part)
        ensures w in WordsOf(s)
      {
        var k :| 0 <= k < |part| && part[k].0 / 32 == w;
        assert s[i + k] == part[k];
      }
      SubsetSize(WordsOf(part), WordsOf(s));
    }
  }

  /** The limits in numbers: at most 128 pixels, and 1200 gas a pixel and 23000 a word within 700000. */
  lemma FitsExactlyWhen(dots: seq<Dot>)
    ensures Fits(dots) <==> |dots| <= 128 && 1200 * |dots| + 23000 * |WordsOf(dots)| <= 700000
  {
  }

  lemma OneFits(d: Dot)
    ensures Fits([d])
  {
    assert [d][0] == d && d.0 / 32 in WordsOf([d]);
    assert WordsOf([d]) == {d.0 / 32};
  }

  lemma WordsSnoc(dots: seq<Dot>, d: Dot)
    ensures WordsOf(dots + [d]) == WordsOf(dots) + {d.0 / 32}
  {
    var more := dots + [d];
    forall w | w in WordsOf(dots) + {d.0 / 32}
      ensures w in WordsOf(more)
    {
      if w in WordsOf(dots) {
        var k :| 0 <= k < |dots| && dots[k].0 / 32 == w;
        assert more[k] == dots[k];
      } else {
        assert more[|dots|] == d;
      }
    }
  }

  function Pixels(chunks: seq<Chunk>): (r: seq<seq<Dot>>)
    ensures |r| == |chunks| && forall i :: 0 <= i < |r| ==> r[i] == chunks[i].pixels
  {
    seq(|chunks|, i requires 0 <= i < |chunks| => chunks[i].pixels)
  }

  ghost predicate WordsExact(chunks: seq<Chunk>) {
    forall i :: 0 <= i < |chunks| ==> chunks[i].words == |WordsOf(chunks[i].pixels)|
  }

  lemma GreedyCuts<T>(fits: seq<T> -> bool, s: seq<T>, k: nat)
    requires 1 <= k <= |s| && Longest(fits, s, 1) == k
    ensures Greedy(fits, s) == [s[..k]] + Greedy(fits, s[k..])
  {
  }

  /** Extending a prefix that fits either reaches further or has reached the longest one. */
  lemma LongestStep<T>(fits: seq<T> -> bool, s: seq<T>, k: nat)
    requires 1 <= k < |s| && Longest(fits, s, 1) == Longest(fits, s, k)
    ensures fits(s[..k + 1]) ==> Longest(fits, s, 1) == Longest(fits, s, k + 1)
    ensures !fits(s[..k + 1]) ==> Longest(fits, s, 1) == k
  {
  }

  // ----- the pending set in order of position

  predicate Least(k: nat, keys: set<nat>) { k in keys && forall x <- keys :: k <= x }

  lemma LeastExists(keys: set<nat>)
    requires keys != {}
    ensures exists k :: Least(k, keys)
    decreases |keys|
  {
    var k :| k in keys;
    var rest := keys - {k};
    if rest == {} {
      assert keys == {k};
      assert Least(k, keys);
    } else {
      LeastExists(rest);
      var m :| Least(m, rest);
      var least := if k <= m then k else m;
      forall x | x in keys
        ensures least <= x
      {
        assert x == k || x in rest;
      }
      assert Least(least, keys);
    }
  }

  function Ascending(keys: set<nat>): seq<nat> {
    if keys == {} then []
    else
      LeastExists(keys);
      var k :| Least(k, keys);
      [k] + Ascending(keys - {k})
  }

  /** Every key once, in increasing order. */
  lemma {:induction false} AscendingSorts(keys: set<nat>)
    ensures forall i, j :: 0 <= i < j < |Ascending(keys)| ==> Ascending(keys)[i] < Ascending(keys)[j]
    ensures forall x :: x in Ascending(keys) <==> x in keys
  {
    if keys != {} {
      var k := Ascending(keys)[0];
      AscendingSorts(keys - {k});
      assert Ascending(keys) == [k] + Ascending(keys - {k});
      forall j | 0 < j < |Ascending(keys)|
        ensures k < Ascending(keys)[j]
      {
        assert Ascending(keys)[j] in Ascending(keys - {k});
      }
    }
  }

  function Entries(pending: map<nat, byte>): seq<Dot> {
    AscendingSorts(pending.Keys);
    var keys := Ascending(pending.Keys);
    seq(|keys|, i requires 0 <= i < |keys| => assert keys[i] in keys; (keys[i], pending[keys[i]]))
  }

  // ----- the chunker

  /** How far the loop is: parts cut so far, and the current one from `b` to `i`. */
  ghost predicate Cutting<T>(fits: seq<T> -> bool, s: seq<T>, done: seq<seq<T>>, b: nat, i: nat) {
    && b <= i <= |s| && (b < i || i == 0)
    && done + Greedy(fits, s[b..]) == Greedy(fits, s)
    && (b < i ==> Longest(fits, s[b..], 1) == Longest(fits, s[b..], i - b))
  }

  lemma Started<T>(fits: seq<T> -> bool, s: seq<T>)
    ensures Cutting(fits, s, [], 0, 0)
  {
    assert s[0..] == s && [] + Greedy(fits, s) == Greedy(fits, s);
  }

  lemma CutHere<T>(fits: seq<T> -> bool, s: seq<T>, done: seq<seq<T>>, b: nat, i: nat)
    requires Cutting(fits, s, done, b, i) && b < i && Longest(fits, s[b..], 1) == i - b
    ensures done + [s[b..i]] + Greedy(fits, s[i..]) == Greedy(fits, s)
  {
    var u := s[b..];
    GreedyCuts(fits, u, i - b);
    assert u[..i - b] == s[b..i] && u[i - b..] == s[i..];
  }

  /** The next element goes into the current part when it fits there or the part is empty, and opens a new one else. */
  lemma CutStep<T>(fits: seq<T> -> bool, s: seq<T>, done: seq<seq<T>>, b: nat, i: nat)
    requires Cutting(fits, s, done, b, i) && i < |s|
    ensures b == i || fits(s[b..i] + [s[i]]) ==> Cutting(fits, s, done, b, i + 1)
    ensures b < i && !fits(s[b..i] + [s[i]]) ==> Cutting(fits, s, done + [s[b..i]], i, i + 1)
  {
    if b < i {
      assert s[b..i] + [s[i]] == s[b..][..i - b + 1];
      LongestStep(fits, s[b..], i - b);
      if !fits(s[b..i] + [s[i]]) {
        CutHere(fits, s, done, b, i);
      }
    }
  }

  lemma CutEnd<T>(fits: seq<T> -> bool, s: seq<T>, done: seq<seq<T>>, b: nat)
    requires Cutting(fits, s, done, b, |s|)
    ensures Greedy(fits, s) == if b < |s| then done + [s[b..|s|]] else done
  {
    assert s[|s|..] == [];
    if b < |s| {
      CutHere(fits, s, done, b, |s|);
      assert done + [s[b..|s|]] + [] == done + [s[b..|s|]];
    }
  }

  lemma ChunksSnoc(chunks: seq<Chunk>, chunk: Chunk)
    ensures Pixels(chunks + [chunk]) == Pixels(chunks) + [chunk.pixels]
    ensures WordsExact(chunks) && chunk.words == |WordsOf(chunk.pixels)| ==> WordsExact(chunks + [chunk])
  {
  }

  /** Whether one more dot still fits, by the running word set. */
  method StillFits(cur: seq<Dot>, words: set<nat>, d: Dot) returns (fits: bool)
    requires words == WordsOf(cur)
    ensures fits <==> Fits(cur + [d])
  {
    var w := d.0 / 32;
    var nextWords := if w in words then |words| else |words| + 1;
    fits := |cur| < MAX_BATCH && EstimateGas(|cur| + 1, nextWords) <= GAS_BUDGET;
    WordsSnoc(cur, d);
    assert w in words ==> words + {w} == words;
  }

  method Close(chunks: seq<Chunk>, cur: seq<Dot>, words: set<nat>) returns (more: seq<Chunk>)
    requires WordsExact(chunks) && words == WordsOf(cur)
    ensures WordsExact(more) && Pixels(more) == Pixels(chunks) + [cur]
  {
    more := chunks + [Chunk(cur, |words|)];
    ChunksSnoc(chunks, Chunk(cur, |words|));
  }

  method Add(cur: seq<Dot>, words: set<nat>, d: Dot) returns (cur': seq<Dot>, words': set<nat>)
    requires words == WordsOf(cur)
    ensures cur' == cur + [d] && words' == WordsOf(cur')
  {
    WordsSnoc(cur, d);
    cur', words' := cur + [d], words + {d.0 / 32};
  }

  method Chunks(dots: seq<Dot>) returns (chunks: seq<Chunk>)
    ensures Pixels(chunks) == Greedy(Fits, dots) && WordsExact(chunks)
  {
    chunks := [];
    var cur: seq<Dot>, words: set<nat> := [], {};
    ghost var b, done := 0, Pixels(chunks);
    Started(Fits, dots);
    for i := 0 to |dots|
      invariant Cutting(Fits, dots, done, b, i) && cur == dots[b..i]
      invariant words == WordsOf(cur) && WordsExact(chunks) && done == Pixels(chunks)
    {
      var fits := StillFits(cur, words, dots[i]);
      CutStep(Fits, dots, done, b, i);
      if |cur| > 0 && !fits {
        chunks := Close(chunks, cur, words);
        done, b := done + [cur], i;
        cur, words := [], {};
      }
      cur, words := Add(cur, words, dots[i]);
    }
    CutEnd(Fits, dots, done, b);
    if |cur| > 0 {
      chunks := Close(chunks, cur, words);
    }
  }

  /**
   The pending set in order of position, cut into chunks that are within the limits by their exact word count, and no
   cutting of that sequence under the same limits has fewer.
   */
  method ChunkPending(pending: map<nat, byte>) returns (chunks: seq<Chunk>)
    ensures Flatten(Pixels(chunks)) == Entries(pending)
    ensures forall i :: 0 <= i < |chunks| ==> chunks[i].pixels != [] && Fits(chunks[i].pixels)
    ensures WordsExact(chunks)
    ensures forall parts | Flatten(parts) == Entries(pending) && (forall p <- parts :: Fits(p)) :: |chunks| <= |parts|
  {
    var dots := Entries(pending);
    chunks := Chunks(dots);
    forall d: Dot
      ensures Fits([d])
    {
      OneFits(d);
    }
    GreedyPartitions(Fits, dots);
    forall i | 0 <= i < |chunks|
      ensures chunks[i].pixels != [] && Fits(chunks[i].pixels)
    {
      assert Pixels(chunks)[i] in Greedy(Fits, dots);
    }
    FitsIsHereditary();
    forall parts | Flatten(parts) == dots && (forall p <- parts :: Fits(p))
      ensures |chunks| <= |parts|
    {
      GreedyIsLeast(Fits, dots, parts);
    }
  }

  // ----- what the chunks paint

  function Positions(dots: seq<Dot>): (r: seq<nat>)
    ensures |r| == |dots| && forall i :: 0 <= i < |r| ==> r[i] == dots[i].0
  {
    seq(|dots|, i requires 0 <= i < |dots| => dots[i].0)
  }

  function Colors(dots: seq<Dot>): (r: seq<byte>)
    ensures |r| == |dots| && forall i :: 0 <= i < |r| ==> r[i] == dots[i].1
  {
    seq(|dots|, i requires 0 <= i < |dots| => dots[i].1)
  }

  predicate Paintable(dots: seq<Dot>) {
    forall i :: 0 <= i < |dots| ==> dots[i].0 < PixelCanvas.PIXELS && dots[i].1 < 16
  }

  /** A chunk is refused only while painting is paused or the block is full. */
  lemma ChunkAccepted(s: PixelCanvas.State, block: nat, dots: seq<Dot>)
    requires dots != [] && Fits(dots) && Paintable(dots)
    ensures PixelCanvas.Refusal(s, block, Positions(dots), Colors(dots)).None? <==>
            !s.paused && PixelCanvas.Lookup(s.paintedInBlock, block) + |dots| <= PixelCanvas.BLOCK_PIXEL_CAP
  {
    PixelCanvas.FirstBadNone(Positions(dots), Colors(dots));
  }

  /** Painting a chunk writes the storage words that were counted for it and no other. */
  lemma {:induction false} ChunkTouches(ws: PixelCanvas.Words, dots: seq<Dot>, w: nat)
    requires Paintable(dots) && w < PixelCanvas.WORDS && w !in WordsOf(dots)
    ensures PixelCanvas.PaintWords(ws, Positions(dots), Colors(dots))[w] == ws[w]
  {
    if dots != [] {
      var n := |dots| - 1;
      WordsSnoc(dots[..n], dots[n]);
      assert dots == dots[..n] + [dots[n]];
      ChunkTouches(ws, dots[..n], w);
      assert Positions(dots)[..n] == Positions(dots[..n]) && Colors(dots)[..n] == Colors(dots[..n]);
    }
  }

  function PaintDots(canvas: seq<byte>, dots: seq<Dot>): (c: seq<byte>)
    requires |canvas| == PixelCanvas.PIXELS && Paintable(dots)
    ensures |c| == PixelCanvas.PIXELS
  {
    PixelCanvas.Paint(canvas, Positions(dots), Colors(dots))
  }

  /** One chunk after the other. */
  function PaintParts(canvas: seq<byte>, parts: seq<seq<Dot>>): (c: seq<byte>)
    requires |canvas| == PixelCanvas.PIXELS && forall p <- parts :: Paintable(p)
    ensures |c| == PixelCanvas.PIXELS
    decreases |parts|
  {
    if parts == [] then canvas else PaintParts(PaintDots(canvas, parts[0]), parts[1..])
  }

  lemma PaintDotsSnoc(canvas: seq<byte>, dots: seq<Dot>, d: Dot)
    requires |canvas| == PixelCanvas.PIXELS && Paintable(dots + [d])
    ensures Paintable(dots) && d.0 < PixelCanvas.PIXELS
    ensures PaintDots(canvas, dots + [d]) == PaintDots(canvas, dots)[d.0 := d.1]
  {
    var more := dots + [d];
    assert more[|dots|] == d && forall i :: 0 <= i < |dots| ==> more[i] == dots[i];
    assert Positions(more)[..|dots|] == Positions(dots) && Colors(more)[..|dots|] == Colors(dots);
  }

  lemma {:induction false} PaintConcat(canvas: seq<byte>, p: seq<Dot>, q: seq<Dot>)
    requires |canvas| == PixelCanvas.PIXELS && Paintable(p) && Paintable(q)
    ensures Paintable(p + q) && PaintDots(PaintDots(canvas, p), q) == PaintDots(canvas, p + q)
    decreases |q|
  {
    if q == [] {
      assert p + q == p;
    } else {
      var n := |q| - 1;
      assert q == q[..n] + [q[n]] && p + q == (p + q[..n]) + [q[n]];
      PaintConcat(canvas, p, q[..n]);
      PaintDotsSnoc(PaintDots(canvas, p), q[..n], q[n]);
      PaintDotsSnoc(canvas, p + q[..n], q[n]);
    }
  }

  lemma {:induction false} PartsPaintWhole(canvas: seq<byte>, parts: seq<seq<Dot>>)
    requires |canvas| == PixelCanvas.PIXELS && forall p <- parts :: Paintable(p)
    ensures Paintable(Flatten(parts)) && PaintParts(canvas, parts) == PaintDots(canvas, Flatten(parts))
    decreases |parts|
  {
    if parts != [] {
      PartsPaintWhole(PaintDots(canvas, parts[0]), parts[1..]);
      PaintConcat(canvas, parts[0], Flatten(parts[1..]));
    }
  }

  lemma EntriesExact(pending: map<nat, byte>, p: nat)
    requires p in pending
    ensures exists i :: 0 <= i < |Entries(pending)| && Entries(pending)[i] == (p, pending[p])
  {
    AscendingSorts(pending.Keys);
    var keys := Ascending(pending.Keys);
    assert p in keys;
    var i :| 0 <= i < |keys| && keys[i] == p;
    assert Entries(pending)[i] == (p, pending[p]);
  }

  /** Painted chunk by chunk, the canvas shows the pending color at every pending position and is unchanged elsewhere. */
  lemma PendingPainted(canvas: seq<byte>, pending: map<nat, byte>, parts: seq<seq<Dot>>, p: nat)
    requires |canvas| == PixelCanvas.PIXELS && p < PixelCanvas.PIXELS
    requires (forall d <- parts :: Paintable(d)) && Flatten(parts) == Entries(pending)
    ensures PaintParts(canvas, parts)[p] == if p in pending then pending[p] else canvas[p]
  {
    PartsPaintWhole(canvas, parts);
    AscendingSorts(pending.Keys);
    var dots := Entries(pending);
    PixelCanvas.LastWins(canvas, Positions(dots), Colors(dots), p);
    if p in pending {
      EntriesExact(pending, p);
      var i :| 0 <= i < |dots| && dots[i] == (p, pending[p]);
      NotLater(pending, i);
      assert Positions(dots)[i] == p && Colors(dots)[i] == pending[p];
    } else {
      forall i | 0 <= i < |dots|
        ensures Positions(dots)[i] != p
      {
        assert Ascending(pending.Keys)[i] in pending.Keys;
      }
    }
  }

  lemma NotLater(pending: map<nat, byte>, i: nat)
    requires i < |Entries(pending)|
    ensures Entries(pending)[i].0 !in Positions(Entries(pending))[i + 1..]
  {
    AscendingSorts(pending.Keys);
    var keys, ps := Ascending(pending.Keys), Positions(Entries(pending));
    var tail := ps[i + 1..];
    forall j | 0 <= j < |tail|
      ensures tail[j] != keys[i]
    {
      assert tail[j] == keys[i + 1 + j];
    }
  }
}
