/**
The account-history indexer: it pages the engine's history from a persisted cursor and writes every entry through
`Db.Index`. The cursor only moves past entries that need no write or lie in a block at or below the last
irreversible one (LIB), up to the first entry for which that fails.
*/
module Indexer {
  import opened Common
  import opened Store

  /** What processing one history entry comes to, as decided by the entry and by the node's answers. */
  datatype Attempt =
    | NotEvm
    | Failed
    | Panics
    | Evm(h: Hash, meta: TxMeta, r: Receipt, timestamp: nat)

  /** One processing of the entry `seqNum`, in a cycle that had read `lib`. */
  datatype Visit = Visit(seqNum: nat, lib: nat, attempt: Attempt)

  predicate Final(a: Attempt, lib: nat) {
    a.NotEvm? || (a.Evm? && a.r.height <= lib)
  }

  function Next(cursor: Option<nat>): nat {
    if cursor.Some? then cursor.value + 1 else 0
  }

  /** The node's answer for entries from `next` on, when its history is `history`. */
  function Page(history: seq<Attempt>, next: nat, size: nat): seq<Attempt> {
    if next >= |history| then []
    else if next + size < |history| then history[next..next + size]
    else history[next..]
  }

  /** An entry as the node lists it: the sequence number zero is left out. */
  datatype Listed = Listed(seqNum: Option<nat>, attempt: Attempt)

  function List(seqNum: nat, a: Attempt): Listed { Listed(if seqNum == 0 then None else Some(seqNum), a) }

  function ListAll(first: nat, page: seq<Attempt>): (r: seq<Listed>)
    ensures |r| == |page| && forall i :: 0 <= i < |r| ==> r[i] == List(first + i, page[i])
  {
    seq(|page|, i requires 0 <= i < |page| => List(first + i, page[i]))
  }

  /** A page is the entries from a position on, as many as asked for while there are any, each under its number. */
  lemma PageIs(history: seq<Attempt>, next: nat, size: nat, i: nat)
    ensures var page := Page(history, next, size);
            && |page| <= size && (|page| < size ==> next + |page| >= |history|)
            && (i < |page| ==>
                  && next + i < |history| && page[i] == history[next + i]
                  && ListAll(next, page)[i] == Listed(if next + i == 0 then None else Some(next + i), page[i]))
  {
  }

  // ----- one cycle as a function

  /** A page as far as it is processed: a panic takes the cycle down with it. */
  function Cut(page: seq<Attempt>): seq<Attempt> {
    if page == [] || page[0].Panics? then page[..if page == [] then 0 else 1] else [page[0]] + Cut(page[1..])
  }

  /** The entries a cycle processes in order, and whether it reached the end of the history. */
  datatype Pass = Pass(entries: seq<Attempt>, complete: bool)

  /** How the node answers a request for `size` entries from a position on. */
  type Pager = (seq<Attempt>, nat, nat) -> seq<Attempt>

  /** `calls[k]` is the history as the k-th page request sees it, or None when that request fails. */
  function PassBy(pager: Pager, next: nat, size: nat, calls: seq<Option<seq<Attempt>>>): Pass
    decreases |calls|
  {
    if calls == [] || calls[0].None? then Pass([], false)
    else
      var page := pager(calls[0].value, next, size);
      if Panics in page then Pass(Cut(page), false)
      else if page == [] || |page| < size then Pass(page, true)
      else
        var rest := PassBy(pager, next + |page|, size, calls[1..]);
        Pass(page + rest.entries, rest.complete)
  }

  function PassOver(next: nat, size: nat, calls: seq<Option<seq<Attempt>>>): Pass { PassBy(Page, next, size, calls) }

  datatype Mark = Mark(candidate: Option<nat>, frozen: bool)

  function Advance(m: Mark, seqNum: nat, a: Attempt, lib: nat): Mark {
    if Final(a, lib) then if m.frozen then m else Mark(Some(seqNum), false)
    else m.(frozen := true)
  }

  function MarkAfter(cursor: Option<nat>, lib: nat, entries: seq<Attempt>): Mark {
    if entries == [] then Mark(cursor, false)
    else
      var n := |entries| - 1;
      Advance(MarkAfter(cursor, lib, entries[..n]), Next(cursor) + n, entries[n], lib)
  }

  function Write(t: Tables, a: Attempt): Tables {
    if a.Evm? then IndexTx(t, a.h, a.meta, a.r, a.timestamp) else t
  }

  function WriteAll(t: Tables, entries: seq<Attempt>): Tables {
    if entries == [] then t else Write(WriteAll(t, entries[..|entries| - 1]), entries[|entries| - 1])
  }

  /** The environment's part in a cycle: the LIB, the page requests, and whether the cursor write succeeds. */
  datatype Cycle = Cycle(lib: Option<nat>, calls: seq<Option<seq<Attempt>>>, persisted: bool)

  function PassOf(cursor: Option<nat>, size: nat, c: Cycle): Pass {
    if c.lib.None? then Pass([], false) else PassOver(Next(cursor), size, c.calls)
  }

  function CursorAfter(cursor: Option<nat>, size: nat, c: Cycle): Option<nat> {
    var p := PassOf(cursor, size, c);
    if p.complete && c.persisted then MarkAfter(cursor, c.lib.value, p.entries).candidate else cursor
  }

  // ----- the cycle as the source runs it

  /** After `k` page requests a pass has processed `seen`, and is over if it has caught up. */
  ghost predicate Underway(pager: Pager, next: nat, size: nat, calls: seq<Option<seq<Attempt>>>, seen: seq<Attempt>,
                           k: nat, caughtUp: bool)
    requires k <= |calls|
  {
    var rest := PassBy(pager, next + |seen|, size, calls[k..]);
    PassBy(pager, next, size, calls) == if caughtUp then Pass(seen, true) else Pass(seen + rest.entries, rest.complete)
  }

  lemma PassStarts(pager: Pager, next: nat, size: nat, calls: seq<Option<seq<Attempt>>>)
    ensures Underway(pager, next, size, calls, [], 0, false)
  {
    assert calls[0..] == calls;
    var rest := PassBy(pager, next, size, calls);
    assert [] + rest.entries == rest.entries;
  }

  lemma PassStep(pager: Pager, next: nat, size: nat, calls: seq<Option<seq<Attempt>>>, page: seq<Attempt>,
                 later: seq<Option<seq<Attempt>>>)
    requires calls != [] && calls[0].Some? && page == pager(calls[0].value, next, size) && later == calls[1..]
    ensures var rest := PassBy(pager, next + |page|, size, later);
            PassBy(pager, next, size, calls) ==
            if Panics in page then Pass(Cut(page), false)
            else if page == [] || |page| < size then Pass(page, true)
            else Pass(page + rest.entries, rest.complete)
  {
  }

  lemma SeenAndMore(seen: seq<Attempt>, page: seq<Attempt>, more: seq<Attempt>)
    ensures seen + (page + more) == (seen + page) + more
  {
  }

  lemma PageSeen(pager: Pager, next: nat, size: nat, all: Pass, seen: seq<Attempt>, here: seq<Option<seq<Attempt>>>,
                 page: seq<Attempt>, later: seq<Option<seq<Attempt>>>, seen': seq<Attempt>)
    requires here != [] && here[0].Some? && later == here[1..]
    requires page == pager(here[0].value, next + |seen|, size) && seen' == seen + page
    requires var rest := PassBy(pager, next + |seen|, size, here); all == Pass(seen + rest.entries, rest.complete)
    ensures var rest := PassBy(pager, next + |seen'|, size, later);
            && (Panics in page ==> all == Pass(seen + Cut(page), false))
            && (Panics !in page && (page == [] || |page| < size) ==> all == Pass(seen', true))
            && (Panics !in page && !(page == [] || |page| < size) ==> all == Pass(seen' + rest.entries, rest.complete))
  {
    PassStep(pager, next + |seen|, size, here, page, later);
    SeenAndMore(seen, page, PassBy(pager, next + |seen'|, size, later).entries);
  }

  lemma NextPage(pager: Pager, next: nat, size: nat, calls: seq<Option<seq<Attempt>>>, seen: seq<Attempt>, k: nat,
                 page: seq<Attempt>)
    requires k < |calls| && calls[k].Some? && Underway(pager, next, size, calls, seen, k, false)
    requires page == pager(calls[k].value, next + |seen|, size)
    ensures Panics !in page ==> Underway(pager, next, size, calls, seen + page, k + 1, page == [] || |page| < size)
    ensures Panics in page ==> PassBy(pager, next, size, calls) == Pass(seen + Cut(page), false)
  {
    assert calls[k..][1..] == calls[k + 1..] && calls[k..][0] == calls[k];
    PageSeen(pager, next, size, PassBy(pager, next, size, calls), seen, calls[k..], page, calls[k + 1..], seen + page);
  }

  lemma RequestFails(pager: Pager, next: nat, size: nat, calls: seq<Option<seq<Attempt>>>, seen: seq<Attempt>, k: nat)
    requires k <= |calls| && Underway(pager, next, size, calls, seen, k, false)
    requires k == |calls| || calls[k].None?
    ensures PassBy(pager, next, size, calls) == Pass(seen, false)
  {
    assert seen + [] == seen;
  }

  lemma {:induction false} CutAt(page: seq<Attempt>, i: nat)
    requires i < |page| && page[i].Panics? && forall j :: 0 <= j < i ==> !page[j].Panics?
    ensures Panics in page && Cut(page) == page[..i + 1]
  {
    assert page[i] in page;
    if i > 0 {
      CutAt(page[1..], i - 1);
      assert page[..i + 1] == [page[0]] + page[1..][..i];
    }
  }

  /** One entry more: the mark, the tables and whether a panic is among the entries. */
  lemma EntryStep(cursor: Option<nat>, lib: nat, start: Tables, seen: seq<Attempt>, page: seq<Attempt>, i: nat)
    requires i < |page|
    ensures var before, after := seen + page[..i], seen + page[..i + 1];
            && MarkAfter(cursor, lib, after) ==
               Advance(MarkAfter(cursor, lib, before), Next(cursor) + |seen| + i, page[i], lib)
            && WriteAll(start, after) == Write(WriteAll(start, before), page[i])
  {
    var before, after := seen + page[..i], seen + page[..i + 1];
    assert after[..|after| - 1] == before && after[|after| - 1] == page[i];
  }

  class Cursor {
    var cursor: Option<nat>
    const db: Db
    const pageSize: nat

    constructor (db: Db, pageSize: nat)
      ensures this.db == db && this.pageSize == pageSize && cursor == None
    {
      this.db, this.pageSize, cursor := db, pageSize, None;
    }

    method ProcessEntry(a: Attempt)
      modifies db
      ensures db.Contents() == Write(old(db.Contents()), a)
    {
      if a.Evm? {
        var _ := db.Index(a.h, a.meta, a.r, a.timestamp);
      }
    }

    /** How an entry that did not panic moves the candidate and the freeze flag. */
    method Settle(candidate: Option<nat>, frozen: bool, seqNum: nat, a: Attempt, lib: nat)
      returns (candidate': Option<nat>, frozen': bool)
      ensures Mark(candidate', frozen') == Advance(Mark(candidate, frozen), seqNum, a, lib)
    {
      candidate', frozen' := candidate, frozen;
      if a.NotEvm? || (a.Evm? && a.r.height <= lib) {
        if !frozen {
          candidate' := Some(seqNum);
        }
      } else {
        frozen' := true;
      }
    }

    /**
    The inner loop of a cycle. `seen` and `start` are what the cycle processed so far, and from where; `page` is what
    the node's list of `values` stands for.
    */
    method ProcessPage(values: seq<Listed>, lib: nat, first: nat, m: Mark, ghost page: seq<Attempt>,
                       ghost seen: seq<Attempt>, ghost start: Tables)
      returns (nextSeq: nat, candidate: Option<nat>, frozen: bool, panicked: bool)
      requires first == Next(cursor) + |seen| && m == MarkAfter(cursor, lib, seen)
      requires db.Contents() == WriteAll(start, seen) && values == ListAll(first, page)
      modifies db
      ensures panicked <==> Panics in page
      ensures !panicked ==> nextSeq == first + |page| && MarkAfter(cursor, lib, seen + page) == Mark(candidate, frozen)
      ensures db.Contents() == WriteAll(start, seen + if panicked then Cut(page) else page)
    {
      nextSeq, candidate, frozen := first, m.candidate, m.frozen;
      assert seen + page[..0] == seen;
      for i := 0 to |values|
        invariant nextSeq == first + i && forall j :: 0 <= j < i ==> !page[j].Panics?
        invariant MarkAfter(cursor, lib, seen + page[..i]) == Mark(candidate, frozen)
        invariant db.Contents() == WriteAll(start, seen + page[..i])
      {
        var seqNum := if values[i].seqNum.Some? then values[i].seqNum.value else 0;
        nextSeq := seqNum + 1;
        var a := values[i].attempt;
        ProcessEntry(a);
        EntryStep(cursor, lib, start, seen, page, i);
        if a.Panics? {
          CutAt(page, i);
          return nextSeq, candidate, frozen, true;
        }
        candidate, frozen := Settle(candidate, frozen, seqNum, a, lib);
      }
      assert page[..|page|] == page;
      panicked := false;
    }

    /** The outer loop of a cycle: page requests until the history is exhausted, a request fails or an entry panics. */
    method ReadPages(lib: nat, calls: seq<Option<seq<Attempt>>>)
      returns (candidate: Option<nat>, caughtUp: bool, ghost seen: seq<Attempt>)
      modifies db
      ensures PassOver(Next(cursor), pageSize, calls) == Pass(seen, caughtUp)
      ensures caughtUp ==> candidate == MarkAfter(cursor, lib, seen).candidate
      ensures db.Contents() == WriteAll(old(db.Contents()), seen)
    {
      ghost var start := db.Contents();
      var nextSeq := if cursor.Some? then cursor.value + 1 else 0;
      var k, frozen := 0, false;
      candidate, caughtUp, seen := cursor, false, [];
      PassStarts(Page, Next(cursor), pageSize, calls);
      while !caughtUp
        invariant k <= |calls| && nextSeq == Next(cursor) + |seen|
        invariant MarkAfter(cursor, lib, seen) == Mark(candidate, frozen)
        invariant db.Contents() == WriteAll(start, seen)
        invariant Underway(Page, Next(cursor), pageSize, calls, seen, k, caughtUp)
        decreases !caughtUp, |calls| - k
      {
        if k == |calls| || calls[k].None? {
          RequestFails(Page, Next(cursor), pageSize, calls, seen, k);
          return;
        }
        var page := Page(calls[k].value, nextSeq, pageSize);
        var panicked;
        NextPage(Page, Next(cursor), pageSize, calls, seen, k, page);
        nextSeq, candidate, frozen, panicked :=
          ProcessPage(ListAll(nextSeq, page), lib, nextSeq, Mark(candidate, frozen), page, seen, start);
        if panicked {
          seen := seen + Cut(page);
          return;
        }
        seen := seen + page;
        caughtUp := page == [] || |page| < pageSize;
        k := k + 1;
      }
    }

    method RunCycle(c: Cycle) returns (ok: bool)
      modifies this, db
      ensures cursor == CursorAfter(old(cursor), pageSize, c)
      ensures db.Contents() == WriteAll(old(db.Contents()), PassOf(old(cursor), pageSize, c).entries)
      ensures ok ==> PassOf(old(cursor), pageSize, c).complete
    {
      if c.lib.None? {
        return false;
      }
      var candidate, caughtUp, seen := ReadPages(c.lib.value, c.calls);
      if !caughtUp {
        return false;
      }
      MarkIsLeading(cursor, c.lib.value, seen);
      if candidate != cursor && candidate.Some? {
        if !c.persisted {
          return false;
        }
        cursor := candidate;
      }
      return true;
    }
  }

  // ----- all cycles

  /** Everything ever processed and the cursor as persisted, after a number of cycles and restarts. */
  datatype Progress = Progress(cursor: Option<nat>, trail: seq<Visit>)

  function Visits(next: nat, lib: nat, entries: seq<Attempt>): seq<Visit> {
    seq(|entries|, i requires 0 <= i < |entries| => Visit(next + i, lib, entries[i]))
  }

  function RunAll(size: nat, cycles: seq<Cycle>): Progress {
    if cycles == [] then Progress(None, [])
    else
      var p := RunAll(size, cycles[..|cycles| - 1]);
      var c := cycles[|cycles| - 1];
      Progress(CursorAfter(p.cursor, size, c),
               if c.lib.None? then p.trail
               else p.trail + Visits(Next(p.cursor), c.lib.value, PassOf(p.cursor, size, c).entries))
  }

  /** Some visit of `s` found nothing to index, or processed it in a cycle whose LIB covered its block. */
  ghost predicate Finalized(trail: seq<Visit>, s: nat) {
    exists v :: v in trail && v.seqNum == s && (v.attempt.NotEvm? || (v.attempt.Evm? && v.attempt.r.height <= v.lib))
  }

  /** What a cycle's candidate passes is exactly the final prefix of what it processed. */
  lemma {:induction false} MarkIsLeading(cursor: Option<nat>, lib: nat, entries: seq<Attempt>)
    ensures var m := MarkAfter(cursor, lib, entries);
            var n := if m.candidate.Some? then m.candidate.value + 1 - Next(cursor) else 0;
            && (m.candidate.None? ==> cursor.None?)
            && 0 <= n <= |entries| && Next(m.candidate) == Next(cursor) + n
            && (forall i :: 0 <= i < n ==> entries[i].NotEvm? || (entries[i].Evm? && entries[i].r.height <= lib))
            && (m.frozen ==>
                  n < |entries| && !entries[n].NotEvm? && (entries[n].Evm? ==> entries[n].r.height > lib))
            && (!m.frozen ==> n == |entries|)
  {
    if entries != [] {
      var front := entries[..|entries| - 1];
      MarkIsLeading(cursor, lib, front);
      assert forall i :: 0 <= i < |front| ==> front[i] == entries[i];
    }
  }

  /** Over all cycles, failures and restarts every entry at or below the persisted cursor has been finalized. */
  lemma {:induction false} CursorIsFinal(size: nat, cycles: seq<Cycle>, s: nat)
    requires s < Next(RunAll(size, cycles).cursor)
    ensures Finalized(RunAll(size, cycles).trail, s)
  {
    var p, p' := RunAll(size, cycles[..|cycles| - 1]), RunAll(size, cycles);
    var c := cycles[|cycles| - 1];
    if s < Next(p.cursor) {
      CursorIsFinal(size, cycles[..|cycles| - 1], s);
      var v :| v in p.trail && v.seqNum == s && (v.attempt.NotEvm? || (v.attempt.Evm? && v.attempt.r.height <= v.lib));
      assert v in p'.trail;
    } else {
      var entries := PassOf(p.cursor, size, c).entries;
      MarkIsLeading(p.cursor, c.lib.value, entries);
      var v := Visits(Next(p.cursor), c.lib.value, entries)[s - Next(p.cursor)];
      assert v in p'.trail;
    }
  }

  lemma CursorNeverRetreats(cursor: Option<nat>, size: nat, c: Cycle)
    ensures Next(cursor) <= Next(CursorAfter(cursor, size, c))
  {
    if c.lib.Some? {
      MarkIsLeading(cursor, c.lib.value, PassOf(cursor, size, c).entries);
    }
  }

  /** A completed cycle whose cursor write succeeds moves the cursor up to the first entry that is not final. */
  lemma CursorStopsAtFirstOpen(cursor: Option<nat>, size: nat, c: Cycle)
    requires PassOf(cursor, size, c).complete && c.persisted
    ensures var entries := PassOf(cursor, size, c).entries;
            var n := Next(CursorAfter(cursor, size, c)) - Next(cursor);
            && 0 <= n <= |entries|
            && (forall i :: 0 <= i < n ==>
                  entries[i].NotEvm? || (entries[i].Evm? && entries[i].r.height <= c.lib.value))
            && (n < |entries| ==>
                  || entries[n].Failed? || entries[n].Panics?
                  || (entries[n].Evm? && entries[n].r.height > c.lib.value))
  {
    MarkIsLeading(cursor, c.lib.value, PassOf(cursor, size, c).entries);
  }

  lemma PageWithin(history: seq<Attempt>, next: nat, size: nat)
    requires |Page(history, next, size)| < size
    ensures |history| <= next + |Page(history, next, size)|
  {
  }

  lemma {:induction false} PassEnds(pager: Pager, next: nat, size: nat, calls: seq<Option<seq<Attempt>>>)
    returns (k: nat, at: nat)
    requires size > 0 && PassBy(pager, next, size, calls).complete
    ensures k < |calls| && calls[k].Some? && next <= at
    ensures |pager(calls[k].value, at, size)| < size
    ensures at + |pager(calls[k].value, at, size)| == next + |PassBy(pager, next, size, calls).entries|
    decreases |calls|
  {
    var page := pager(calls[0].value, next, size);
    PassStep(pager, next, size, calls, page, calls[1..]);
    if page == [] || |page| < size {
      k, at := 0, next;
    } else {
      k, at := PassEnds(pager, next + |page|, size, calls[1..]);
      k := k + 1;
    }
  }

  /** The page request that ended a completed pass saw no entry beyond those the pass processed. */
  lemma PassReachesEnd(next: nat, size: nat, calls: seq<Option<seq<Attempt>>>) returns (k: nat)
    requires size > 0 && PassOver(next, size, calls).complete
    ensures k < |calls| && calls[k].Some?
    ensures |calls[k].value| <= next + |PassOver(next, size, calls).entries|
  {
    var at;
    k, at := PassEnds(Page, next, size, calls);
    PageWithin(calls[k].value, at, size);
  }

  lemma PageReads(history: seq<Attempt>, next: nat, size: nat, i: nat)
    requires i < |Page(history, next, size)|
    ensures next + i < |history| && Page(history, next, size)[i] == history[next + i]
  {
  }

  /** Entry `i` of a pass is in its first page, or an entry of the pass over the later pages. */
  lemma PassUnfolds(pager: Pager, next: nat, size: nat, calls: seq<Option<seq<Attempt>>>, i: nat, page: seq<Attempt>,
                    later: seq<Option<seq<Attempt>>>)
    requires calls != [] && calls[0].Some? && page == pager(calls[0].value, next, size) && later == calls[1..]
    requires i < |PassBy(pager, next, size, calls).entries|
    ensures var all := PassBy(pager, next, size, calls).entries;
            var rest := PassBy(pager, next + |page|, size, later).entries;
            && (i < |page| ==> all[i] == page[i])
            && (i >= |page| ==> Panics !in page && i - |page| < |rest| && all[i] == rest[i - |page|])
            && (Panics in page ==> all == Cut(page))
            && (Panics !in page ==> all == page || all == page + rest)
  {
    PassStep(pager, next, size, calls, page, later);
    CutIsPrefix(page);
  }

  lemma {:induction false} CutIsPrefix(page: seq<Attempt>)
    ensures |Cut(page)| <= |page| && Cut(page) == page[..|Cut(page)|]
    ensures forall i :: 0 <= i < |Cut(page)| && Cut(page)[i].Panics? ==> i == |Cut(page)| - 1
    ensures Panics in page ==> Cut(page) != [] && Cut(page)[|Cut(page)| - 1].Panics?
  {
    if page != [] && !page[0].Panics? {
      CutIsPrefix(page[1..]);
      assert page == [page[0]] + page[1..];
    }
  }

  lemma {:induction false} PassReads(pager: Pager, next: nat, size: nat, calls: seq<Option<seq<Attempt>>>, i: nat)
    returns (k: nat, at: nat)
    requires i < |PassBy(pager, next, size, calls).entries|
    ensures k < |calls| && calls[k].Some? && next <= at <= next + i
    ensures var page := pager(calls[k].value, at, size);
            next + i - at < |page| && page[next + i - at] == PassBy(pager, next, size, calls).entries[i]
    decreases |calls|
  {
    var page := pager(calls[0].value, next, size);
    PassUnfolds(pager, next, size, calls, i, page, calls[1..]);
    if i < |page| {
      k, at := 0, next;
    } else {
      k, at := PassReads(pager, next + |page|, size, calls[1..], i - |page|);
      k := k + 1;
    }
  }

  /** Entry `next + i` of a pass is what some page request of that pass saw at that position. */
  lemma PassReadsHistory(next: nat, size: nat, calls: seq<Option<seq<Attempt>>>, i: nat) returns (k: nat)
    requires i < |PassOver(next, size, calls).entries|
    ensures k < |calls| && calls[k].Some? && next + i < |calls[k].value|
    ensures calls[k].value[next + i] == PassOver(next, size, calls).entries[i]
  {
    var at;
    k, at := PassReads(Page, next, size, calls, i);
    PageReads(calls[k].value, at, size, next + i - at);
  }

  /** A pass ends with the entry that panics. */
  lemma {:induction false} PassEndsAtPanic(pager: Pager, next: nat, size: nat, calls: seq<Option<seq<Attempt>>>, i: nat)
    requires i < |PassBy(pager, next, size, calls).entries| && PassBy(pager, next, size, calls).entries[i].Panics?
    ensures i == |PassBy(pager, next, size, calls).entries| - 1
    decreases |calls|
  {
    var page := pager(calls[0].value, next, size);
    PassUnfolds(pager, next, size, calls, i, page, calls[1..]);
    CutIsPrefix(page);
    if i >= |page| {
      PassEndsAtPanic(pager, next + |page|, size, calls[1..], i - |page|);
    }
  }

  /** Everything above the cursor is read again: a completed cycle visits every entry the history holds there. */
  lemma RereadsTail(cursor: Option<nat>, size: nat, c: Cycle, s: nat) returns (k: nat)
    requires size > 0 && PassOf(cursor, size, c).complete && s >= Next(cursor)
    ensures k < |c.calls| && c.calls[k].Some?
    ensures s < |c.calls[k].value| ==>
              exists v :: v in Visits(Next(cursor), c.lib.value, PassOf(cursor, size, c).entries) && v.seqNum == s
  {
    k := PassReachesEnd(Next(cursor), size, c.calls);
    var vs := Visits(Next(cursor), c.lib.value, PassOf(cursor, size, c).entries);
    if s < |c.calls[k].value| {
      assert vs[s - Next(cursor)] in vs;
    }
  }

  /** Whichever request sees entry `s`, processing it panics. */
  ghost predicate AlwaysPanics(c: Cycle, s: nat) {
    forall k :: 0 <= k < |c.calls| && c.calls[k].Some? && s < |c.calls[k].value| ==> c.calls[k].value[s].Panics?
  }

  lemma CycleStopsAtPanic(cursor: Option<nat>, size: nat, c: Cycle, s: nat)
    requires AlwaysPanics(c, s) && Next(cursor) <= s
    ensures Next(cursor) + |PassOf(cursor, size, c).entries| <= s + 1 && Next(CursorAfter(cursor, size, c)) <= s
  {
    var next, entries := Next(cursor), PassOf(cursor, size, c).entries;
    if s - next < |entries| {
      var k := PassReadsHistory(next, size, c.calls, s - next);
      PassEndsAtPanic(Page, next, size, c.calls, s - next);
    }
    if PassOf(cursor, size, c).complete && c.persisted {
      CursorStopsAtFirstOpen(cursor, size, c);
    }
  }

  /** An entry that always panics is never passed: no cycle, and no restart, visits anything behind it. */
  lemma {:induction false} NothingPassesPanic(size: nat, cycles: seq<Cycle>, s: nat)
    requires forall c <- cycles :: AlwaysPanics(c, s)
    ensures Next(RunAll(size, cycles).cursor) <= s
    ensures forall v <- RunAll(size, cycles).trail :: v.seqNum <= s
  {
    if cycles != [] {
      var before, c := cycles[..|cycles| - 1], cycles[|cycles| - 1];
      assert c in cycles;
      NothingPassesPanic(size, before, s);
      CycleStopsAtPanic(RunAll(size, before).cursor, size, c, s);
    }
  }

  // ----- the cursor and the counters together

  function OpOf(a: Attempt): Op
    requires a.Evm?
  {
    OpIndex(a.h, a.meta, a.r, a.timestamp)
  }

  /** The store saw exactly the indexer's writes among its authoritative ones; the relay's come in between. */
  ghost predicate Interleaves(ops: seq<Op>, trail: seq<Visit>) {
    && (forall v :: v in trail && v.attempt.Evm? ==> OpOf(v.attempt) in ops)
    && (forall op :: op in ops && op.OpIndex? ==> exists v :: v in trail && v.attempt.Evm? && OpOf(v.attempt) == op)
  }

  /** Some visit of `s` found nothing to index, or its transaction is indexed at its height, which the LIB covers. */
  ghost predicate Durable(trail: seq<Visit>, t: Tables, heightOf: Hash -> nat, s: nat) {
    exists v :: v in trail && v.seqNum == s
      && (v.attempt.NotEvm? || (v.attempt.Evm? && heightOf(v.attempt.h) <= v.lib
                                && v.attempt.h in IndexedIn(t, heightOf(v.attempt.h))))
  }

  /**
  When each hash has one height and no settle follows its indexing, every EVM entry at or below the cursor is
  indexed at its height, and however often the tail was re-read the counters count each transaction once.
  */
  lemma IndexedExactlyOnce(size: nat, cycles: seq<Cycle>, ops: seq<Op>, heightOf: Hash -> nat)
    requires Disciplined(ops, heightOf) && Interleaves(ops, RunAll(size, cycles).trail)
    ensures TileInv(Run(ops))
    ensures forall s: nat | s < Next(RunAll(size, cycles).cursor) ::
              Durable(RunAll(size, cycles).trail, Run(ops), heightOf, s)
  {
    CountedOnce(ops, heightOf);
    var p := RunAll(size, cycles);
    forall s: nat | s < Next(p.cursor)
      ensures Durable(p.trail, Run(ops), heightOf, s)
    {
      CursorIsFinal(size, cycles, s);
      var v :| v in p.trail && v.seqNum == s && (v.attempt.NotEvm? || (v.attempt.Evm? && v.attempt.r.height <= v.lib));
      if v.attempt.Evm? {
        var i :| 0 <= i < |ops| && ops[i] == OpOf(v.attempt);
        assert WasIndexed(ops, v.attempt.h);
        assert v.attempt.h in IndexedIn(Run(ops), heightOf(v.attempt.h));
      }
    }
  }
}
