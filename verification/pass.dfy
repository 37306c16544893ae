/**
 Properties of a whole render pass: the registry is prepared once, then the
 graphemes of the visible text are dispatched one after the other. Line and
 virtual-line dispatch do not touch anchors, so for anchors and the cursor
 cache a pass is the sequence of grapheme dispatches.
 */
module Pass {
  import opened Options
  import opened Render
  import opened Decorations
  import opened Trace
  import opened Manager
  import Lines

  /** `decorate_grapheme` for each grapheme of `gs` in turn. */
  function DecorateStream(entries: seq<Entry>, r: Renderer, gs: seq<Grapheme>): (res: (seq<Entry>, seq<Event>))
    ensures Advanced(entries, res.0)
    ensures gs != [] ==> forall i :: 0 <= i < |entries| ==> After(res.0[i].anchor, gs[|gs| - 1].charIdx)
    ensures OnlyCursorsWrite(entries, res.1)
    decreases |gs|
  {
    if gs == [] then (entries, [])
    else
      var step := Manager.DecorateGrapheme(entries, r, gs[0]);
      var rest := DecorateStream(step.0, r, gs[1..]);
      StreamStep(entries, step.0, rest.0, step.1, rest.1);
      assert gs[1..] != [] ==> gs[1..][|gs[1..]| - 1] == gs[|gs| - 1];
      (rest.0, step.1 + rest.1)
  }

  /** `after` holds the same decorations as `entries`, none of whose anchors moved backwards. */
  ghost predicate Advanced(entries: seq<Entry>, after: seq<Entry>)
  {
    && |after| == |entries|
    && forall i :: 0 <= i < |entries| ==>
         after[i].decoration == entries[i].decoration && AnchorLe(entries[i].anchor, after[i].anchor)
  }

  /** Every event of `ev` belongs to an entry, and only cursors wrote the cache. */
  predicate OnlyCursorsWrite(entries: seq<Entry>, ev: seq<Event>)
  {
    forall e :: e in ev ==> e.dec < |entries| && (e.Decorated? && e.cacheWrite.Some? ==> entries[e.dec].decoration.Cursor?)
  }

  /** Two dispatches in a row compose. */
  lemma StreamStep(entries: seq<Entry>, mid: seq<Entry>, last: seq<Entry>, ev1: seq<Event>, ev2: seq<Event>)
    requires Advanced(entries, mid) && Advanced(mid, last)
    requires OnlyCursorsWrite(entries, ev1) && OnlyCursorsWrite(mid, ev2)
    ensures Advanced(entries, last)
    ensures OnlyCursorsWrite(entries, ev1 + ev2)
  {
    forall e | e in ev1 + ev2
      ensures e.dec < |entries| && (e.Decorated? && e.cacheWrite.Some? ==> entries[e.dec].decoration.Cursor?)
    {
      if e in ev2 {
        assert mid[e.dec].decoration == entries[e.dec].decoration;
      }
    }
  }

  /** Entry `k` is a cursor and no other entry is. */
  predicate SoleCursor(entries: seq<Entry>, k: nat)
  {
    && k < |entries|
    && entries[k].decoration.Cursor?
    && forall j :: 0 <= j < |entries| && j != k ==> !entries[j].decoration.Cursor?
  }

  lemma HookCallsWitness(ev: seq<Event>)
    requires HookCalls(ev) > 0
    ensures exists k :: 0 <= k < |ev| && ev[k].Decorated?
    decreases |ev|
  {
    if !ev[0].Decorated? {
      HookCallsWitness(ev[1..]);
      var k :| 0 <= k < |ev[1..]| && ev[1..][k].Decorated?;
      assert ev[k + 1].Decorated?;
    }
  }

  /** A trace whose only grapheme hook call, if any, is the last event has at most one. */
  lemma {:induction false} HookCallsAtMostLast(ev: seq<Event>)
    requires forall k :: 0 <= k < |ev| && ev[k].Decorated? ==> k == |ev| - 1
    ensures HookCalls(ev) <= 1
    decreases |ev|
  {
    if ev != [] {
      if |ev| == 1 {
        assert ev[1..] == [];
      } else {
        assert !ev[0].Decorated?;
        assert forall k :: 0 <= k < |ev[1..]| ==> ev[1..][k] == ev[k + 1];
        HookCallsAtMostLast(ev[1..]);
      }
    }
  }

  /** An inactive decoration gets no hook calls for the rest of the pass and stays inactive. */
  lemma {:induction false} InactiveStaysSilent(entries: seq<Entry>, r: Renderer, gs: seq<Grapheme>, i: nat)
    requires i < |entries| && entries[i].anchor == None
    ensures Of(DecorateStream(entries, r, gs).1, i) == []
    ensures DecorateStream(entries, r, gs).0[i].anchor == None
    decreases |gs|
  {
    if gs != [] {
      var step := Manager.DecorateGrapheme(entries, r, gs[0]);
      var rest := DecorateStream(step.0, r, gs[1..]);
      InactiveStaysSilent(step.0, r, gs[1..], i);
      OfAppend(step.1, rest.1, i);
    }
  }

  /**
   Over a whole pass every decoration's grapheme hook is called at most once,
   and a decoration whose hook was called ends the pass inactive.
   */
  lemma {:induction false} HookAtMostOncePerPass(entries: seq<Entry>, r: Renderer, gs: seq<Grapheme>, i: nat)
    requires i < |entries|
    ensures HookCalls(Of(DecorateStream(entries, r, gs).1, i)) <= 1
    ensures HookCalls(Of(DecorateStream(entries, r, gs).1, i)) == 1 ==> DecorateStream(entries, r, gs).0[i].anchor == None
    decreases |gs|
  {
    if gs != [] {
      var step := Manager.DecorateGrapheme(entries, r, gs[0]);
      var rest := DecorateStream(step.0, r, gs[1..]);
      var here := Dispatch(entries[i].decoration, i, entries[i].anchor, r, gs[0]);
      OfAppend(step.1, rest.1, i);
      HookCallsAppend(Of(step.1, i), Of(rest.1, i));
      HookCallsAtMostLast(here.1);
      if HookCalls(here.1) == 1 {
        HookCallsWitness(here.1);
        InactiveStaysSilent(step.0, r, gs[1..], i);
      } else {
        HookAtMostOncePerPass(step.0, r, gs[1..], i);
      }
    }
  }

  /** When only decoration `k` writes the cache, the writes are those among its own events. */
  lemma {:induction false} WritesOwned(ev: seq<Event>, k: nat)
    requires forall e :: e in ev && e.Decorated? && e.cacheWrite.Some? ==> e.dec == k
    ensures Writes(ev) == Writes(Of(ev, k))
    decreases |ev|
  {
    if ev != [] {
      assert forall e :: e in ev[1..] ==> e in ev;
      WritesOwned(ev[1..], k);
      OfAppend([ev[0]], ev[1..], k);
      assert ev == [ev[0]] + ev[1..];
      WritesAppend([ev[0]], ev[1..]);
      if ev[0].dec == k {
        assert Of([ev[0]], k) == [ev[0]];
        WritesAppend([ev[0]], Of(ev[1..], k));
      } else {
        assert Of([ev[0]], k) == [];
        assert Of(ev, k) == Of(ev[1..], k);
      }
    }
  }

  /** With a single cursor registered, the cursor cache is written at most once per pass. */
  lemma CacheWrittenAtMostOnce(entries: seq<Entry>, r: Renderer, gs: seq<Grapheme>, k: nat)
    requires SoleCursor(entries, k)
    ensures |Writes(DecorateStream(entries, r, gs).1)| <= 1
  {
    var ev := DecorateStream(entries, r, gs).1;
    WritesOwned(ev, k);
    HookAtMostOncePerPass(entries, r, gs, k);
  }

  lemma CacheAppend(c: Option<Position>, a: seq<Event>, b: seq<Event>)
    ensures Cache(c, a + b) == Cache(Cache(c, a), b)
  {
    WritesAppend(a, b);
  }

  /**
   What a cursor waiting for char `p` leaves in a cache that held `c`, over
   the stream `gs`. The first grapheme whose char index is at or beyond `p`
   decides: when it is the grapheme at `p` and sits in a visible column, the
   cache holds its screen position; otherwise, and when no grapheme reaches
   `p`, the cache keeps `c`. Later graphemes, even at `p` again, change nothing.
   */
  ghost predicate CursorOutcome(cache: Option<Position>, c: Option<Position>, p: nat, r: Renderer, gs: seq<Grapheme>)
  {
    && ((forall j :: 0 <= j < |gs| ==> gs[j].charIdx < p) ==> cache == c)
    && (forall j :: FirstReaching(gs, p, j) ==> cache == Settle(c, CursorWrite(p, r, gs[j])))
  }

  /** `gs[j]` is the first grapheme of the stream whose char index is at or beyond `p`. */
  predicate FirstReaching(gs: seq<Grapheme>, p: nat, j: int)
  {
    && 0 <= j < |gs|
    && p <= gs[j].charIdx
    && forall i :: 0 <= i < j ==> gs[i].charIdx < p
  }

  /** A sole cursor waiting for its char: over any stream the cache ends as `CursorOutcome` says. */
  lemma {:induction false} CursorStream(entries: seq<Entry>, k: nat, r: Renderer, gs: seq<Grapheme>, c: Option<Position>)
    requires SoleCursor(entries, k)
    requires entries[k].anchor == Some(entries[k].decoration.primaryCursor)
    ensures CursorOutcome(Cache(c, DecorateStream(entries, r, gs).1), c, entries[k].decoration.primaryCursor, r, gs)
    decreases |gs|
  {
    if gs != [] {
      var p := entries[k].decoration.primaryCursor;
      if gs[0].charIdx < p {
        var step := Manager.DecorateGrapheme(entries, r, gs[0]);
        var rest := DecorateStream(step.0, r, gs[1..]);
        FirstStepBefore(entries, k, r, gs[0]);
        CacheAppend(c, step.1, rest.1);
        CursorStream(step.0, k, r, gs[1..], c);
        OutcomeShift(Cache(c, rest.1), c, p, r, gs);
      } else {
        CursorReached(entries, k, r, gs, c);
      }
    }
  }

  /** The first grapheme is before the waiting cursor's char: nothing is written and the cursor keeps waiting. */
  lemma FirstStepBefore(entries: seq<Entry>, k: nat, r: Renderer, g: Grapheme)
    requires SoleCursor(entries, k)
    requires entries[k].anchor == Some(entries[k].decoration.primaryCursor)
    requires g.charIdx < entries[k].decoration.primaryCursor
    ensures var step := Manager.DecorateGrapheme(entries, r, g);
            && Writes(step.1) == []
            && SoleCursor(step.0, k)
            && step.0[k] == entries[k]
  {
    var step := Manager.DecorateGrapheme(entries, r, g);
    WritesOwned(step.1, k);
  }

  lemma OutcomeShift(cache: Option<Position>, c: Option<Position>, p: nat, r: Renderer, gs: seq<Grapheme>)
    requires gs != [] && gs[0].charIdx < p
    requires CursorOutcome(cache, c, p, r, gs[1..])
    ensures CursorOutcome(cache, c, p, r, gs)
  {
    var tail := gs[1..];
    forall j | FirstReaching(gs, p, j)
      ensures cache == Settle(c, CursorWrite(p, r, gs[j]))
    {
      assert tail[j - 1] == gs[j];
      forall i | 0 <= i < j - 1
        ensures tail[i].charIdx < p
      {
        assert tail[i] == gs[i + 1];
      }
      assert FirstReaching(tail, p, j - 1);
    }
    if forall j :: 0 <= j < |gs| ==> gs[j].charIdx < p {
      assert forall j :: 0 <= j < |tail| ==> tail[j] == gs[j + 1];
    }
  }

  /** The first grapheme is at or beyond the waiting cursor's char: it settles the pass's cache. */
  lemma CursorReached(entries: seq<Entry>, k: nat, r: Renderer, gs: seq<Grapheme>, c: Option<Position>)
    requires SoleCursor(entries, k)
    requires entries[k].anchor == Some(entries[k].decoration.primaryCursor)
    requires gs != [] && gs[0].charIdx >= entries[k].decoration.primaryCursor
    ensures CursorOutcome(Cache(c, DecorateStream(entries, r, gs).1), c, entries[k].decoration.primaryCursor, r, gs)
  {
    FirstSettles(entries, k, r, gs, c);
    OutcomeAtHead(Cache(c, DecorateStream(entries, r, gs).1), c, entries[k].decoration.primaryCursor, r, gs);
  }

  /** What the cursor waiting for `p` writes when grapheme `g` reaches or passes it. */
  function CursorWrite(p: nat, r: Renderer, g: Grapheme): Option<Position>
  {
    if g.charIdx == p && ColumnInBounds(r, g.col) then Some(Position(g.row, g.col - r.colOffset)) else None
  }

  /** The cache that held `c` after `w` was possibly written. */
  function Settle(c: Option<Position>, w: Option<Position>): Option<Position>
  {
    if w.Some? then w else c
  }

  /** The first grapheme at or beyond the waiting cursor's char decides the cache for the whole pass. */
  lemma FirstSettles(entries: seq<Entry>, k: nat, r: Renderer, gs: seq<Grapheme>, c: Option<Position>)
    requires SoleCursor(entries, k)
    requires entries[k].anchor == Some(entries[k].decoration.primaryCursor)
    requires gs != [] && gs[0].charIdx >= entries[k].decoration.primaryCursor
    ensures Cache(c, DecorateStream(entries, r, gs).1) == Settle(c, CursorWrite(entries[k].decoration.primaryCursor, r, gs[0]))
  {
    SettledAfterFirst(entries, k, r, gs, c);
    FirstStepCache(entries, k, r, gs[0], c);
  }

  /** The cache after the dispatch of the grapheme at or beyond the waiting cursor's char. */
  lemma FirstStepCache(entries: seq<Entry>, k: nat, r: Renderer, g: Grapheme, c: Option<Position>)
    requires SoleCursor(entries, k)
    requires entries[k].anchor == Some(entries[k].decoration.primaryCursor)
    requires g.charIdx >= entries[k].decoration.primaryCursor
    ensures Cache(c, Manager.DecorateGrapheme(entries, r, g).1) == Settle(c, CursorWrite(entries[k].decoration.primaryCursor, r, g))
  {
    FirstStepReached(entries, k, r, g);
    CacheOfWritten(c, Manager.DecorateGrapheme(entries, r, g).1, CursorWrite(entries[k].decoration.primaryCursor, r, g));
  }

  /** Once the first grapheme has made the sole cursor inactive, the rest of the pass leaves the cache alone. */
  lemma SettledAfterFirst(entries: seq<Entry>, k: nat, r: Renderer, gs: seq<Grapheme>, c: Option<Position>)
    requires SoleCursor(entries, k)
    requires entries[k].anchor == Some(entries[k].decoration.primaryCursor)
    requires gs != [] && gs[0].charIdx >= entries[k].decoration.primaryCursor
    ensures Cache(c, DecorateStream(entries, r, gs).1) == Cache(c, Manager.DecorateGrapheme(entries, r, gs[0]).1)
  {
    var step := Manager.DecorateGrapheme(entries, r, gs[0]);
    FirstStepReached(entries, k, r, gs[0]);
    var rest := DecorateStream(step.0, r, gs[1..]);
    assert DecorateStream(entries, r, gs).1 == step.1 + rest.1;
    assert SoleCursor(step.0, k);
    SilentAfter(step.0, k, r, gs[1..]);
    CacheAppend(c, step.1, rest.1);
  }

  /** The first grapheme is at or beyond the cursor's char, so it is the one that decides. */
  lemma OutcomeAtHead(cache: Option<Position>, c: Option<Position>, p: nat, r: Renderer, gs: seq<Grapheme>)
    requires gs != [] && gs[0].charIdx >= p
    requires cache == Settle(c, CursorWrite(p, r, gs[0]))
    ensures CursorOutcome(cache, c, p, r, gs)
  {
  }

  /** Once the sole cursor is inactive, nothing more is written to the cache in the pass. */
  lemma SilentAfter(entries: seq<Entry>, k: nat, r: Renderer, gs: seq<Grapheme>)
    requires SoleCursor(entries, k) && entries[k].anchor == None
    ensures Writes(DecorateStream(entries, r, gs).1) == []
  {
    InactiveStaysSilent(entries, r, gs, k);
    WritesOwned(DecorateStream(entries, r, gs).1, k);
  }

  /** The dispatch of the grapheme at or beyond the waiting cursor's char: the only write it can make. */
  lemma FirstStepReached(entries: seq<Entry>, k: nat, r: Renderer, g: Grapheme)
    requires SoleCursor(entries, k)
    requires entries[k].anchor == Some(entries[k].decoration.primaryCursor)
    requires g.charIdx >= entries[k].decoration.primaryCursor
    ensures Manager.DecorateGrapheme(entries, r, g).0[k].anchor == None
    ensures Writes(Manager.DecorateGrapheme(entries, r, g).1) == Written(CursorWrite(entries[k].decoration.primaryCursor, r, g))
  {
    var d := entries[k].decoration;
    var step := Manager.DecorateGrapheme(entries, r, g);
    var here := Dispatch(d, k, entries[k].anchor, r, g);
    WritesOwned(step.1, k);
    assert Of(step.1, k) == here.1;
    CursorDispatchReached(d, k, r, g);
  }

  /** The compare loop of a cursor waiting for a char at or before the grapheme's. */
  lemma CursorDispatchReached(d: Decoration, k: nat, r: Renderer, g: Grapheme)
    requires d.Cursor? && g.charIdx >= d.primaryCursor
    ensures Dispatch(d, k, Some(d.primaryCursor), r, g).0 == None
    ensures Writes(Dispatch(d, k, Some(d.primaryCursor), r, g).1) == Written(CursorWrite(d.primaryCursor, r, g))
  {
    var here := Dispatch(d, k, Some(d.primaryCursor), r, g);
    if g.charIdx == d.primaryCursor {
      assert here.1 == [Decorated(k, g.charIdx, Decorations.DecorateGrapheme(d, r, g).cacheWrite)];
    } else {
      assert SkipConcealedAnchor(d, g.charIdx) == None;
      assert here.1 == [Skipped(k, d.primaryCursor, g.charIdx)];
    }
  }

  /** The writes a possible write `w` makes. */
  function Written(w: Option<Position>): seq<Position>
  {
    if w.Some? then [w.value] else []
  }

  /** Events whose only possible write is `w` leave the cache settled by `w`. */
  lemma CacheOfWritten(c: Option<Position>, ev: seq<Event>, w: Option<Position>)
    requires Writes(ev) == Written(w)
    ensures Cache(c, ev) == Settle(c, w)
  {
  }

  /**
   The cursor over a whole pass: after `prepare_for_rendering(first)` and the
   dispatch of a grapheme stream, the cache is untouched when the cursor is
   before the visible text. Otherwise the first grapheme at or beyond the
   cursor's char decides: its screen position is written when it is the
   cursor's grapheme in a visible column, and nothing is written otherwise.
   */
  lemma CursorPass(entries: seq<Entry>, k: nat, first: nat, r: Renderer, gs: seq<Grapheme>, c: Option<Position>)
    requires SoleCursor(entries, k)
    ensures var p := entries[k].decoration.primaryCursor;
            var cache := Cache(c, DecorateStream(PrepareForRendering(entries, first), r, gs).1);
            && (p < first ==> cache == c)
            && (first <= p ==> CursorOutcome(cache, c, p, r, gs))
  {
    var prepared := PrepareForRendering(entries, first);
    var p := entries[k].decoration.primaryCursor;
    var ev := DecorateStream(prepared, r, gs).1;
    assert SoleCursor(prepared, k);
    if first <= p {
      CursorStream(prepared, k, r, gs, c);
    } else {
      InactiveStaysSilent(prepared, r, gs, k);
      WritesOwned(ev, k);
    }
  }

  /**
   The virtual regions handed out on one line are disjoint and stacked in
   registration order: every called decoration's rows end before the next
   called one's begin, and all but the last called one end inside the viewport.
   */
  lemma VirtualRegionsDisjoint(entries: seq<Entry>, r: Renderer, fmt: Formatter, pos: LinePos, a: nat, b: nat)
    requires a < b < |RenderVirtualLines(entries, r, fmt, pos).0|
    ensures var ev := RenderVirtualLines(entries, r, fmt, pos).0;
            && ev[a].virtOff + ev[a].rows <= ev[b].virtOff
            && pos.visualLine + ev[a].virtOff + ev[a].rows < r.viewportHeight
  {
    var ev := RenderVirtualLines(entries, r, fmt, pos).0;
    assert ev[a].virtOff == 1 + SumRows(ev[..a]);
    assert ev[b].virtOff == 1 + SumRows(ev[..b]);
    assert pos.visualLine + ev[b].virtOff < r.viewportHeight;
    SumRowsPrefix(ev, a, b);
  }

  /** The rows of the calls before `b` include those before `a` and call `a`'s own. */
  lemma SumRowsPrefix(ev: seq<Event>, a: nat, b: nat)
    requires a < b <= |ev| && ev[a].VirtRendered?
    ensures SumRows(ev[..a]) + ev[a].rows <= SumRows(ev[..b])
  {
    assert ev[..b] == ev[..a] + [ev[a]] + ev[a + 1..b];
    SumRowsAppend(ev[..a] + [ev[a]], ev[a + 1..b]);
    SumRowsAppend(ev[..a], [ev[a]]);
  }

  /** `add_decoration` then `prepare_for_rendering`: the new entry's placeholder anchor 0 is replaced by its `reset_pos`. */
  lemma PrepareAfterAdd(entries: seq<Entry>, d: Decoration, first: nat)
    ensures PrepareForRendering(AddDecoration(entries, d), first)
            == PrepareForRendering(entries, first) + [Entry(d, ResetPos(d, first))]
  {
    var lhs := PrepareForRendering(AddDecoration(entries, d), first);
    var rhs := PrepareForRendering(entries, first) + [Entry(d, ResetPos(d, first))];
    assert forall i :: 0 <= i < |entries| ==> AddDecoration(entries, d)[i] == entries[i];
    assert forall i :: 0 <= i < |lhs| ==> lhs[i] == rhs[i];
  }
}
