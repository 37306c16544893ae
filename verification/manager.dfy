/**
 `DecorationManager`: an ordered registry of decorations, each with the
 anchor it waits for, and the dispatch of one render pass's events to them.
 Each operation returns the new registry (when it changes anchors), the
 hook calls it made, in order, and the draws the hooks made.
 */
module Manager {
  import opened Options
  import opened Render
  import opened Decorations
  import opened Trace

  /** A registered decoration and the char index it waits for next. */
  datatype Entry = Entry(decoration: Decoration, anchor: Anchor)

  /** `add_decoration`: appends the decoration, waiting for char 0, behind the others. */
  function AddDecoration(entries: seq<Entry>, d: Decoration): (r: seq<Entry>)
    ensures |r| == |entries| + 1
    ensures r[..|entries|] == entries
    ensures r[|entries|] == Entry(d, Some(0))
  {
    entries + [Entry(d, Some(0))]
  }

  /**
   `prepare_for_rendering`: every decoration's anchor becomes its
   `reset_pos` for the first visible char; no anchor lies before that char,
   and the registry keeps its decorations and their order.
   */
  function PrepareForRendering(entries: seq<Entry>, firstVisibleChar: nat): (r: seq<Entry>)
    ensures |r| == |entries|
    ensures forall i :: 0 <= i < |r| ==>
              r[i] == Entry(entries[i].decoration, ResetPos(entries[i].decoration, firstVisibleChar))
    ensures forall i :: 0 <= i < |r| ==> NotBefore(r[i].anchor, firstVisibleChar)
    decreases |entries|
  {
    if entries == [] then []
    else
      var rest := PrepareForRendering(entries[1..], firstVisibleChar);
      var d := entries[0].decoration;
      assert forall i :: 1 <= i < |entries| ==> entries[1..][i - 1] == entries[i];
      [Entry(d, ResetPos(d, firstVisibleChar))] + rest
  }

  /** A hook call of the grapheme dispatch at `idx` respects the anchor comparison. */
  predicate Guarded(e: Event, idx: nat)
  {
    match e
    case Skipped(_, anchor, concealEnd) => anchor < concealEnd == idx
    case Decorated(_, charIdx, _) => charIdx == idx
    case _ => false
  }

  /**
   The compare loop of `decorate_grapheme` for one decoration whose anchor is
   `anchor`: skip while the anchor is before the grapheme, call the grapheme
   hook while it is at the grapheme, stop once it is beyond. The loop ends
   after at most two hook calls: a skip never lands before the grapheme and
   the grapheme hook always returns the sentinel. The anchor only moves
   forward; the grapheme hook is called at most once, last, and leaves the
   decoration inactive; only a cursor writes the cache, and what is written
   is what the hook returns.
   */
  function Dispatch(d: Decoration, dec: nat, anchor: Anchor, r: Renderer, g: Grapheme): (res: (Anchor, seq<Event>))
    ensures After(res.0, g.charIdx)
    ensures AnchorLe(anchor, res.0)
    ensures After(anchor, g.charIdx) <==> res.1 == []
    ensures After(anchor, g.charIdx) ==> res.0 == anchor
    ensures |res.1| <= Rank(anchor, g.charIdx)
    ensures forall e :: e in res.1 ==> e.dec == dec && Guarded(e, g.charIdx)
    ensures forall k :: 0 <= k < |res.1| && res.1[k].Decorated? ==> k == |res.1| - 1 && res.0 == None
    ensures forall e :: e in res.1 && e.Decorated? ==> e.cacheWrite == Decorations.DecorateGrapheme(d, r, g).cacheWrite
    ensures Compare(anchor, g.charIdx) == Equal ==>
              res == (None, [Decorated(dec, g.charIdx, Decorations.DecorateGrapheme(d, r, g).cacheWrite)])
    ensures Compare(anchor, g.charIdx) == Less ==>
              var next := SkipConcealedAnchor(d, g.charIdx);
              && (After(next, g.charIdx) ==> res == (next, [Skipped(dec, anchor.value, g.charIdx)]))
              && (next == Some(g.charIdx) ==>
                    res == (None, [Skipped(dec, anchor.value, g.charIdx),
                                   Decorated(dec, g.charIdx, Decorations.DecorateGrapheme(d, r, g).cacheWrite)]))
    decreases Rank(anchor, g.charIdx)
  {
    match Compare(anchor, g.charIdx)
    case Less =>
      var next := SkipConcealedAnchor(d, g.charIdx);
      var rest := Dispatch(d, dec, next, r, g);
      var skipped := Skipped(dec, anchor.value, g.charIdx);
      var hooked := Decorated(dec, g.charIdx, Decorations.DecorateGrapheme(d, r, g).cacheWrite);
      assert After(next, g.charIdx) ==> [skipped] + rest.1 == [skipped];
      assert next == Some(g.charIdx) ==> rest.1 == [hooked] && [skipped] + rest.1 == [skipped, hooked];
      (rest.0, [Skipped(dec, anchor.value, g.charIdx)] + rest.1)
    case Equal =>
      var hooked := Decorations.DecorateGrapheme(d, r, g);
      var rest := Dispatch(d, dec, hooked.next, r, g);
      assert rest.0 == None && rest.1 == [];
      assert [Decorated(dec, g.charIdx, hooked.cacheWrite)] + rest.1 == [Decorated(dec, g.charIdx, hooked.cacheWrite)];
      (rest.0, [Decorated(dec, g.charIdx, hooked.cacheWrite)] + rest.1)
    case Greater => (anchor, [])
  }

  /**
   The loop of `decorate_grapheme` over the entries from index `i` on: each
   entry is dispatched on its own, and the events of entry `j` are exactly
   its dispatch's events.
   */
  function DecorateFrom(entries: seq<Entry>, i: nat, r: Renderer, g: Grapheme): (res: (seq<Entry>, seq<Event>))
    requires i <= |entries|
    ensures |res.0| == |entries| - i
    ensures forall j :: i <= j < |entries| ==>
              res.0[j - i] == Entry(entries[j].decoration, Dispatch(entries[j].decoration, j, entries[j].anchor, r, g).0)
    ensures forall e :: e in res.1 ==> i <= e.dec < |entries|
    ensures forall j :: i <= j < |entries| ==>
              Of(res.1, j) == Dispatch(entries[j].decoration, j, entries[j].anchor, r, g).1
    decreases |entries| - i
  {
    if i == |entries| then ([], [])
    else
      var d := entries[i].decoration;
      var here := Dispatch(d, i, entries[i].anchor, r, g);
      var rest := DecorateFrom(entries, i + 1, r, g);
      DecorateStep(here.1, rest.1, i, |entries|);
      var es := [Entry(d, here.0)] + rest.0;
      assert forall k :: 0 <= k < |rest.0| ==> es[k + 1] == rest.0[k];
      (es, here.1 + rest.1)
  }

  /** The events of each entry's compare loop, entry by entry from index `i`. */
  function DispatchEvents(entries: seq<Entry>, i: nat, r: Renderer, g: Grapheme): (parts: seq<seq<Event>>)
    requires i <= |entries|
    ensures |parts| == |entries| - i
  {
    seq(|entries| - i, k requires 0 <= k < |entries| - i =>
      Dispatch(entries[i + k].decoration, i + k, entries[i + k].anchor, r, g).1)
  }

  /** The events of the loop from index `i` are the entries' compare-loop events, entry after entry. */
  lemma {:induction false} DecorateFromEvents(entries: seq<Entry>, i: nat, r: Renderer, g: Grapheme)
    requires i <= |entries|
    ensures DecorateFrom(entries, i, r, g).1 == Concat(DispatchEvents(entries, i, r, g))
    decreases |entries| - i
  {
    if i < |entries| {
      var here := Dispatch(entries[i].decoration, i, entries[i].anchor, r, g).1;
      var rest := DecorateFrom(entries, i + 1, r, g).1;
      assert DecorateFrom(entries, i, r, g).1 == here + rest;
      DecorateFromEvents(entries, i + 1, r, g);
      DispatchEventsStep(entries, i, r, g);
    }
  }

  lemma DispatchEventsStep(entries: seq<Entry>, i: nat, r: Renderer, g: Grapheme)
    requires i < |entries|
    ensures Concat(DispatchEvents(entries, i, r, g))
            == Dispatch(entries[i].decoration, i, entries[i].anchor, r, g).1 + Concat(DispatchEvents(entries, i + 1, r, g))
  {
    var parts := DispatchEvents(entries, i, r, g);
    assert parts[1..] == DispatchEvents(entries, i + 1, r, g);
  }

  lemma DecorateStep(here: seq<Event>, rest: seq<Event>, i: nat, n: nat)
    requires i < n
    requires forall e :: e in here ==> e.dec == i
    requires forall e :: e in rest ==> i + 1 <= e.dec < n
    ensures forall e :: e in here + rest ==> i <= e.dec < n
    ensures Of(here + rest, i) == here
    ensures forall j :: i < j < n ==> Of(here + rest, j) == Of(rest, j)
  {
    OfAppend(here, rest, i);
    OfOwned(here, i, i);
    OfAbsent(rest, i);
    forall j | i < j < n
      ensures Of(here + rest, j) == Of(rest, j)
    {
      OfAppend(here, rest, j);
      OfOwned(here, i, j);
    }
  }

  /**
   `decorate_grapheme`: dispatches grapheme `g` to every entry in
   registration order. Each entry's new anchor is what its own compare loop
   leaves, so it lies beyond `g`'s char index and did not move backwards;
   the events are each entry's loop events, entry after entry; every hook
   call made was a skip from an anchor before `g` or a grapheme hook at `g`;
   only cursors wrote the cache.
   */
  function DecorateGrapheme(entries: seq<Entry>, r: Renderer, g: Grapheme): (res: (seq<Entry>, seq<Event>))
    ensures |res.0| == |entries|
    ensures forall i :: 0 <= i < |entries| ==>
              && res.0[i].decoration == entries[i].decoration
              && After(res.0[i].anchor, g.charIdx)
              && AnchorLe(entries[i].anchor, res.0[i].anchor)
    ensures forall e :: e in res.1 ==> e.dec < |entries| && Guarded(e, g.charIdx)
    ensures forall e :: e in res.1 && e.Decorated? && e.cacheWrite.Some? ==> entries[e.dec].decoration.Cursor?
    ensures forall i :: 0 <= i < |entries| ==>
              Of(res.1, i) == Dispatch(entries[i].decoration, i, entries[i].anchor, r, g).1
    ensures forall i :: 0 <= i < |entries| ==>
              res.0[i].anchor == Dispatch(entries[i].decoration, i, entries[i].anchor, r, g).0
    ensures res.1 == Concat(DispatchEvents(entries, 0, r, g))
  {
    var res := DecorateFrom(entries, 0, r, g);
    DecorateFromEvents(entries, 0, r, g);
    forall e | e in res.1
      ensures e.dec < |entries| && Guarded(e, g.charIdx)
      ensures e.Decorated? && e.cacheWrite.Some? ==> entries[e.dec].decoration.Cursor?
    {
      var d := entries[e.dec].decoration;
      assert e in Of(res.1, e.dec);
      assert e in Dispatch(d, e.dec, entries[e.dec].anchor, r, g).1;
    }
    res
  }

  /** What each entry's line hook draws for the line, entry by entry. */
  function LineHookDraws(entries: seq<Entry>, fmt: Formatter, pos: LinePos): (parts: seq<seq<Draw>>)
    ensures |parts| == |entries|
  {
    seq(|entries|, k requires 0 <= k < |entries| => Decorations.DecorateLine(entries[k].decoration, fmt, pos))
  }

  /**
   The loop of `decorate_line` over `entries`, the first of which is
   registered at index `base`: one line hook call per entry, in
   registration order, and the entries' draws one after the other.
   */
  function LineFrom(entries: seq<Entry>, base: nat, fmt: Formatter, pos: LinePos): (res: (seq<Event>, seq<Draw>))
    ensures |res.0| == |entries|
    ensures forall k :: 0 <= k < |res.0| ==> res.0[k] == LineDecorated(base + k)
    ensures res.1 == Concat(LineHookDraws(entries, fmt, pos))
    decreases |entries|
  {
    if entries == [] then ([], [])
    else
      var rest := LineFrom(entries[1..], base + 1, fmt, pos);
      var here := Decorations.DecorateLine(entries[0].decoration, fmt, pos);
      assert LineHookDraws(entries, fmt, pos)[1..] == LineHookDraws(entries[1..], fmt, pos);
      var ev := [LineDecorated(base)] + rest.0;
      assert forall k :: 0 <= k < |rest.0| ==> ev[k + 1] == rest.0[k];
      (ev, here + rest.1)
  }

  /**
   `decorate_line`: every decoration's line hook, once each, in registration
   order; the draws are the hooks' draws in that order. Anchors are untouched.
   */
  function DecorateLine(entries: seq<Entry>, fmt: Formatter, pos: LinePos): (res: (seq<Event>, seq<Draw>))
    ensures |res.0| == |entries|
    ensures forall i :: 0 <= i < |entries| ==> res.0[i] == LineDecorated(i)
    ensures res.1 == Concat(LineHookDraws(entries, fmt, pos))
  {
    LineFrom(entries, 0, fmt, pos)
  }

  /** Sum of the rows returned by the `render_virt_lines` calls among `ev`. */
  function SumRows(ev: seq<Event>): nat
    decreases |ev|
  {
    if ev == [] then 0 else (if ev[0].VirtRendered? then ev[0].rows else 0) + SumRows(ev[1..])
  }

  lemma {:induction false} SumRowsAppend(a: seq<Event>, b: seq<Event>)
    ensures SumRows(a + b) == SumRows(a) + SumRows(b)
    decreases |a|
  {
    if a == [] {
      assert a + b == b;
    } else {
      assert (a + b)[1..] == a[1..] + b;
      SumRowsAppend(a[1..], b);
    }
  }

  /** What each called entry's virtual-line hook draws, given the offsets the calls in `ev` received. */
  function VirtHookDraws(entries: seq<Entry>, fmt: Formatter, pos: LinePos, ev: seq<Event>): (parts: seq<seq<Draw>>)
    requires |ev| <= |entries|
    requires forall k :: 0 <= k < |ev| ==> ev[k].VirtRendered?
    ensures |parts| == |ev|
  {
    seq(|ev|, k requires 0 <= k < |ev| => RenderVirtLines(entries[k].decoration, fmt, pos, ev[k].virtOff).draws)
  }

  /**
   The loop of `render_virtual_lines` over `entries`, the first of which is
   registered at index `base`, the next free virtual row being `virtOff`.
   The entries called are a prefix: up to the first whose start row would
   not be above the viewport's bottom. Each gets the running offset,
   `virtOff` plus the rows returned by the ones called before it, and the
   draws are theirs, in order.
   */
  function VirtFrom(entries: seq<Entry>, base: nat, virtOff: nat, r: Renderer, fmt: Formatter, pos: LinePos)
    : (res: (seq<Event>, seq<Draw>))
    ensures VirtCalls(entries, base, virtOff, r, fmt, pos, res.0)
    ensures |res.0| < |entries| ==> pos.visualLine + virtOff + SumRows(res.0) >= r.viewportHeight
    ensures res.1 == Concat(VirtHookDraws(entries, fmt, pos, res.0))
    decreases |entries|
  {
    if entries == [] || pos.visualLine + virtOff >= r.viewportHeight then ([], [])
    else
      var here := RenderVirtLines(entries[0].decoration, fmt, pos, virtOff);
      var rest := VirtFrom(entries[1..], base + 1, virtOff + here.rows, r, fmt, pos);
      var ev := [VirtRendered(base, virtOff, here.rows)] + rest.0;
      VirtStep(entries, base, virtOff, r, fmt, pos, here, rest.0, ev);
      (ev, here.draws + rest.1)
  }

  /** What `VirtFrom` promises of the calls `ev` it made, starting at entry `base` with free offset `virtOff`. */
  ghost predicate VirtCalls(entries: seq<Entry>, base: nat, virtOff: nat, r: Renderer, fmt: Formatter, pos: LinePos, ev: seq<Event>)
  {
    && |ev| <= |entries|
    && VirtOffsets(base, virtOff, r, pos, ev)
    && VirtRowsMatch(entries, fmt, pos, ev)
  }

  /** The calls are numbered from `base`, and each got the running offset, inside the viewport. */
  ghost predicate VirtOffsets(base: nat, virtOff: nat, r: Renderer, pos: LinePos, ev: seq<Event>)
  {
    forall k :: 0 <= k < |ev| ==>
      && ev[k].VirtRendered?
      && ev[k].dec == base + k
      && ev[k].virtOff == virtOff + SumRows(ev[..k])
      && pos.visualLine + ev[k].virtOff < r.viewportHeight
  }

  /** Each call's recorded row count is what its entry's hook returns for the offset it got. */
  ghost predicate VirtRowsMatch(entries: seq<Entry>, fmt: Formatter, pos: LinePos, ev: seq<Event>)
    requires |ev| <= |entries|
  {
    forall k :: 0 <= k < |ev| ==>
      ev[k].VirtRendered? && ev[k].rows == RenderVirtLines(entries[k].decoration, fmt, pos, ev[k].virtOff).rows
  }

  lemma VirtStep(entries: seq<Entry>, base: nat, virtOff: nat, r: Renderer, fmt: Formatter, pos: LinePos,
                 here: VirtResult, rest: seq<Event>, ev: seq<Event>)
    requires entries != [] && pos.visualLine + virtOff < r.viewportHeight
    requires here == RenderVirtLines(entries[0].decoration, fmt, pos, virtOff)
    requires VirtCalls(entries[1..], base + 1, virtOff + here.rows, r, fmt, pos, rest)
    requires ev == [VirtRendered(base, virtOff, here.rows)] + rest
    ensures VirtCalls(entries, base, virtOff, r, fmt, pos, ev)
    ensures SumRows(ev) == here.rows + SumRows(rest)
    ensures Concat(VirtHookDraws(entries, fmt, pos, ev)) == here.draws + Concat(VirtHookDraws(entries[1..], fmt, pos, rest))
  {
    VirtStepCalls(entries, base, virtOff, r, fmt, pos, here, rest, ev);
    SumRowsAppend([ev[0]], rest);
    VirtDrawsStep(entries, fmt, pos, ev, rest);
    var parts := VirtHookDraws(entries, fmt, pos, ev);
    assert parts == [here.draws] + VirtHookDraws(entries[1..], fmt, pos, rest);
    assert parts[1..] == VirtHookDraws(entries[1..], fmt, pos, rest);
  }

  lemma VirtDrawsStep(entries: seq<Entry>, fmt: Formatter, pos: LinePos, ev: seq<Event>, rest: seq<Event>)
    requires ev != [] && |ev| <= |entries| && rest == ev[1..]
    requires forall k :: 0 <= k < |ev| ==> ev[k].VirtRendered?
    ensures VirtHookDraws(entries, fmt, pos, ev)
            == [RenderVirtLines(entries[0].decoration, fmt, pos, ev[0].virtOff).draws] + VirtHookDraws(entries[1..], fmt, pos, rest)
  {
    var lhs := VirtHookDraws(entries, fmt, pos, ev);
    var rhs := [RenderVirtLines(entries[0].decoration, fmt, pos, ev[0].virtOff).draws] + VirtHookDraws(entries[1..], fmt, pos, rest);
    forall k | 0 < k < |ev|
      ensures lhs[k] == rhs[k]
    {
      assert entries[1..][k - 1] == entries[k] && rest[k - 1] == ev[k];
    }
  }

  lemma VirtStepCalls(entries: seq<Entry>, base: nat, virtOff: nat, r: Renderer, fmt: Formatter, pos: LinePos,
                      here: VirtResult, rest: seq<Event>, ev: seq<Event>)
    requires entries != [] && pos.visualLine + virtOff < r.viewportHeight
    requires here == RenderVirtLines(entries[0].decoration, fmt, pos, virtOff)
    requires VirtCalls(entries[1..], base + 1, virtOff + here.rows, r, fmt, pos, rest)
    requires ev == [VirtRendered(base, virtOff, here.rows)] + rest
    ensures VirtCalls(entries, base, virtOff, r, fmt, pos, ev)
  {
    OffsetsStep(base, virtOff, here.rows, r, pos, rest, ev);
    RowsMatchStep(entries, fmt, pos, rest, ev);
  }

  lemma OffsetsStep(base: nat, virtOff: nat, rows: nat, r: Renderer, pos: LinePos, rest: seq<Event>, ev: seq<Event>)
    requires pos.visualLine + virtOff < r.viewportHeight
    requires VirtOffsets(base + 1, virtOff + rows, r, pos, rest)
    requires ev == [VirtRendered(base, virtOff, rows)] + rest
    ensures VirtOffsets(base, virtOff, r, pos, ev)
  {
    forall k | 0 < k < |ev|
      ensures ev[k] == rest[k - 1]
      ensures SumRows(ev[..k]) == rows + SumRows(rest[..k - 1])
    {
      assert ev[..k] == [ev[0]] + rest[..k - 1];
      SumRowsAppend([ev[0]], rest[..k - 1]);
    }
    assert SumRows(ev[..0]) == 0;
  }

  lemma RowsMatchStep(entries: seq<Entry>, fmt: Formatter, pos: LinePos, rest: seq<Event>, ev: seq<Event>)
    requires entries != [] && |rest| < |entries| && ev != [] && ev[1..] == rest
    requires ev[0].VirtRendered? && ev[0].rows == RenderVirtLines(entries[0].decoration, fmt, pos, ev[0].virtOff).rows
    requires VirtRowsMatch(entries[1..], fmt, pos, rest)
    ensures VirtRowsMatch(entries, fmt, pos, ev)
  {
    forall k | 0 < k < |ev|
      ensures ev[k] == rest[k - 1] && entries[k] == entries[1..][k - 1]
    {
    }
  }

  /**
   `render_virtual_lines`: hands the decorations, in registration order,
   disjoint virtual-row offsets starting at 1 (the text row itself is never
   handed out), and stops at the first decoration whose offset would reach
   the viewport's bottom.
   */
  function RenderVirtualLines(entries: seq<Entry>, r: Renderer, fmt: Formatter, pos: LinePos)
    : (res: (seq<Event>, seq<Draw>))
    ensures |res.0| <= |entries|
    ensures forall k :: 0 <= k < |res.0| ==>
              && res.0[k].VirtRendered?
              && res.0[k].dec == k
              && res.0[k].virtOff == 1 + SumRows(res.0[..k])
              && 1 <= res.0[k].virtOff
              && pos.visualLine + res.0[k].virtOff < r.viewportHeight
    ensures |res.0| < |entries| ==> pos.visualLine + 1 + SumRows(res.0) >= r.viewportHeight
    ensures forall k :: 0 <= k < |res.0| ==>
              res.0[k].rows == RenderVirtLines(entries[k].decoration, fmt, pos, res.0[k].virtOff).rows
    ensures res.1 == Concat(VirtHookDraws(entries, fmt, pos, res.0))
  {
    VirtFrom(entries, 0, 1, r, fmt, pos)
  }
}
