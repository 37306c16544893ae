/**
 The observable effects of a render pass: which hook of which registered
 decoration was called, with what, and what it stored in the cursor cache.
 Decorations are named by their registration index.
 */
module Trace {
  import opened Options
  import opened Render

  datatype Event =
    /** `skip_concealed_anchor(concealEnd)` was called while the anchor was `anchor`. */
    | Skipped(dec: nat, anchor: nat, concealEnd: nat)
    /** `decorate_grapheme` was called at `charIdx`; `cacheWrite` is what it stored in the cursor cache. */
    | Decorated(dec: nat, charIdx: nat, cacheWrite: Option<Position>)
    /** `decorate_line` was called. */
    | LineDecorated(dec: nat)
    /** `render_virt_lines` was called with offset `virtOff` and returned `rows`. */
    | VirtRendered(dec: nat, virtOff: nat, rows: nat)

  /** The events of decoration `dec`, in order. */
  function Of(ev: seq<Event>, dec: nat): (r: seq<Event>)
    ensures forall e :: e in r <==> e in ev && e.dec == dec
    decreases |ev|
  {
    if ev == [] then []
    else (if ev[0].dec == dec then [ev[0]] else []) + Of(ev[1..], dec)
  }

  lemma {:induction false} OfAppend(a: seq<Event>, b: seq<Event>, dec: nat)
    ensures Of(a + b, dec) == Of(a, dec) + Of(b, dec)
    decreases |a|
  {
    if a == [] {
      assert a + b == b;
    } else {
      assert (a + b)[1..] == a[1..] + b;
      OfAppend(a[1..], b, dec);
    }
  }

  /** Events that all belong to `dec` project to themselves, and to nothing for another decoration. */
  lemma {:induction false} OfOwned(ev: seq<Event>, dec: nat, other: nat)
    requires forall e :: e in ev ==> e.dec == dec
    ensures Of(ev, dec) == ev
    ensures other != dec ==> Of(ev, other) == []
    decreases |ev|
  {
    if ev != [] {
      assert ev[0] in ev;
      assert forall e :: e in ev[1..] ==> e in ev;
      OfOwned(ev[1..], dec, other);
      assert ev == [ev[0]] + ev[1..];
    }
  }

  /** A decoration none of the events belongs to has no events. */
  lemma OfAbsent(ev: seq<Event>, dec: nat)
    requires forall e :: e in ev ==> e.dec != dec
    ensures Of(ev, dec) == []
  {
    if Of(ev, dec) != [] {
      assert Of(ev, dec)[0] in Of(ev, dec);
    }
  }

  /** Number of grapheme hook calls in `ev`. */
  function HookCalls(ev: seq<Event>): nat
    decreases |ev|
  {
    if ev == [] then 0 else (if ev[0].Decorated? then 1 else 0) + HookCalls(ev[1..])
  }

  lemma {:induction false} HookCallsAppend(a: seq<Event>, b: seq<Event>)
    ensures HookCalls(a + b) == HookCalls(a) + HookCalls(b)
    decreases |a|
  {
    if a == [] {
      assert a + b == b;
    } else {
      assert (a + b)[1..] == a[1..] + b;
      HookCallsAppend(a[1..], b);
    }
  }

  /** The positions stored in the cursor cache, in order. */
  function Writes(ev: seq<Event>): (w: seq<Position>)
    ensures |w| <= HookCalls(ev)
    decreases |ev|
  {
    if ev == [] then []
    else
      var here := if ev[0].Decorated? && ev[0].cacheWrite.Some? then [ev[0].cacheWrite.value] else [];
      here + Writes(ev[1..])
  }

  lemma {:induction false} WritesAppend(a: seq<Event>, b: seq<Event>)
    ensures Writes(a + b) == Writes(a) + Writes(b)
    decreases |a|
  {
    if a == [] {
      assert a + b == b;
    } else {
      assert (a + b)[0] == a[0];
      assert (a + b)[1..] == a[1..] + b;
      WritesAppend(a[1..], b);
      var here := if a[0].Decorated? && a[0].cacheWrite.Some? then [a[0].cacheWrite.value] else [];
      assert Writes(a + b) == here + Writes(a[1..] + b);
      assert Writes(a) == here + Writes(a[1..]);
    }
  }

  /** The cursor cache after the events: each write replaces the previous value. */
  function Cache(c: Option<Position>, ev: seq<Event>): (r: Option<Position>)
    ensures Writes(ev) == [] ==> r == c
    ensures Writes(ev) != [] ==> r == Some(Writes(ev)[|Writes(ev)| - 1])
    decreases |ev|
  {
    if ev == [] then c
    else
      var c' := if ev[0].Decorated? && ev[0].cacheWrite.Some? then ev[0].cacheWrite else c;
      Cache(c', ev[1..])
  }
}
