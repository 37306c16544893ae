/**
 The `Decoration` capability and the concrete decorations. A decoration is
 one of a closed set of variants; each hook is a pure function of the
 decoration and its inputs. Hooks a variant does not override behave as the
 trait's defaults: no drawing, no virtual rows, and the inactive anchor.
 */
module Decorations {
  import opened Options
  import opened Render
  import Lines

  /**
   The next char index a decoration waits for. `None` is the inactive
   sentinel (`usize::MAX`), which compares greater than every index.
   */
  type Anchor = Option<nat>

  datatype Ordering = Less | Equal | Greater

  /** `anchor.cmp(&char_idx)`, with the sentinel above every index. */
  function Compare(a: Anchor, idx: nat): Ordering
  {
    match a
    case None => Greater
    case Some(n) => if n < idx then Less else if n == idx then Equal else Greater
  }

  /** The anchor lies strictly beyond `idx`: nothing to do at `idx`. */
  predicate After(a: Anchor, idx: nat)
  {
    Compare(a, idx) == Greater
  }

  /** The anchor is `idx` or beyond. */
  predicate NotBefore(a: Anchor, idx: nat)
  {
    Compare(a, idx) != Less
  }

  /** Anchor order: the numeric order on indices, with the sentinel on top. */
  predicate AnchorLe(a: Anchor, b: Anchor)
  {
    b.None? || (a.Some? && a.value <= b.value)
  }

  /** How many hook calls an anchor can still cause at `idx`: 2 before it, 1 at it, 0 after. */
  function Rank(a: Anchor, idx: nat): nat
  {
    match Compare(a, idx)
    case Less => 2
    case Equal => 1
    case Greater => 0
  }

  datatype Decoration =
    /** A closure registered as a decoration: it only has a line hook. */
    | LineHook(hook: LinePos -> seq<Draw>)
    /** Records where the primary cursor is drawn. */
    | Cursor(primaryCursor: nat)
    /** An inline completion anchored at document `row` / `col`, laid out for `viewWidth`. */
    | Copilot(text: string, row: nat, col: nat, viewWidth: nat)

  /**
   `reset_pos`: the first anchor of a render pass whose first visible char is
   `pos`. Only the cursor overrides the default: it waits for its char when
   that char is not before the visible text, and is inactive otherwise.
   */
  function ResetPos(d: Decoration, pos: nat): (a: Anchor)
    ensures NotBefore(a, pos)
    ensures a.Some? <==> d.Cursor? && pos <= d.primaryCursor
    ensures a.Some? ==> a.value == d.primaryCursor
  {
    match d
    case Cursor(p) => if pos <= p then Some(p) else None
    case _ => None
  }

  /**
   `skip_concealed_anchor`: the anchor after the text up to `concealEnd` was
   hidden. Every variant keeps the default, which is `reset_pos`.
   */
  function SkipConcealedAnchor(d: Decoration, concealEnd: nat): (a: Anchor)
    ensures NotBefore(a, concealEnd)
    ensures a.Some? <==> d.Cursor? && concealEnd <= d.primaryCursor
    ensures a.Some? ==> a.value == d.primaryCursor
  {
    ResetPos(d, concealEnd)
  }

  /** What the grapheme hook returns (the next anchor) and what it stores in the cursor cache. */
  datatype GraphemeResult = GraphemeResult(next: Anchor, cacheWrite: Option<Position>)

  /**
   `decorate_grapheme`: called when the anchor equals the grapheme's char
   index. The cursor stores its screen position, the visual position shifted
   left by the horizontal scroll, when the column is visible. Every variant
   then becomes inactive.
   */
  function DecorateGrapheme(d: Decoration, r: Renderer, g: Grapheme): (res: GraphemeResult)
    ensures res.next == None
    ensures res.cacheWrite.Some? <==> d.Cursor? && ColumnInBounds(r, g.col)
    ensures res.cacheWrite.Some? ==>
              && res.cacheWrite.value.row == g.row
              && res.cacheWrite.value.col + r.colOffset == g.col
              && res.cacheWrite.value.col < r.viewportWidth
  {
    match d
    case Cursor(_) =>
      if ColumnInBounds(r, g.col) then GraphemeResult(None, Some(Position(g.row, g.col - r.colOffset)))
      else GraphemeResult(None, None)
    case _ => GraphemeResult(None, None)
  }

  /** The draw call for grapheme `g` of a text laid out from visual row `baseRow`. */
  function GraphemeDraw(g: Grapheme, baseRow: nat): Draw
  {
    Draw(g.raw, baseRow + g.row, g.col)
  }

  /** `d` is the draw of a grapheme of `gs` whose char index is at least `minIdx`. */
  ghost predicate DrawnFrom(d: Draw, gs: seq<Grapheme>, minIdx: nat, baseRow: nat)
  {
    exists j :: 0 <= j < |gs| && gs[j].charIdx >= minIdx && d == GraphemeDraw(gs[j], baseRow)
  }

  /** Every draw of `ds` is the draw of a grapheme of `gs` at or after `minIdx`. */
  ghost predicate OnlyFrom(ds: seq<Draw>, gs: seq<Grapheme>, minIdx: nat, baseRow: nat)
  {
    forall k {:trigger DrawnFrom(ds[k], gs, minIdx, baseRow)} :: 0 <= k < |ds| ==> DrawnFrom(ds[k], gs, minIdx, baseRow)
  }

  /** Every grapheme of `gs` at or after `minIdx` has its draw in `ds`. */
  ghost predicate Covers(ds: seq<Draw>, gs: seq<Grapheme>, minIdx: nat, baseRow: nat)
  {
    forall j :: 0 <= j < |gs| && gs[j].charIdx >= minIdx ==> GraphemeDraw(gs[j], baseRow) in ds
  }

  /**
   The draws for the graphemes of `gs` whose char index is at least `minIdx`,
   each at `baseRow` plus its own visual row: exactly those draws and no others.
   */
  function DrawFrom(gs: seq<Grapheme>, minIdx: nat, baseRow: nat): (ds: seq<Draw>)
    ensures |ds| <= |gs|
    ensures OnlyFrom(ds, gs, minIdx, baseRow)
    ensures Covers(ds, gs, minIdx, baseRow)
    decreases |gs|
  {
    if gs == [] then []
    else
      var rest := DrawFrom(gs[1..], minIdx, baseRow);
      var ds := if gs[0].charIdx < minIdx then rest else [GraphemeDraw(gs[0], baseRow)] + rest;
      assert OnlyFrom(ds, gs, minIdx, baseRow) by {
        forall k | 0 <= k < |ds|
          ensures DrawnFrom(ds[k], gs, minIdx, baseRow)
        {
          if ds[k] != GraphemeDraw(gs[0], baseRow) || gs[0].charIdx < minIdx {
            var k' := if gs[0].charIdx < minIdx then k else k - 1;
            assert ds[k] == rest[k'];
            assert DrawnFrom(rest[k'], gs[1..], minIdx, baseRow);
            var j :| 0 <= j < |gs[1..]| && gs[1..][j].charIdx >= minIdx && rest[k'] == GraphemeDraw(gs[1..][j], baseRow);
            assert gs[1..][j] == gs[j + 1];
          }
        }
      }
      assert Covers(ds, gs, minIdx, baseRow) by {
        forall j | 0 <= j < |gs| && gs[j].charIdx >= minIdx
          ensures GraphemeDraw(gs[j], baseRow) in ds
        {
          if j > 0 {
            assert gs[1..][j - 1] == gs[j];
          }
        }
      }
      ds
  }

  /** A single grapheme is drawn exactly when its char index is at least `minIdx`. */
  lemma DrawFromOne(g: Grapheme, minIdx: nat, baseRow: nat)
    ensures DrawFrom([g], minIdx, baseRow) == if g.charIdx >= minIdx then [GraphemeDraw(g, baseRow)] else []
  {
  }

  /**
   The draws keep the formatter's order: the draws of `a + b` are those of
   `a` followed by those of `b`. With `DrawFromOne` this fixes every draw
   list, count and order included.
   */
  lemma {:induction false} DrawFromAppend(a: seq<Grapheme>, b: seq<Grapheme>, minIdx: nat, baseRow: nat)
    ensures DrawFrom(a + b, minIdx, baseRow) == DrawFrom(a, minIdx, baseRow) + DrawFrom(b, minIdx, baseRow)
    decreases |a|
  {
    if a == [] {
      assert a + b == b;
    } else {
      assert (a + b)[0] == a[0];
      assert (a + b)[1..] == a[1..] + b;
      DrawFromAppend(a[1..], b, minIdx, baseRow);
    }
  }

  /** `d` is the draw of a grapheme of one of the pieces `lines[lo..]`, placed below by the piece's index. */
  ghost predicate DrawnFromPieces(d: Draw, lines: seq<string>, lo: nat, fmt: Formatter, width: nat, visualLine: nat)
  {
    exists j :: lo <= j < |lines| && DrawnFrom(d, fmt(lines[j], width), 0, visualLine + j)
  }

  /**
   The draws of the pieces `lines[idx..]`, each laid out on its own by the
   formatter and drawn at `visualLine` plus its piece index plus the
   grapheme's visual row.
   */
  function TrailingDraws(lines: seq<string>, idx: nat, fmt: Formatter, width: nat, visualLine: nat): (ds: seq<Draw>)
    requires idx <= |lines|
    ensures forall k {:trigger DrawnFromPieces(ds[k], lines, idx, fmt, width, visualLine)} :: 0 <= k < |ds| ==> DrawnFromPieces(ds[k], lines, idx, fmt, width, visualLine)
    ensures forall j :: idx <= j < |lines| ==> Covers(ds, fmt(lines[j], width), 0, visualLine + j)
    ensures ds == Concat(PieceDraws(lines, idx, fmt, width, visualLine))
    decreases |lines| - idx
  {
    if idx == |lines| then []
    else
      var here := DrawFrom(fmt(lines[idx], width), 0, visualLine + idx);
      var rest := TrailingDraws(lines, idx + 1, fmt, width, visualLine);
      TrailingOnly(here, rest, lines, idx, fmt, width, visualLine);
      TrailingCovers(here, rest, lines, idx, fmt, width, visualLine);
      PieceDrawsStep(lines, idx, fmt, width, visualLine);
      here + rest
  }

  /** The draws of each piece of `lines[idx..]` on its own row, piece by piece. */
  function PieceDraws(lines: seq<string>, idx: nat, fmt: Formatter, width: nat, visualLine: nat): (parts: seq<seq<Draw>>)
    requires idx <= |lines|
    ensures |parts| == |lines| - idx
  {
    seq(|lines| - idx, k requires 0 <= k < |lines| - idx => DrawFrom(fmt(lines[idx + k], width), 0, visualLine + idx + k))
  }

  lemma PieceDrawsStep(lines: seq<string>, idx: nat, fmt: Formatter, width: nat, visualLine: nat)
    requires idx < |lines|
    ensures Concat(PieceDraws(lines, idx, fmt, width, visualLine))
            == DrawFrom(fmt(lines[idx], width), 0, visualLine + idx) + Concat(PieceDraws(lines, idx + 1, fmt, width, visualLine))
  {
    var parts := PieceDraws(lines, idx, fmt, width, visualLine);
    assert parts[1..] == PieceDraws(lines, idx + 1, fmt, width, visualLine);
  }

  lemma TrailingOnly(here: seq<Draw>, rest: seq<Draw>, lines: seq<string>, idx: nat, fmt: Formatter, width: nat, visualLine: nat)
    requires idx < |lines|
    requires OnlyFrom(here, fmt(lines[idx], width), 0, visualLine + idx)
    requires forall k {:trigger DrawnFromPieces(rest[k], lines, idx + 1, fmt, width, visualLine)} :: 0 <= k < |rest| ==> DrawnFromPieces(rest[k], lines, idx + 1, fmt, width, visualLine)
    ensures forall k {:trigger DrawnFromPieces((here + rest)[k], lines, idx, fmt, width, visualLine)} :: 0 <= k < |here + rest| ==> DrawnFromPieces((here + rest)[k], lines, idx, fmt, width, visualLine)
  {
    var ds := here + rest;
    forall k | 0 <= k < |ds|
      ensures DrawnFromPieces(ds[k], lines, idx, fmt, width, visualLine)
    {
      if k < |here| {
        assert ds[k] == here[k];
        assert DrawnFrom(ds[k], fmt(lines[idx], width), 0, visualLine + idx);
      } else {
        assert ds[k] == rest[k - |here|];
        assert DrawnFromPieces(rest[k - |here|], lines, idx + 1, fmt, width, visualLine);
      }
    }
  }

  lemma TrailingCovers(here: seq<Draw>, rest: seq<Draw>, lines: seq<string>, idx: nat, fmt: Formatter, width: nat, visualLine: nat)
    requires idx < |lines|
    requires Covers(here, fmt(lines[idx], width), 0, visualLine + idx)
    requires forall j :: idx + 1 <= j < |lines| ==> Covers(rest, fmt(lines[j], width), 0, visualLine + j)
    ensures forall j :: idx <= j < |lines| ==> Covers(here + rest, fmt(lines[j], width), 0, visualLine + j)
  {
    forall j | idx <= j < |lines|
      ensures Covers(here + rest, fmt(lines[j], width), 0, visualLine + j)
    {
      CoversAppend(here, rest, fmt(lines[j], width), 0, visualLine + j);
    }
  }

  lemma CoversAppend(a: seq<Draw>, b: seq<Draw>, gs: seq<Grapheme>, minIdx: nat, baseRow: nat)
    requires Covers(a, gs, minIdx, baseRow) || Covers(b, gs, minIdx, baseRow)
    ensures Covers(a + b, gs, minIdx, baseRow)
  {
    forall j | 0 <= j < |gs| && gs[j].charIdx >= minIdx
      ensures GraphemeDraw(gs[j], baseRow) in a + b
    {
      assert GraphemeDraw(gs[j], baseRow) in a || GraphemeDraw(gs[j], baseRow) in b;
    }
  }

  /**
   `decorate_line`: called before a visual line is drawn. A closure draws
   whatever it returns for the line; the cursor draws nothing; the completion
   draws its first line from column `col` on, as ghost text on the visual line
   of its document row, and nothing on other lines.
   */
  function DecorateLine(d: Decoration, fmt: Formatter, pos: LinePos): (ds: seq<Draw>)
    ensures d.LineHook? ==> ds == d.hook(pos)
    ensures d.Cursor? ==> ds == []
    ensures d.Copilot? && pos.docLine != d.row ==> ds == []
    ensures d.Copilot? && pos.docLine == d.row ==>
              var gs := fmt(Lines.FirstLine(d.text), d.viewWidth);
              && OnlyFrom(ds, gs, d.col, pos.visualLine) && Covers(ds, gs, d.col, pos.visualLine)
              && ds == DrawFrom(gs, d.col, pos.visualLine)
  {
    match d
    case LineHook(hook) => hook(pos)
    case Cursor(_) => []
    case Copilot(text, row, col, width) =>
      if row != pos.docLine then []
      else DrawFrom(fmt(Lines.FirstLine(text), width), col, pos.visualLine)
  }

  /** What `render_virt_lines` returns (the rows it used) and what it drew. */
  datatype VirtResult = VirtResult(rows: nat, draws: seq<Draw>)

  /**
   The virtual lines of a completion whose document row is being drawn on
   `visualLine`: every piece after the first newline is drawn, piece `j` at
   `visualLine + j`, piece after piece in order, and one row is reported
   per newline. The pieces are counted before they are drawn, as
   `render_virt_lines` does.
   */
  function SuggestionTail(text: string, fmt: Formatter, width: nat, visualLine: nat): (res: VirtResult)
    ensures res.rows == Lines.Occurrences(text, Lines.Newline)
    ensures res.rows + 1 == |Lines.Split(text)|
    ensures forall k {:trigger DrawnFromPieces(res.draws[k], Lines.Split(text), 1, fmt, width, visualLine)} ::
              0 <= k < |res.draws| ==> DrawnFromPieces(res.draws[k], Lines.Split(text), 1, fmt, width, visualLine)
    ensures forall j :: 1 <= j < |Lines.Split(text)| ==>
              Covers(res.draws, fmt(Lines.Split(text)[j], width), 0, visualLine + j)
    ensures res.draws == Concat(PieceDraws(Lines.Split(text), 1, fmt, width, visualLine))
  {
    var pieces := Lines.Split(text);
    var count := |pieces| - 1;
    VirtResult(count, TrailingDraws(pieces, 1, fmt, width, visualLine))
  }

  /**
   `render_virt_lines`: called after a visual line is drawn, with the first
   virtual row `virtOff` free for this decoration. Only the completion
   overrides the default, and only on the visual line of its document row;
   the offset it is given is not used for placing its draws.
   */
  function RenderVirtLines(d: Decoration, fmt: Formatter, pos: LinePos, virtOff: nat): (res: VirtResult)
    ensures !d.Copilot? || pos.docLine != d.row ==> res == VirtResult(0, [])
    ensures d.Copilot? && pos.docLine == d.row ==> res == SuggestionTail(d.text, fmt, d.viewWidth, pos.visualLine)
  {
    match d
    case Copilot(text, row, _, width) =>
      if pos.docLine != row then VirtResult(0, []) else SuggestionTail(text, fmt, width, pos.visualLine)
    case _ => VirtResult(0, [])
  }
}
