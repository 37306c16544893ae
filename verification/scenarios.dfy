/**
 Concrete render scenarios, with a simple stand-in formatter that puts one
 grapheme per char and wraps at the viewport width.
 */
module Scenarios {
  import opened Options
  import opened Render
  import opened Decorations
  import opened Trace
  import opened Manager
  import Lines
  import Pass

  /** One grapheme per char, wrapped every `width` columns (no wrapping for width 0). */
  function Monospace(s: string, width: nat): (gs: seq<Grapheme>)
    ensures |gs| == |s|
    ensures forall i :: 0 <= i < |s| ==> gs[i].charIdx == i && gs[i].raw == [s[i]]
  {
    seq(|s|, i requires 0 <= i < |s| =>
      if width == 0 then Grapheme(i, 0, i, [s[i]]) else Grapheme(i, i / width, i % width, [s[i]]))
  }

  /**
   A completion "foo(\n  bar,\n)" at document row 3, column 0, for an
   80-column view: on the visual line of row 3 it paints "foo(" as ghost
   text, then paints "  bar," one row below and ")" two rows below, and
   reports two virtual rows.
   */
  lemma SuggestionExample(visualLine: nat, virtOff: nat)
    ensures var d := Copilot("foo(\n  bar,\n)", 3, 0, 80);
            var pos := LinePos(3, visualLine);
            && Decorations.DecorateLine(d, Monospace, pos)
               == [Draw("f", visualLine, 0), Draw("o", visualLine, 1), Draw("o", visualLine, 2), Draw("(", visualLine, 3)]
            && RenderVirtLines(d, Monospace, pos, virtOff)
               == VirtResult(2, [Draw(" ", visualLine + 1, 0), Draw(" ", visualLine + 1, 1), Draw("b", visualLine + 1, 2),
                                 Draw("a", visualLine + 1, 3), Draw("r", visualLine + 1, 4), Draw(",", visualLine + 1, 5),
                                 Draw(")", visualLine + 2, 0)])
  {
    GhostLineExample(visualLine);
    VirtualLinesExample(visualLine, virtOff);
  }

  lemma GhostLineExample(visualLine: nat)
    ensures Decorations.DecorateLine(Copilot("foo(\n  bar,\n)", 3, 0, 80), Monospace, LinePos(3, visualLine))
            == [Draw("f", visualLine, 0), Draw("o", visualLine, 1), Draw("o", visualLine, 2), Draw("(", visualLine, 3)]
  {
    FirstLineExample();
    GhostTextExample(visualLine);
  }

  lemma VirtualLinesExample(visualLine: nat, virtOff: nat)
    ensures RenderVirtLines(Copilot("foo(\n  bar,\n)", 3, 0, 80), Monospace, LinePos(3, visualLine), virtOff)
            == VirtResult(2, [Draw(" ", visualLine + 1, 0), Draw(" ", visualLine + 1, 1), Draw("b", visualLine + 1, 2),
                              Draw("a", visualLine + 1, 3), Draw("r", visualLine + 1, 4), Draw(",", visualLine + 1, 5),
                              Draw(")", visualLine + 2, 0)])
  {
    SplitExample();
    TailExample(visualLine);
  }

  lemma GhostTextExample(visualLine: nat)
    ensures DrawFrom(Monospace("foo(", 80), 0, visualLine)
            == [Draw("f", visualLine, 0), Draw("o", visualLine, 1), Draw("o", visualLine, 2), Draw("(", visualLine, 3)]
  {
    ShortLineDraws("foo(", 0, visualLine);
  }

  lemma TailExample(visualLine: nat)
    ensures TrailingDraws(["foo(", "  bar,", ")"], 1, Monospace, 80, visualLine)
            == [Draw(" ", visualLine + 1, 0), Draw(" ", visualLine + 1, 1), Draw("b", visualLine + 1, 2),
                Draw("a", visualLine + 1, 3), Draw("r", visualLine + 1, 4), Draw(",", visualLine + 1, 5),
                Draw(")", visualLine + 2, 0)]
  {
    var pieces := ["foo(", "  bar,", ")"];
    TrailingUnfold(pieces, 1, visualLine);
    SecondPieceExample(visualLine);
    LastPieceExample(visualLine);
  }

  lemma SecondPieceExample(visualLine: nat)
    ensures DrawFrom(Monospace("  bar,", 80), 0, visualLine + 1)
            == [Draw(" ", visualLine + 1, 0), Draw(" ", visualLine + 1, 1), Draw("b", visualLine + 1, 2),
                Draw("a", visualLine + 1, 3), Draw("r", visualLine + 1, 4), Draw(",", visualLine + 1, 5)]
  {
    ShortLineDraws("  bar,", 1, visualLine);
  }

  lemma LastPieceExample(visualLine: nat)
    ensures TrailingDraws(["foo(", "  bar,", ")"], 2, Monospace, 80, visualLine) == [Draw(")", visualLine + 2, 0)]
  {
    var pieces := ["foo(", "  bar,", ")"];
    TrailingUnfold(pieces, 2, visualLine);
    ShortLineDraws(")", 2, visualLine);
    assert TrailingDraws(pieces, 3, Monospace, 80, visualLine) == [];
  }

  /** The draws of the pieces from `idx` on are piece `idx`'s draws followed by the later pieces'. */
  lemma TrailingUnfold(pieces: seq<string>, idx: nat, visualLine: nat)
    requires idx < |pieces|
    ensures TrailingDraws(pieces, idx, Monospace, 80, visualLine)
            == DrawFrom(Monospace(pieces[idx], 80), 0, visualLine + idx) + TrailingDraws(pieces, idx + 1, Monospace, 80, visualLine)
  {
  }

  lemma FirstLineExample()
    ensures Lines.FirstLine("foo(\n  bar,\n)") == "foo("
  {
    FirstNewlineExample();
  }

  lemma SplitExample()
    ensures Lines.Split("foo(\n  bar,\n)") == ["foo(", "  bar,", ")"]
  {
    SplitFirstExample();
    SplitSecondExample();
    SplitLastExample();
    PiecesExample();
  }

  /** The list step of `SplitExample`, as a lemma of its own to keep that proof small. */
  lemma PiecesExample()
    ensures ["foo("] + ["  bar,", ")"] == ["foo(", "  bar,", ")"]
  {
  }

  lemma SplitFirstExample()
    ensures Lines.Split("foo(\n  bar,\n)") == ["foo("] + Lines.Split("  bar,\n)")
  {
    FirstNewlineExample();
  }

  lemma SplitSecondExample()
    ensures Lines.Split("  bar,\n)") == ["  bar,"] + Lines.Split(")")
  {
    SecondNewlineExample();
  }

  lemma SplitLastExample()
    ensures Lines.Split(")") == [")"]
  {
    assert Lines.Newline !in ")";
  }

  lemma FirstNewlineExample()
    ensures Lines.IndexOf("foo(\n  bar,\n)", Lines.Newline) == 4
    ensures "foo(\n  bar,\n)"[..4] == "foo("
    ensures "foo(\n  bar,\n)"[5..] == "  bar,\n)"
  {
    Lines.IndexOfUnique("foo(\n  bar,\n)", Lines.Newline, 4);
  }

  lemma SecondNewlineExample()
    ensures Lines.IndexOf("  bar,\n)", Lines.Newline) == 6
    ensures "  bar,\n)"[..6] == "  bar,"
    ensures "  bar,\n)"[7..] == ")"
  {
    Lines.IndexOfUnique("  bar,\n)", Lines.Newline, 6);
  }

  /**
   Two graphemes that share the cursor's char index (say, a conceal that
   leaves the char index where it was): the first one decides, and the cursor
   is recorded at its column, not at the second one's.
   */
  lemma RepeatedCharCursor(c: Option<Position>)
    ensures var entries := [Entry(Cursor(5), Some(0))];
            var gs := [Grapheme(5, 0, 1, "a"), Grapheme(5, 0, 2, "b")];
            Cache(c, Pass.DecorateStream(PrepareForRendering(entries, 0), Renderer(80, 24, 0), gs).1) == Some(Position(0, 1))
  {
  }

  /**
   Only the start of each virtual region is checked against the viewport: a
   completion with two trailing lines on the row just above the bottom is
   still called, and the region it claims runs past the viewport.
   */
  lemma LastRegionOverrun(fmt: Formatter)
    ensures var r := Renderer(80, 2, 0);
            var ev := RenderVirtualLines([Entry(Copilot("\n\n", 0, 0, 80), None)], r, fmt, LinePos(0, 0)).0;
            && |ev| == 1
            && ev[0].virtOff == 1
            && ev[0].rows == 2
            && ev[0].virtOff + ev[0].rows > r.viewportHeight
  {
  }

  /** Without a char-index filter, the draws are every grapheme's draw, in order. */
  lemma {:induction false} DrawFromAll(gs: seq<Grapheme>, baseRow: nat)
    ensures DrawFrom(gs, 0, baseRow) == seq(|gs|, i requires 0 <= i < |gs| => GraphemeDraw(gs[i], baseRow))
    decreases |gs|
  {
    if gs != [] {
      DrawFromAll(gs[1..], baseRow);
    }
  }

  /** A piece shorter than the view is drawn char by char on one row, `offset` rows below `visualLine`. */
  lemma ShortLineDraws(piece: string, offset: nat, visualLine: nat)
    requires |piece| < 80
    ensures DrawFrom(Monospace(piece, 80), 0, visualLine + offset)
            == seq(|piece|, i requires 0 <= i < |piece| => Draw([piece[i]], visualLine + offset, i))
  {
    var gs := Monospace(piece, 80);
    DrawFromAll(gs, visualLine + offset);
    var lhs := DrawFrom(gs, 0, visualLine + offset);
    var rhs := seq(|piece|, i requires 0 <= i < |piece| => Draw([piece[i]], visualLine + offset, i));
    forall i | 0 <= i < |piece|
      ensures lhs[i] == rhs[i]
    {
      assert i / 80 == 0 && i % 80 == i;
      assert gs[i] == Grapheme(i, 0, i, [piece[i]]);
    }
  }
}
