/**
 The parts of the text renderer and the document formatter that decorations
 see. Both are collaborators of the decoration protocol: the renderer is
 reduced to its geometry (drawing is returned as a list of draw calls), and
 the formatter is an arbitrary function supplied by the caller.
 */
module Render {

  /** A screen cell relative to the view's text area. */
  datatype Position = Position(row: nat, col: nat)

  /** One call of `draw_decoration_grapheme`: `raw` drawn at (`row`, `col`). Styles are not modelled. */
  datatype Draw = Draw(raw: string, row: nat, col: nat)

  /** Geometry of the text renderer: viewport size and horizontal scroll. */
  datatype Renderer = Renderer(viewportWidth: nat, viewportHeight: nat, colOffset: nat)

  /** `column_in_bounds`: the visual column lies in the horizontally scrolled viewport. */
  predicate ColumnInBounds(r: Renderer, col: nat)
  {
    r.colOffset <= col < r.colOffset + r.viewportWidth
  }

  /** The position of one visual line: its document line and its row in the viewport. */
  datatype LinePos = LinePos(docLine: nat, visualLine: nat)

  /** A grapheme produced by the formatter: source char index, visual row and column, rendered text. */
  datatype Grapheme = Grapheme(charIdx: nat, row: nat, col: nat, raw: string)

  /** The document formatter: lays out a text for a viewport width (no annotations). */
  type Formatter = (string, nat) -> seq<Grapheme>

  /** The lists of `parts`, one after the other, in order. */
  function Concat<T>(parts: seq<seq<T>>): seq<T>
    decreases |parts|
  {
    if parts == [] then [] else parts[0] + Concat(parts[1..])
  }
}
