# Text decorations of the helix terminal UI

This project models the decoration layer of helix's document renderer
(`helix-term/src/ui/text_decorations.rs`) and proves properties of the model in Dafny.

A *decoration* is anything drawn on screen that is anchored to the rendered text.
The renderer notifies decorations through four hooks:

- before each visual line is drawn (`decorate_line`);
- after each visual line is drawn (`render_virt_lines`), when a decoration may fill virtual rows below the line;
- when the char index a decoration waits for (its *anchor*) is reached by a grapheme (`decorate_grapheme`);
- when that char index was skipped because the text was concealed (`skip_concealed_anchor`).

The `DecorationManager` keeps the decorations in registration order, each paired with its anchor.
It dispatches those notifications to them.

The model covers:

- the trait's default hooks, and closures used as line hooks;
- the `Cursor` decoration, which records where the primary cursor is drawn;
- the inline-completion decoration (`CopilotDecoration`), which draws the first line of a suggestion as ghost text and its remaining lines in virtual rows below.

Modules, one per file:

- `Options`: the `Option` datatype.
- `Render`: the renderer's view of the world:
  - viewport size and horizontal scroll;
  - `LinePos`;
  - formatted graphemes;
  - draw calls;
  - the document formatter, taken as a function parameter.
- `Lines`: splitting text at `'\n'`, as Rust's `split('\n')` and `split_once('\n')` do.
- `Decorations`: the closed set of decoration variants and their hooks.
  - An anchor is `Option<nat>`.
  - `None` stands for the `usize::MAX` sentinel, which compares greater than every char index.
- `Trace`: the hook calls a manager operation makes, recorded as events.
  - The cursor cache is the last position written by those events.
- `Manager`: `add_decoration`, `prepare_for_rendering`, `decorate_grapheme` (the three-way compare loop), `decorate_line` and `render_virtual_lines`.
  - Each operation returns the new registry (when it changes anchors), the events in order, and the draws (when hooks draw).
- `Pass`: a whole render pass. The registry is prepared once, then a stream of graphemes is dispatched one by one.
- `Scenarios`: a worked completion example, using a one-char-per-grapheme formatter.

## Model

| member | source | states |
|---|---|---|
| Decorations.ResetPos | helix-term/src/ui/text_decorations.rs:154-160 | A cursor waits for its own char if that char is not before the first visible char. Otherwise it is inactive, and every other variant is inactive (the default at lines 70-72). The anchor is never before the first visible char. |
| Decorations.SkipConcealedAnchor | helix-term/src/ui/text_decorations.rs:74-76 | After concealed text, the new anchor is never before the end of the concealment. The decoration stays active exactly when it is a cursor whose char is not before the end of the concealment, and then it waits for that char (lines 154-160). |
| Decorations.DecorateGrapheme | helix-term/src/ui/text_decorations.rs:162-173 | The grapheme hook always returns the inactive sentinel. It writes the cache exactly when the decoration is a cursor and the grapheme's column is visible. The written position is on the grapheme's row, left of the viewport's right edge, and shifted left by the horizontal scroll. |
| Decorations.DrawFrom | helix-term/src/ui/text_decorations.rs:260-270 | The draws are exactly the formatted graphemes whose char index is at least the completion's column, each at its visual position shifted down by the base row. |
| Decorations.DrawFromOne | helix-term/src/ui/text_decorations.rs:260-270 | A single grapheme is drawn once, at its visual position shifted down by the base row, when its char index is at least the column, and not drawn otherwise. |
| Decorations.DrawFromAppend | helix-term/src/ui/text_decorations.rs:260-270 | The graphemes are drawn in the formatter's order: the draws of two runs of graphemes are the first run's draws followed by the second's. With `DrawFromOne` this fixes the count and order of every draw. |
| Decorations.DecorateLine | helix-term/src/ui/text_decorations.rs:239-271 | A closure draws what it returns for the line, and a cursor draws nothing. A completion draws nothing off its document row. On its row it draws exactly the graphemes of the text before the first newline, from its column on, in the formatter's order (the `DrawFrom` list of that line's graphemes). |
| Decorations.SuggestionTail | helix-term/src/ui/text_decorations.rs:214-236 | It reports one virtual row per newline in the suggestion. Every draw comes from a piece after the first one, and every grapheme of piece j is drawn at its own visual row plus j below the visual line. The draws are piece 1's, then piece 2's, and so on, each piece's in the formatter's order. |
| Decorations.RenderVirtLines | helix-term/src/ui/text_decorations.rs:204-237 | Only a completion on its own document row draws virtual lines or claims rows. Every other call returns zero rows and no draws (the default at lines 61-68). The offset it is handed does not affect the result. |
| Lines.FirstLine | helix-term/src/ui/text_decorations.rs:244-248 | The result is a newline-free prefix of the text. It is followed by a newline unless it is the whole text. |
| Lines.Split | helix-term/src/ui/text_decorations.rs:214-216 | Splitting at newlines gives one more piece than there are newlines. No piece holds a newline, joining the pieces with newlines gives back the text, and the first piece is the first line. |
| Lines.SplitJoin | helix-term/src/ui/text_decorations.rs:214 | Splitting a newline-join of newline-free pieces gives back those pieces. |
| Manager.AddDecoration | helix-term/src/ui/text_decorations.rs:103-105 | The new decoration is appended behind the others with anchor 0, and the earlier entries are unchanged. |
| Manager.PrepareForRendering | helix-term/src/ui/text_decorations.rs:107-111 | Each entry keeps its decoration and position, and its anchor becomes that decoration's reset position. No anchor lies before the first visible char. |
| Manager.Dispatch | helix-term/src/ui/text_decorations.rs:114-126 | The compare loop for one decoration ends with the anchor beyond the grapheme, and the anchor never moves back. Nothing happens iff the anchor was already beyond. An anchor at the grapheme calls only the grapheme hook and leaves the decoration inactive. An anchor before it calls the skip hook first; if the skip lands beyond the grapheme, that is the new anchor and nothing else is called; if it lands on the grapheme, the grapheme hook follows and the decoration ends inactive. |
| Manager.DecorateGrapheme | helix-term/src/ui/text_decorations.rs:113-128 | Every entry keeps its decoration, and its new anchor is the one its own compare loop leaves, beyond the grapheme. The calls are each decoration's compare-loop calls, decoration after decoration in registration order. Only cursors write the cache. |
| Manager.DecorateFromEvents | helix-term/src/ui/text_decorations.rs:113-128 | The loop over the entries from any index on calls the hooks of one entry's compare loop after another, in registration order, with nothing interleaved. |
| Manager.DecorateLine | helix-term/src/ui/text_decorations.rs:130-134 | Every decoration's line hook is called once, in registration order. The draws are the hooks' draws concatenated in that order. |
| Manager.RenderVirtualLines | helix-term/src/ui/text_decorations.rs:136-144 | A prefix of the decorations is called, in order. Each one gets offset 1 plus the rows claimed before it, and that offset is inside the viewport. The loop stops early only when the next offset reaches the viewport's bottom. The draws are the called hooks' draws in order. |
| Pass.DecorateStream | helix-term/src/ui/text_decorations.rs:113-128 | Over a run of graphemes, anchors only move forward and end beyond the last grapheme. Only cursors write the cache. |
| Pass.InactiveStaysSilent | helix-term/src/ui/text_decorations.rs:115-125 | A decoration holding the sentinel gets no hook calls for the rest of the pass and stays inactive. |
| Pass.HookAtMostOncePerPass | helix-term/src/ui/text_decorations.rs:113-128 | Over a whole pass, each decoration's grapheme hook is called at most once. A decoration whose grapheme hook was called ends the pass inactive. |
| Pass.CacheWrittenAtMostOnce | helix-term/src/ui/text_decorations.rs:162-173 | With a single cursor, the cursor cache is written at most once per pass. |
| Pass.CursorPass | helix-term/src/ui/text_decorations.rs:147-174 | After preparation and any grapheme stream, the cache is untouched if the cursor is before the visible text. Otherwise the first grapheme at or beyond the cursor's char decides. If it is the cursor's grapheme in a visible column, the cache holds its screen position. If not, or if no grapheme reaches the cursor's char, the cache is untouched. |
| Pass.VirtualRegionsDisjoint | helix-term/src/ui/text_decorations.rs:136-144 | The virtual regions handed out on a line are stacked in registration order and do not overlap. Every region except the last ends inside the viewport. |
| Pass.PrepareAfterAdd | helix-term/src/ui/text_decorations.rs:103-111 | Preparing after an add gives the earlier entries' prepared anchors plus the new decoration's reset position, which replaces its placeholder anchor 0. |
| Scenarios.RepeatedCharCursor | helix-term/src/ui/text_decorations.rs:113-128 | Two graphemes at the cursor's char index, in visible columns 1 and 2: the cursor is recorded at column 1, because the first grapheme makes it inactive. |
| Scenarios.LastRegionOverrun | helix-term/src/ui/text_decorations.rs:138-143 | Only the start of each region is checked against the viewport height. A completion with two trailing lines, on the row just above the bottom of a two-row viewport, is still called at offset 1, and the two rows it claims run past the viewport. |
| Scenarios.SuggestionExample | helix-term/src/ui/text_decorations.rs:204-271 | The completion `foo(\n  bar,\n)` at column 0 of its row draws `foo(` as ghost text on the line. It draws `  bar,` one row below and `)` two rows below, and claims two virtual rows, whatever offset it is handed. |

## Left out

- Drawing: `TextRenderer` and `Style` are not modelled. A draw is recorded as its text and position; colours and styles are dropped.
- The document formatter: `DocumentFormatter` is a function parameter from text and viewport width to graphemes. Its wrapping and grapheme segmentation are not modelled. `TextAnnotations` and the checkpoint argument are dropped.
- `column_in_bounds` is defined in `helix-term/src/ui/document.rs`, which is not part of this model. It is modelled as `col_offset <= col < col_offset + viewport width`.
- `LinePos`: only `doc_line` and `visual_line` are modelled. Its other fields are not read by the cursor or the completion. Closures do receive the whole `LinePos`, and the model hands them only these two fields.
- `CopilotDecoration::new` (lines 184-201) converts a char position to row and column with `coords_at_pos` on a rope. The model takes the row and column directly.
- `InlineDiagnostics` (lines 13-15) lives in another module and is not part of this model.
- `CursorCache` is a shared cell. The model replaces it with the sequence of writes recorded in the events, and the cache is the last one written.
- The host render loop that calls these hooks (in `document.rs`) is not part of this model. `Pass` assumes only one `prepare_for_rendering` followed by a stream of graphemes; it does not assume the stream's char indices increase.
- Decorations.DecorateLine: closures are modelled as stateless functions of `LinePos` alone. The source's closures are `FnMut` (line 91): they may keep mutable captured state, so two calls with the same line may draw differently, and they may use the renderer in other ways than drawing.
- Decorations.RenderVirtLines: the `u16` casts of the row count, the draw rows and the draw columns (lines 230-231, 235) are not modelled, so a suggestion with more than 65535 lines, or a draw row or column past 65535, does not wrap.
- Decorations.DecorateLine: the `u16` casts of the draw row and the draw column (lines 267-268) are not modelled; `DrawFrom` places draws at unbounded rows and columns.
- Manager.RenderVirtualLines: `virt_off` is a `u16` in the source, and its overflow is not modelled.
- Decorations.SuggestionTail: piece j of a suggestion is drawn at `visual_line + grapheme row + j`. The offset the manager hands out is ignored, as the source does. So the drawn rows agree with the claimed region only when the completion is handed offset 1 and no piece wraps. The design comment at lines 51-60 says each decoration draws inside its own region; the model follows the code.
