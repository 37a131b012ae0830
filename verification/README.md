# egui-edit editing core in Dafny

A model of the text-editing core of egui-edit, a small text editor built on
egui/eframe. The application state (`TemplateApp`) is a single text buffer,
empty at start. Each frame does two things that carry logic:

- **The edit reducer.** While the text widget has focus, every event of the
  frame's filtered batch is applied to the buffer in arrival order. A text
  event appends its payload, unless the payload is empty or exactly `"\n"` or
  `"\r"`. A pressed Tab appends `"\t"` and a pressed Enter appends `"\n"`. A
  pressed Backspace removes the last character (`String::pop`). Every other
  event is ignored. Modifiers and the repeat flag never matter.
- **The layouter's segmentation.** The text is split on `' '` with Rust's
  `split` semantics. Each piece becomes a word section styled by the parity of
  its index, and a `" "` section follows every piece but the last.

Files:

- `events.dfy` (module `Events`): the event, key and modifier datatypes.
- `editor.dfy` (module `Editor`): the buffer, `Apply` for one event, the fold
  over a batch, the focused/unfocused frame update, the in-place loop
  `RunFrame`, and the lemmas about batches.
- `layouter.dfy` (module `Layouter`): `Split`, the `Segment` datatype, the
  layouter's job (`Segments`, and the loop `BuildJob`), and the round trips
  `Render(Segments(t)) == t` and `Split(Join(ps)) == ps`.
- `seqs.dfy` (module `Seqs`): generic sequence identities (concatenation,
  prefixes, last element) that the proofs call.
- `frame.dfy` (module `Frame`): the order of layout and edits inside one
  call of `update` (see Findings).

A Dafny `char` is a Unicode scalar value, so `string` (`seq<char>`) matches a
Rust `String` seen as a sequence of `char`s, and removing the last element is
exactly `String::pop`. Focus is a boolean input. The filtered events are a
given sequence. Colours and fonts are reduced to the `even` flag of a word
section.

The code has no cursor, no selection and no word- or line-wise deletion.
Text is only ever appended at the end, and Backspace removes at most one
character, the last, whatever the modifiers. The model follows the code on
all of these points.
Two more behaviours of the code are kept as they are. A `Paste` event is
ignored. A text event of `"\r\n"` is inserted verbatim, because only the exact
payloads `"\n"` and `"\r"` are filtered out.

The subtraction `text.split(' ').count() - 1` in the layouter is on `usize`.
It cannot wrap around, because `split` always yields at least one piece;
`Split`'s contract `|r| == Count(s, ' ') + 1` states this.

## Model

| member | source | states |
|---|---|---|
| Editor.Apply | src/app.rs:185-216 | One event changes the buffer only at its end: it grows, or loses exactly one character. An insertable text event appends its payload; an empty, `"\n"` or `"\r"` text event changes nothing; a pressed Tab or Enter appends `'\t'` or `'\n'` whatever the modifiers; a pressed Backspace leaves a prefix of length `max(0, len-1)`; every other event (released keys, arrows, paste, pointer) leaves the buffer unchanged |
| Editor.Default | src/app.rs:14-20 | The application starts with an empty buffer |
| Editor.Pop | src/app.rs:213 | Removing the last character of a non-empty buffer, then putting it back, gives the buffer again; an empty buffer stays empty |
| Editor.Update | src/app.rs:179-217 | An unfocused frame, or an empty batch, leaves the application unchanged; a focused batch ends by applying its last event to the result of the batch before it (left-to-right order) |
| Editor.ApplyInPlace | src/app.rs:185-216 | The loop body's in-place `match` on one event (including the `is_empty`/`"\n"`/`"\r"` test and the guarded `pop`) has exactly the effect of `Apply` |
| Editor.RunFrame | src/app.rs:179-217 | The in-place loop over the batch, with its inline `match`, computes exactly the frame update |
| Editor.FoldSnoc | src/app.rs:184-217 | Applying a batch with one more event at its end is applying that event to the batch's result |
| Editor.FoldConcat | src/app.rs:184-217 | Applying two batches in a row equals applying their concatenation |
| Editor.AppendOnlyBatch | src/app.rs:186-207 | A batch without Backspace presses yields the old buffer followed by every inserted payload, Tab and Enter in arrival order |
| Editor.EraseLast | src/app.rs:208-213 | A batch of `n` pressed Backspace keys, with any modifiers and repeat flags, keeps the first `len-n` characters and empties the buffer when `n >= len` |
| Editor.TypeThenErase | src/app.rs:186-213 | Typing an insertable payload then pressing Backspace once per character restores the buffer |
| Editor.KeepsPrefix | src/app.rs:184-217 | A batch of `n` events never touches the first `len-n` characters, and leaves at least `len-n` characters |
| Editor.FreshTyping | src/app.rs:14-20 | From the empty initial buffer, applying a batch of text events (what a focused frame does) yields exactly the concatenation of the insertable payloads |
| Layouter.Split | src/app.rs:81 | `split(' ')` yields `count(' ') + 1` pieces, none containing a space, which joined with single spaces give the text back |
| Layouter.SplitJoin | src/app.rs:81 | Splitting space-joined, space-free pieces returns the pieces |
| Layouter.SplitUnique | src/app.rs:81 | `Split` is the only cut of a text into space-free pieces that join back to it |
| Layouter.Segments | src/app.rs:78-112 | The sections concatenate back to the text; there are `2 * count(' ') + 1` of them, one word per space-separated piece (empty pieces included) with a separator between neighbours; word `m` is piece `m` of the split, at position `2m`, in the even style iff `m` is even; every odd position is a separator, so the job starts and ends with a word |
| Layouter.BuildJob | src/app.rs:81-112 | The appending loop over `split(' ').enumerate()` builds that job and it renders to the text |
| Layouter.AlternatingStyles | src/app.rs:87-97 | Neighbouring words never share a style |
| Frame.UpdateAsWritten | src/app.rs:132-224 | A frame applies the batch to the buffer but draws the layouter's job for the text from before the batch, which renders that old text |
| Frame.StaleFrame | src/app.rs:132-224 | Typing `"a"` into the fresh focused editor leaves `"a"` in the buffer while the frame draws the empty text |
| Frame.UpdateCorrected | src/app.rs:132-224 | With layout after the edits, a frame draws the layouter's job for the text it leaves in the buffer (one word section per space-separated piece, parity styles, separators between), which renders exactly that text |
| Frame.AgreeWithoutEdits | src/app.rs:132-224 | When a frame leaves the buffer unchanged, both orderings draw the same job |

## Left out

- Panels, menus, the dark/light switch, hyperlinks, painter calls, cursor icon and output hints: UI work with no logic to state.
- Layout geometry (row height, wrap width, desired size, galley position): `f32` arithmetic and calls into egui's font system.
- Concrete colours and fonts of the sections: reduced to the `even` flag; dark mode only picks between two colours per parity.
- Focus handling (`request_focus`, `has_focus`, `set_focus_lock_filter`) and egui's event filter: focus is a boolean input, and the filtered batch is a given sequence.
- serde persistence (`new`, `save`): foreign I/O; the buffer is `#[serde(skip)]`, so it always starts empty.
- `src/main.rs`: window, icon and logger setup and the `run_native` loop.
- Cursor, selection, word- and line-wise deletion, vertical navigation, highlight caching and asynchronous file opening: src/app.rs has none of them.

## Findings

| source | as written | input that shows it | evidently intended | confidence | as-written member | corrected member |
|---|---|---|---|---|---|---|
| src/app.rs:132-224 | the galley is laid out from `self.text` before the frame's events are applied, and that galley is drawn | a fresh focused editor receiving `Text("a")`: the buffer becomes `"a"` but the frame draws `""` | lay out after the edits, so that each frame draws the buffer it leaves | not executed; medium, since egui may schedule another repaint after input and hide the lag | Frame.StaleFrame | Frame.UpdateCorrected |
