# Typing trainer core in Dafny

This project models the logic of a terminal typing-speed trainer
(`type_trainer.py`). The screen, the clock and the key reader are replaced
by explicit inputs. Five modules make up the model:

- `Keys` (keys.dfy): keys as the terminal library reports them. A key is a
  string: one character for an ordinary key, a name such as
  `KEY_BACKSPACE` for a special one. A poll that finds no key is `None`.
- `Typing` (typing.dfy): the free-typing session (`run`). The state holds
  the recorded keys, the mistake counter and a status. `Step` is one loop
  iteration and `Replay` folds it over a sequence of polls. `Run` is the
  loop itself, proved equal to `Replay`. Lemmas cover backspace, recording
  and mistakes, Escape, completion, and error-free typing.
- `Scrolling` (scrolling.dfy): the running-line session (`run_line`) and
  the difficulty mapping. Time is an integer number of hundredths of a
  second given with each frame. `Step`, `Replay` and the loop `RunLine`
  follow the same pattern as `Typing`. The invariant `Aligned` says the
  cursor always sits over the next untyped character. Lemmas cover shifts,
  loss, keys, the visible window, and the green border.
- `Render` (render.dfy): the three drawing functions as lists of cells. The
  typing overlay is a loop (`TypingCells`) proved against the recursive
  `Overlay`. The scroll line is `ScrollCells`. The info panel is
  `InfoPanel`.
- `Prompt` (prompt.dfy): the one-line prompt (`type_the_word`), as the loop
  `ReadWord`, proved against the fold `Typed`.

Both sessions can raise an IndexError in the source. The model keeps it as
a `Crashed` status:

- In typing mode, it happens when a key other than Escape or a backspace
  arrives while the buffer is as long as the target but does not spell it.
- In scrolling mode, it happens when a one-character key other than Escape
  arrives after the whole text has been typed.

Where the code behaves in a surprising way, the model follows the code:

- Enter is not turned into a newline. The comparison at line 87 never
  holds.
- Completion is checked at the start of a frame, before the key is polled.
- The typing buffer is bounded because overflow crashes, not because keys
  are refused.
- The scroll window as the code slices it, cut short by the unpadded
  length, is `WindowAsWritten`. The frame drawing `VisibleCells` uses the
  corrected `Window` instead (see Findings).

## Model

| member | source | states |
|---|---|---|
| `Typing.Step` | type_trainer.py:78-100 | one frame never lets the buffer outgrow the target; the counter rises by at most one; finished sessions stay unchanged; a crash happens only at a full buffer |
| `Typing.Replay` | type_trainer.py:64-100 | over any number of frames the buffer stays bounded and the counter never decreases (it rises by at most one per frame); a finished session ignores further frames |
| `Typing.Run` | type_trainer.py:58-100 | the loop's final state is the fold of `Step` over the polls, starting from an empty buffer and zero mistakes; the buffer never exceeds the target's length |
| `Typing.BackspaceDropsLast` | type_trainer.py:94-96 | backspace removes exactly the last recorded key, does nothing on an empty buffer, and never changes the counter |
| `Typing.KeyIsRecorded` | type_trainer.py:97-100 | any other key is appended whether or not it matches; the counter rises by one exactly when the key differs from the target's next character |
| `Typing.CompletesBeforePolling` | type_trainer.py:78-80 | once the joined buffer equals the target, the next frame completes the session whatever key would have come |
| `Typing.EscapeAborts` | type_trainer.py:90-92 | a one-character key with code 27 aborts with buffer and counter unchanged |
| `Typing.TypingTargetCompletes` | type_trainer.py:64-100 | typing the target's characters in order (none Escape or backspace) and then one more frame completes the session with zero mistakes |
| `Typing.MistakeScenario` | type_trainer.py:97-100 | a three-character target typed right, wrong, right (say "abc" as a, x, c) records all three keys with exactly one mistake and keeps running, since the buffer does not spell the target |
| `Typing.SlipStaysCounted` | type_trainer.py:94-100 | a mismatched key followed by backspace restores the buffer but leaves the mistake counted |
| `Typing.FullBufferCrashes` | type_trainer.py:78-98 | a running buffer as long as the target that does not spell it, given any key other than Escape or a backspace, raises the IndexError with buffer and counter unchanged |
| `Typing.OverfullCrashes` | type_trainer.py:78-100 | a two-character target typed right then wrong (say "ab" as a, x) has a full buffer that does not spell it; any further key other than Escape or backspace reaches the IndexError, with buffer and counter as they were |
| `Render.TypingCells` | type_trainer.py:34-44 | one cell per recorded key except newlines, in key order; red exactly when the key differs from the target at that index; each at the row and column of `Overlay` |
| `Render.OverlayPlaced` | type_trainer.py:35-44 | each overlay cell carries a non-newline key, its row (newlines before it), its column and its style |
| `Render.OverlayOrdered` | type_trainer.py:35 | overlay cells follow the order of the recorded keys |
| `Render.OverlayComplete` | type_trainer.py:39-43 | every recorded key other than a newline gets a cell |
| `Render.ColumnCountsSinceNewline` | type_trainer.py:39-44 | the column the loop counts is the number of entries since the last newline |
| `Render.NextPosition` | type_trainer.py:39-44 | a newline moves to column 0 of the next row; any other entry advances the column by one on the same row |
| `Render.ScrollCells` | type_trainer.py:160-165 | one cell per visible character in row 4, column i; green exactly when i is left of the cursor, otherwise plain |
| `Render.GreenIsPrefix` | type_trainer.py:161-165 | the green cells form a prefix of the line, as long as the cursor index clipped to the line |
| `Render.InfoPanel` | type_trainer.py:49-55 | heading, symbols per minute and time lines at rows 11, 12, 14 in column columns // 2 + 1; the mistakes line at row 13 is present exactly when the count is non-negative, so the panel has four lines then and three otherwise |
| `Render.PanelPerMode` | type_trainer.py:53-54 | typing mode, whose counter is never negative, always shows it; scroll mode, which passes -1, never does |
| `Scrolling.Difficulty` | type_trainer.py:175 | the difficulty is at most 1; it is tier - 2 for tiers up to 3 and 1 above |
| `Scrolling.IntervalBounds` | type_trainer.py:123 | the shift interval 15 - 10 d hundredths is at least 5 for every integer tier; tiers 1, 2, 3 give 25, 15, 5; a harder tier never shifts more slowly |
| `Scrolling.Padded` | type_trainer.py:111 | the padded text is term_len - 1 characters longer than the text |
| `Scrolling.PaddedAt` | type_trainer.py:111 | the first term_len - 1 padded characters are spaces and the text follows them unchanged |
| `Scrolling.Step` | type_trainer.py:118-155 | a frame preserves alignment; window offset and typed count never decrease; finished sessions stay unchanged; an aligned session crashes only after the whole text is typed |
| `Scrolling.ReplayPreserves` | type_trainer.py:118-155 | alignment, monotone window offset and typed count, and absorbing end states hold over any number of frames |
| `Scrolling.RunLine` | type_trainer.py:103-157 | the loop's final state is the fold of `Step` from cursor term_len - 1, offset 0, count 0, with interval 15 - 10 d; it is aligned |
| `Scrolling.ShiftMoves` | type_trainer.py:123-126 | a due shift sets cursor to max(0, cursor - 1), adds 1 to the window offset and records the time; otherwise nothing moves |
| `Scrolling.LostExactlyAtEdge` | type_trainer.py:128-132 | a frame loses the session exactly when the cursor is 0 after the shift step, and the key is then ignored |
| `Scrolling.ExpectsNextCharacter` | type_trainer.py:153 | in an aligned running state the padded character at offset plus cursor is the text's next untyped character |
| `Scrolling.KeyEffect` | type_trainer.py:149-155 | a correct key adds one to both the count and the cursor, whether or not a shift happened; Escape aborts; any other key changes nothing beyond the shift |
| `Scrolling.EscapeAborts` | type_trainer.py:149-151 | Escape aborts a running session unless the shift of the same frame has just lost it |
| `Scrolling.IdleShiftsLose` | type_trainer.py:123-155 | from an aligned state with cursor c, c frames that each shift and bring no key, or a key that is neither Escape nor the next character while characters remain, lose the session, with the window c characters further on and the count unchanged |
| `Scrolling.IdleStartLoses` | type_trainer.py:111-155 | from the start, term_len - 1 shifting frames with no correct key (and no key at all once the text is empty) lose the session |
| `Scrolling.TypedOutCrashes` | type_trainer.py:149-155 | once the whole text is typed, a one-character key other than Escape raises the IndexError unless the same frame's shift loses the session |
| `Scrolling.Slice` | type_trainer.py:137 | Python slicing with non-negative bounds: empty when the bounds cross or start past the end, clipped at the end, element i is s[lo + i] |
| `Scrolling.WindowAsWritten` | type_trainer.py:137 | the window as the code slices it: padded positions from the offset up to the smaller of offset + term_len and the unpadded text length, empty when the offset is past that |
| `Scrolling.AsWrittenHidesTail` | type_trainer.py:137 | the window as sliced never reaches past the unpadded text length, so the last term_len - 1 characters of the text are never shown |
| `Scrolling.AsWrittenHidesFirstKey` | type_trainer.py:137 | text "abc" on 10 columns: the first window is three spaces while 'a' waits at column 9 |
| `Scrolling.Window` | type_trainer.py:137 | the corrected window shows every padded position from the offset up to the terminal width; its length is term_len clipped to the padded text's end, and 0 past that end |
| `Scrolling.VisibleCellsShowProgress` | type_trainer.py:136-138 | a visible cell is green exactly when its character is typed or padding; the character to type next is drawn, plain, at the cursor's column when the cursor is on screen |
| `Prompt.Typed` | type_trainer.py:194-204 | the edited buffer always starts with ':' |
| `Prompt.ReadWord` | type_trainer.py:193-211 | stops at the first Escape or Enter, which is consumed but not included; returns the edited buffer without its ':' |
| `Prompt.PlainKeysAppend` | type_trainer.py:204 | plain one-character keys are appended in order behind the ':' |
| `Prompt.BackspaceRemovesLast` | type_trainer.py:200-202 | whenever the buffer holds more than ':', a backspace removes its last character, whatever keys came before (multi-character key names and earlier backspaces included) |
| `Prompt.BackspaceUndoes` | type_trainer.py:200-203 | a backspace right after a one-character key removes it |
| `Prompt.BackspaceOnBarePrompt` | type_trainer.py:200-204 | on a bare ':' the backspace key's own text is appended |

## Findings

| source | as written | input that shows it | evidently intended | confidence | as-written member | corrected member |
|---|---|---|---|---|---|---|
| type_trainer.py:137 | the window is `target_text[lborder:min(lborder + term_len, text_len)]`, with `text_len` the unpadded length, applied to the padded text; `Scrolling.AsWrittenHidesTail` bounds it for every input and `Scrolling.AsWrittenHidesFirstKey` gives the concrete case | term_len 10, text "abc": the first window is "   " while 'a' must be typed at column 9; for any text, the last term_len - 1 characters are never drawn | bound the slice by the padded length, so every character from the left border up to the terminal width is drawn | medium; not executed | `Scrolling.WindowAsWritten` | `Scrolling.Window` |

`Scrolling.VisibleCells`, the frame drawing used by the rest of the model,
uses the corrected `Scrolling.Window`.

## Left out

- Drawing itself (`addstr`, `erase`, `refresh`, `nodelay`, `curs_set`, colour-pair setup). The target drawn plain under the typing overlay (line 32) is not a cell list. The terminal width is a parameter.
- `time.time()`, symbols per minute (lines 65-66, 121) and the rounded elapsed time (lines 74, 140). They rely on floating point and Python's rounding. The panel takes spm and elapsed time as given integers. The division at line 121 has no floor at zero elapsed time; that is not modelled either.
- Scrolling.Step: shift timing is exact integer hundredths. The source compares floating-point seconds against `0.15 - d*0.1`, so a gap of exactly the interval may differ. The source also reads the clock again for `last_shift`; the model uses the frame's own time.
- The exception around `getkey` (lines 82-85, 144-147) becomes an optional key per frame.
- The Enter remap at lines 87-88 never fires, so it is not modelled.
- The blocking "press any key" read after a loss (line 131) is not modelled; the session is simply `Lost`.
- Typing.Run, Scrolling.RunLine and Prompt.ReadWord take a finite sequence of inputs. The source loops until the session ends; the model stops when the inputs run out.
- Menus and glue: `start_screen` recursion, `main`'s replay loop, random text generation, file loading and `int()` parsing of the difficulty (lines 7-28, 169-190, 214-225). These are I/O, randomness and UI glue. `Difficulty` takes the integer tier.
- A terminal narrower than one column is excluded (`termLen >= 1`). The screen size is always positive.
- Render.TypingCells: a multi-character key name is one cell that advances the column by one, as in the source; how the terminal lays out the longer text is not modelled.
