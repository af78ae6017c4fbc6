/** The running-line session: the text scrolls in from the right edge of the
    terminal; each correct key pushes the cursor right, each shift tick
    pulls it one column left, and the session is lost when it reaches the
    left edge. Time is measured in hundredths of a second. */
module Scrolling {
  import opened Keys
  import Render

  /** `Crashed` stands for the IndexError raised when a one-character key
      arrives after the whole text has been typed. */
  datatype Status = Running | Lost | Aborted | Crashed

  /** `lborder` is how far the visible window has moved into the padded
      text, `cursor` the column of the next character to type, `symbs` the
      number of characters typed, `lastShift` the time of the last shift. */
  datatype Line = Line(lborder: nat, cursor: nat, symbs: nat, lastShift: int, status: Status)

  /** One frame's input: the time at which it runs and what the key poll
      returned. */
  datatype Tick = Tick(now: int, key: Option<Key>)

  /** The difficulty chosen by tier: 1 is easy, 2 medium, 3 hard. */
  function Difficulty(tier: int): (d: int)
    ensures d <= 1
    ensures tier <= 3 ==> d == tier - 2
    ensures tier >= 3 ==> d == 1
  {
    if tier - 2 < 1 then tier - 2 else 1
  }

  /** The time between shifts: 0.15 s less 0.1 s per difficulty step. */
  function ShiftInterval(d: int): int
  {
    15 - 10 * d
  }

  /** Whatever the tier, shifts come at least 0.05 s apart; a harder tier
      never shifts more slowly. */
  lemma IntervalBounds(tier: int, harder: int)
    requires tier <= harder
    ensures ShiftInterval(Difficulty(tier)) >= 5
    ensures ShiftInterval(Difficulty(tier)) >= ShiftInterval(Difficulty(harder))
    ensures ShiftInterval(Difficulty(1)) == 25 && ShiftInterval(Difficulty(2)) == 15
         && ShiftInterval(Difficulty(3)) == 5
  {
  }

  /** The text with `termLen - 1` spaces in front, so that it starts at
      the right edge. */
  function Padded(text: string, termLen: nat): (p: string)
    requires termLen >= 1
    ensures |p| == termLen - 1 + |text|
  {
    seq(termLen - 1, _ => ' ') + text
  }

  /** The padding is blank and the text follows it unchanged. */
  lemma PaddedAt(text: string, termLen: nat)
    requires termLen >= 1
    ensures forall i :: 0 <= i < termLen - 1 ==> Padded(text, termLen)[i] == ' '
    ensures forall j :: 0 <= j < |text| ==> Padded(text, termLen)[termLen - 1 + j] == text[j]
  {
  }

  /** The state before the first frame, started at time `t0`. */
  function Start(termLen: nat, t0: int): Line
    requires termLen >= 1
  {
    Line(0, termLen - 1, 0, t0, Running)
  }

  /** While running, the cursor sits over the next untyped character:
      window offset plus cursor is the padding plus what has been typed. */
  predicate Aligned(text: string, termLen: nat, s: Line)
  {
    && s.symbs <= |text|
    && (s.status == Running ==> s.lborder + s.cursor == termLen - 1 + s.symbs)
  }

  /** The shift part of a frame: when more than `interval` has passed since
      the last shift, the cursor moves one column left (not below 0) and
      the window one character right. */
  function Shift(s: Line, interval: int, now: int): Line
  {
    if now - s.lastShift > interval then
      s.(cursor := if s.cursor > 0 then s.cursor - 1 else 0, lborder := s.lborder + 1, lastShift := now)
    else s
  }

  /** The rest of a frame after the shift: lose at the left edge, otherwise
      handle the key the poll returned. */
  function AfterShift(text: string, termLen: nat, m: Line, key: Option<Key>): Line
    requires termLen >= 1
  {
    if m.cursor == 0 then m.(status := Lost)
    else match key
      case None => m
      case Some(k) =>
        if IsEscape(k) then m.(status := Aborted)
        else if |k| == 1 then
          var padded := Padded(text, termLen);
          if m.lborder + m.cursor >= |padded| then m.(status := Crashed)
          else if k == [padded[m.lborder + m.cursor]] then m.(symbs := m.symbs + 1, cursor := m.cursor + 1)
          else m
        else m
  }

  /** One iteration of the loop: shift if due, lose at the left edge, then
      handle the key the poll returned. */
  function Step(text: string, termLen: nat, interval: int, s: Line, t: Tick): (r: Line)
    requires termLen >= 1
    ensures Aligned(text, termLen, s) ==> Aligned(text, termLen, r)
    ensures s.lborder <= r.lborder && s.symbs <= r.symbs
    ensures s.status != Running ==> r == s
    ensures s.status == Running && r.status == Crashed && Aligned(text, termLen, s) ==> r.symbs == |text|
  {
    if s.status != Running then s
    else AfterShift(text, termLen, Shift(s, interval, t.now), t.key)
  }

  /** The state after a sequence of frames. */
  function Replay(text: string, termLen: nat, interval: int, s: Line, ticks: seq<Tick>): Line
    requires termLen >= 1
    decreases |ticks|
  {
    if ticks == [] then s
    else Replay(text, termLen, interval, Step(text, termLen, interval, s, ticks[0]), ticks[1..])
  }

  /** Over any number of frames alignment is kept, the window offset and the
      typed count never decrease, and a finished session stays as it is. */
  lemma {:induction false} ReplayPreserves(text: string, termLen: nat, interval: int, s: Line, ticks: seq<Tick>)
    requires termLen >= 1
    ensures var r := Replay(text, termLen, interval, s, ticks);
      && (Aligned(text, termLen, s) ==> Aligned(text, termLen, r))
      && s.lborder <= r.lborder && s.symbs <= r.symbs
      && (s.status != Running ==> r == s)
    decreases |ticks|
  {
    if ticks != [] {
      ReplayPreserves(text, termLen, interval, Step(text, termLen, interval, s, ticks[0]), ticks[1..]);
    }
  }

  /** The session loop at difficulty `d`, fed a finite sequence of frames.
      It stops early when the session ends; otherwise when the frames run
      out. */
  method RunLine(text: string, termLen: nat, d: int, t0: int, ticks: seq<Tick>) returns (s: Line)
    requires termLen >= 1
    ensures s == Replay(text, termLen, ShiftInterval(d), Start(termLen, t0), ticks)
    ensures Aligned(text, termLen, s)
  {
    var padded := Padded(text, termLen);
    var lborder: nat, symbs: nat, cursor: nat := 0, 0, termLen - 1;
    var lastShift := t0;
    var status := Running;
    ghost var interval := ShiftInterval(d);
    var i := 0;
    while i < |ticks| && status == Running
      invariant 0 <= i <= |ticks|
      invariant Replay(text, termLen, interval, Start(termLen, t0), ticks)
             == Replay(text, termLen, interval, Line(lborder, cursor, symbs, lastShift, status), ticks[i..])
    {
      ghost var before := Line(lborder, cursor, symbs, lastShift, status);
      ReplayUnfold(text, termLen, interval, before, ticks, i);
      var now := ticks[i].now;
      if now - lastShift > 15 - 10 * d {
        cursor := if cursor > 0 then cursor - 1 else 0;
        lborder := lborder + 1;
        lastShift := now;
      }
      ghost var m := Line(lborder, cursor, symbs, lastShift, status);
      assert m == Shift(before, interval, now);
      if cursor == 0 {
        status := Lost;
      } else if ticks[i].key.Some? {
        var key := ticks[i].key.value;
        if IsEscape(key) {
          status := Aborted;
        } else if |key| == 1 {
          if lborder + cursor >= |padded| {
            status := Crashed;
          } else if key == [padded[lborder + cursor]] {
            symbs := symbs + 1;
            cursor := cursor + 1;
          }
        }
      }
      assert Line(lborder, cursor, symbs, lastShift, status) == AfterShift(text, termLen, m, ticks[i].key);
      assert Line(lborder, cursor, symbs, lastShift, status) == Step(text, termLen, interval, before, ticks[i]);
      i := i + 1;
    }
    s := Line(lborder, cursor, symbs, lastShift, status);
    ReplayPreserves(text, termLen, interval, Start(termLen, t0), ticks);
    ReplayPreserves(text, termLen, interval, s, ticks[i..]);
  }

  lemma ReplayUnfold(text: string, termLen: nat, interval: int, s: Line, ticks: seq<Tick>, i: nat)
    requires termLen >= 1 && i < |ticks|
    ensures Replay(text, termLen, interval, s, ticks[i..])
         == Replay(text, termLen, interval, Step(text, termLen, interval, s, ticks[i]), ticks[i + 1..])
  {
  }

  /** A due shift moves the cursor to max(0, cursor - 1) and the window one
      character on; otherwise neither moves. */
  lemma ShiftMoves(s: Line, interval: int, now: int)
    ensures var m := Shift(s, interval, now);
      && (now - s.lastShift > interval ==>
            m.cursor == (if s.cursor > 0 then s.cursor - 1 else 0) && m.lborder == s.lborder + 1 && m.lastShift == now)
      && (now - s.lastShift <= interval ==> m == s)
  {
  }

  /** The session is lost exactly when the cursor is at column 0 after the
      shift, and then the key is not looked at. */
  lemma LostExactlyAtEdge(text: string, termLen: nat, interval: int, s: Line, t: Tick)
    requires termLen >= 1 && s.status == Running
    ensures var r := Step(text, termLen, interval, s, t);
      (r.status == Lost <==> Shift(s, interval, t.now).cursor == 0)
      && (r.status == Lost ==> r == Shift(s, interval, t.now).(status := Lost))
  {
  }

  /** While running and aligned, the character the player must type next is
      the text's next untyped character. */
  lemma ExpectsNextCharacter(text: string, termLen: nat, s: Line)
    requires termLen >= 1 && s.status == Running && Aligned(text, termLen, s)
    requires s.symbs < |text|
    ensures s.lborder + s.cursor < |Padded(text, termLen)|
    ensures Padded(text, termLen)[s.lborder + s.cursor] == text[s.symbs]
  {
  }

  /** A correct key adds one to both counters whether or not a shift was
      due; Escape aborts; any other key changes nothing beyond the shift. */
  lemma KeyEffect(text: string, termLen: nat, interval: int, s: Line, t: Tick)
    requires termLen >= 1 && s.status == Running && Aligned(text, termLen, s)
    requires t.key.Some?
    requires Shift(s, interval, t.now).cursor != 0
    requires Shift(s, interval, t.now).symbs < |text|
    ensures var m := Shift(s, interval, t.now);
      var r := Step(text, termLen, interval, s, t);
      && (!IsEscape(t.key.value) && t.key.value == [text[s.symbs]] ==> r == m.(symbs := m.symbs + 1, cursor := m.cursor + 1))
      && (IsEscape(t.key.value) ==> r == m.(status := Aborted))
      && (!IsEscape(t.key.value) && t.key.value != [text[s.symbs]] ==> r == m)
  {
  }

  /** Escape ends a running session at once, before or after a shift,
      unless that shift has just lost it. */
  lemma EscapeAborts(text: string, termLen: nat, interval: int, s: Line, now: int, k: Key)
    requires termLen >= 1 && s.status == Running && IsEscape(k)
    ensures var m := Shift(s, interval, now);
      Step(text, termLen, interval, s, Tick(now, Some(k)))
        == if m.cursor == 0 then m.(status := Lost) else m.(status := Aborted)
  {
  }

  /** A key that makes no progress: none at all, or, while characters
      remain, one that is neither Escape nor the character to type next. */
  predicate Misses(text: string, symbs: nat, key: Option<Key>)
  {
    key.None? || (symbs < |text| && !IsEscape(key.value) && key.value != [text[symbs]])
  }

  /** Every frame of `ticks` comes more than `interval` after the previous
      shift, and none of its keys makes progress. */
  predicate IdleShifts(text: string, interval: int, since: int, symbs: nat, ticks: seq<Tick>)
    decreases |ticks|
  {
    ticks != [] ==>
      && Misses(text, symbs, ticks[0].key)
      && ticks[0].now - since > interval
      && IdleShifts(text, interval, ticks[0].now, symbs, ticks[1..])
  }

  /** From an aligned running state with the cursor at column c, c frames
      that each shift and bring no correct key lose the session, c
      characters further on. */
  lemma {:induction false} IdleShiftsLose(text: string, termLen: nat, interval: int, s: Line, ticks: seq<Tick>)
    requires termLen >= 1 && s.status == Running && s.cursor >= 1 && Aligned(text, termLen, s)
    requires |ticks| == s.cursor && IdleShifts(text, interval, s.lastShift, s.symbs, ticks)
    ensures var r := Replay(text, termLen, interval, s, ticks);
      r.status == Lost && r.cursor == 0 && r.lborder == s.lborder + |ticks| && r.symbs == s.symbs
    decreases |ticks|
  {
    var shifted := Shift(s, interval, ticks[0].now);
    var m := Step(text, termLen, interval, s, ticks[0]);
    if s.cursor > 1 {
      if ticks[0].key.Some? {
        ExpectsNextCharacter(text, termLen, shifted);
      }
      assert m == shifted;
      IdleShiftsLose(text, termLen, interval, m, ticks[1..]);
    } else {
      assert m == shifted.(status := Lost);
    }
  }

  /** Started on a terminal `termLen` columns wide (at least 2), the session
      is lost after termLen - 1 shifting frames with no correct key. */
  lemma IdleStartLoses(text: string, termLen: nat, interval: int, t0: int, ticks: seq<Tick>)
    requires termLen >= 2
    requires |ticks| == termLen - 1 && IdleShifts(text, interval, t0, 0, ticks)
    ensures Replay(text, termLen, interval, Start(termLen, t0), ticks).status == Lost
  {
    IdleShiftsLose(text, termLen, interval, Start(termLen, t0), ticks);
  }

  /** Once the whole text is typed, a one-character key other than Escape
      raises the IndexError, unless the frame's shift has just lost the
      session. */
  lemma TypedOutCrashes(text: string, termLen: nat, interval: int, s: Line, t: Tick)
    requires termLen >= 1 && s.status == Running && Aligned(text, termLen, s) && s.symbs == |text|
    requires Shift(s, interval, t.now).cursor != 0
    requires t.key.Some? && |t.key.value| == 1 && !IsEscape(t.key.value)
    ensures Step(text, termLen, interval, s, t) == Shift(s, interval, t.now).(status := Crashed)
  {
  }

  /** Python's s[lo:hi] for non-negative bounds: empty when the bounds
      cross or start past the end, clipped to the end otherwise. */
  function Slice(s: string, lo: nat, hi: nat): (r: string)
    ensures |r| == if lo < hi && lo < |s| then (if hi < |s| then hi else |s|) - lo else 0
    ensures forall i :: 0 <= i < |r| ==> r[i] == s[lo + i]
  {
    if lo < hi && lo < |s| then s[lo..if hi < |s| then hi else |s|] else ""
  }

  /** The window as the loop slices it: the end is bounded by the length of
      the unpadded text although the slice is taken from the padded one. */
  function WindowAsWritten(text: string, termLen: nat, lborder: nat): (w: string)
    requires termLen >= 1
    ensures var hi := if lborder + termLen < |text| then lborder + termLen else |text|;
      |w| == if lborder < hi then hi - lborder else 0
    ensures forall i :: 0 <= i < |w| ==> w[i] == Padded(text, termLen)[lborder + i]
  {
    Slice(Padded(text, termLen), lborder, if lborder + termLen < |text| then lborder + termLen else |text|)
  }

  /** The as-written window never shows a padded position at or past the
      text's own length, so the last termLen - 1 characters of the text are
      never drawn. */
  lemma AsWrittenHidesTail(text: string, termLen: nat, lborder: nat)
    requires termLen >= 1
    ensures |WindowAsWritten(text, termLen, lborder)| <= if lborder < |text| then |text| - lborder else 0
  {
  }

  /** Text "abc" on a terminal 10 columns wide: the first window is three
      spaces, while the character to type, 'a', sits at column 9. */
  lemma AsWrittenHidesFirstKey()
    ensures WindowAsWritten("abc", 10, 0) == "   "
    ensures Padded("abc", 10)[0 + 9] == 'a'
  {
  }

  /** The window bounded by the padded text's length: every padded position
      from `lborder` up to a terminal's width is visible. */
  function Window(text: string, termLen: nat, lborder: nat): (w: string)
    requires termLen >= 1
    ensures forall i :: 0 <= i < termLen && lborder + i < |Padded(text, termLen)| ==>
              i < |w| && w[i] == Padded(text, termLen)[lborder + i]
    ensures |w| <= termLen
    ensures |w| == if lborder < |Padded(text, termLen)| then
                     (if termLen < |Padded(text, termLen)| - lborder then termLen else |Padded(text, termLen)| - lborder)
                   else 0
  {
    Slice(Padded(text, termLen), lborder, lborder + termLen)
  }

  /** What one running frame draws: the window, green left of the cursor. */
  function VisibleCells(text: string, termLen: nat, s: Line): seq<Render.Cell>
    requires termLen >= 1
  {
    Render.ScrollCells(Window(text, termLen, s.lborder), s.cursor)
  }

  /** With the corrected window, the character to type next is drawn at the
      cursor's column whenever the cursor is on screen, and a cell is green
      exactly when its character has been typed or is padding. */
  lemma VisibleCellsShowProgress(text: string, termLen: nat, s: Line)
    requires termLen >= 1 && s.status == Running && Aligned(text, termLen, s)
    ensures var cells := VisibleCells(text, termLen, s);
      forall i :: 0 <= i < |cells| ==>
        (cells[i].style == Render.Correct <==> s.lborder + i < termLen - 1 + s.symbs)
    ensures s.cursor < termLen && s.symbs < |text| ==>
      var cells := VisibleCells(text, termLen, s);
      s.cursor < |cells| && cells[s.cursor].text == [text[s.symbs]] && cells[s.cursor].style == Render.Plain
  {
  }
}
