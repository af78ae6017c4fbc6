/** The free-typing session: the user types a fixed target text; every key
    but Backspace and Escape is recorded, mismatches are counted, and the
    session ends once the recorded keys spell the target. */
module Typing {
  import opened Keys

  /** `Crashed` stands for the IndexError the session raises when a key is
      typed while the buffer already holds as many entries as the target. */
  datatype Status = Running | Completed | Aborted | Crashed

  /** The loop's state: the keys recorded so far and the mistake counter. */
  datatype Session = Session(buffer: seq<Key>, mistakes: nat, status: Status)

  /** What the buffer spells: its entries concatenated. */
  function Join(entries: seq<Key>): string
  {
    if entries == [] then "" else Join(entries[..|entries| - 1]) + entries[|entries| - 1]
  }

  /** The state before the first frame. */
  function Start(): Session
  {
    Session([], 0, Running)
  }

  /** The buffer never holds more entries than the target has characters. */
  predicate Bounded(target: string, s: Session)
  {
    |s.buffer| <= |target|
  }

  /** One iteration of the loop. The completion check comes before the key
      is polled; `key` is what that poll returns. */
  function Step(target: string, s: Session, key: Option<Key>): (r: Session)
    ensures Bounded(target, s) ==> Bounded(target, r)
    ensures s.mistakes <= r.mistakes <= s.mistakes + 1
    ensures s.status != Running ==> r == s
    ensures r.status == Crashed && s.status == Running ==> |s.buffer| >= |target|
  {
    if s.status != Running then s
    else if Join(s.buffer) == target then s.(status := Completed)
    else match key
      case None => s
      case Some(k) =>
        if IsEscape(k) then s.(status := Aborted)
        else if IsBackspace(k) then
          (if |s.buffer| > 0 then s.(buffer := s.buffer[..|s.buffer| - 1]) else s)
        else if |s.buffer| >= |target| then s.(status := Crashed)
        else
          s.(buffer := s.buffer + [k],
             mistakes := if [target[|s.buffer|]] != k then s.mistakes + 1 else s.mistakes)
  }

  /** The state after a sequence of frames. */
  function Replay(target: string, s: Session, frames: seq<Option<Key>>): (r: Session)
    ensures Bounded(target, s) ==> Bounded(target, r)
    ensures s.mistakes <= r.mistakes <= s.mistakes + |frames|
    ensures s.status != Running ==> r == s
    decreases |frames|
  {
    if frames == [] then s else Replay(target, Step(target, s, frames[0]), frames[1..])
  }

  /** The session loop, fed a finite sequence of polls. It stops early when
      the session ends; otherwise it stops when the polls run out. */
  method Run(target: string, frames: seq<Option<Key>>) returns (s: Session)
    ensures s == Replay(target, Start(), frames)
    ensures |s.buffer| <= |target|
  {
    var buffer: seq<Key> := [];
    var mistakes: nat := 0;
    var status := Running;
    var i := 0;
    while i < |frames| && status == Running
      invariant 0 <= i <= |frames|
      invariant |buffer| <= |target|
      invariant Replay(target, Start(), frames) == Replay(target, Session(buffer, mistakes, status), frames[i..])
    {
      ghost var before := Session(buffer, mistakes, status);
      ReplayCons(target, before, frames[i], frames[i + 1..]);
      assert frames[i..] == [frames[i]] + frames[i + 1..];
      if Join(buffer) == target {
        status := Completed;
      } else if frames[i].Some? {
        var key := frames[i].value;
        if IsEscape(key) {
          status := Aborted;
        } else if IsBackspace(key) {
          if |buffer| > 0 {
            buffer := buffer[..|buffer| - 1];
          }
        } else if |buffer| >= |target| {
          status := Crashed;
        } else {
          if [target[|buffer|]] != key {
            mistakes := mistakes + 1;
          }
          buffer := buffer + [key];
        }
      }
      assert Session(buffer, mistakes, status) == Step(target, before, frames[i]);
      i := i + 1;
    }
    s := Session(buffer, mistakes, status);
  }

  /** Backspace drops exactly the last recorded key, or does nothing on an
      empty buffer; it never touches the mistake counter. */
  lemma BackspaceDropsLast(target: string, s: Session, k: Key)
    requires s.status == Running && Join(s.buffer) != target && IsBackspace(k)
    ensures var r := Step(target, s, Some(k));
      && r.status == Running
      && r.mistakes == s.mistakes
      && (s.buffer == [] ==> r.buffer == [])
      && (s.buffer != [] ==> r.buffer + [s.buffer[|s.buffer| - 1]] == s.buffer)
  {
  }

  /** Any other key is recorded whether or not it matches, and the counter
      rises by one exactly when it differs from the target's next character. */
  lemma KeyIsRecorded(target: string, s: Session, k: Key)
    requires s.status == Running && Join(s.buffer) != target
    requires !IsEscape(k) && !IsBackspace(k) && |s.buffer| < |target|
    ensures var r := Step(target, s, Some(k));
      && r.status == Running
      && r.buffer == s.buffer + [k]
      && (r.mistakes == s.mistakes + 1 <==> k != [target[|s.buffer|]])
      && (r.mistakes == s.mistakes <==> k == [target[|s.buffer|]])
  {
  }

  /** Once the buffer spells the target, the next frame completes the
      session without polling a key. */
  lemma CompletesBeforePolling(target: string, s: Session, key: Option<Key>)
    requires s.status == Running && Join(s.buffer) == target
    ensures Step(target, s, key) == s.(status := Completed)
  {
  }

  /** Escape ends the session with buffer and counter unchanged. */
  lemma EscapeAborts(target: string, s: Session, k: Key)
    requires s.status == Running && Join(s.buffer) != target && IsEscape(k)
    ensures Step(target, s, Some(k)) == s.(status := Aborted)
  {
  }

  /** With the buffer as long as the target but spelling something else,
      any key other than Escape or a backspace raises the IndexError. */
  lemma FullBufferCrashes(target: string, s: Session, k: Key)
    requires s.status == Running && Join(s.buffer) != target && |s.buffer| == |target|
    requires !IsEscape(k) && !IsBackspace(k)
    ensures Step(target, s, Some(k)) == s.(status := Crashed)
  {
  }

  /** The target typed as one-character keys. */
  function Chars(t: string): (keys: seq<Key>)
    ensures |keys| == |t|
  {
    seq(|t|, i requires 0 <= i < |t| => [t[i]])
  }

  lemma {:induction false} JoinChars(t: string)
    ensures Join(Chars(t)) == t
    decreases |t|
  {
    if t != [] {
      var n := |t| - 1;
      assert Chars(t)[..n] == Chars(t[..n]);
      JoinChars(t[..n]);
      assert t == t[..n] + [t[n]];
    }
  }

  /** Frames that deliver the target's characters one per frame. */
  function CharFrames(t: string): (frames: seq<Option<Key>>)
    ensures |frames| == |t|
  {
    seq(|t|, i requires 0 <= i < |t| => Some([t[i]]))
  }

  lemma {:induction false} TypingCorrectPrefix(target: string, k: nat)
    requires k <= |target|
    requires forall i :: 0 <= i < |target| ==> Typeable(target[i])
    ensures Replay(target, Session(Chars(target[..k]), 0, Running), CharFrames(target)[k..])
         == Session(Chars(target), 0, Running)
    decreases |target| - k
  {
    if k == |target| {
      assert target[..k] == target;
    } else {
      var s := Session(Chars(target[..k]), 0, Running);
      JoinChars(target[..k]);
      assert |Join(s.buffer)| == k;
      assert Chars(target[..k]) + [[target[k]]] == Chars(target[..k + 1]);
      assert Step(target, s, Some([target[k]])) == Session(Chars(target[..k + 1]), 0, Running);
      assert CharFrames(target)[k..][1..] == CharFrames(target)[k + 1..];
      TypingCorrectPrefix(target, k + 1);
    }
  }

  /** Typing the target without a slip completes the session with no
      mistakes (one frame after the last key, when the completion test at
      the top of the loop runs). */
  lemma {:induction false} TypingTargetCompletes(target: string, last: Option<Key>)
    requires forall i :: 0 <= i < |target| ==> Typeable(target[i])
    ensures Replay(target, Start(), CharFrames(target) + [last])
         == Session(Chars(target), 0, Completed)
  {
    var frames := CharFrames(target) + [last];
    assert target[..0] == [];
    assert Chars(target[..0]) == [];
    TypingCorrectPrefix(target, 0);
    assert frames[..|target|] == CharFrames(target) && frames[|target|..] == [last];
    ReplaySplit(target, Start(), frames, |target|);
    JoinChars(target);
  }

  lemma {:induction false} ReplaySplit(target: string, s: Session, frames: seq<Option<Key>>, n: nat)
    requires n <= |frames|
    ensures Replay(target, s, frames) == Replay(target, Replay(target, s, frames[..n]), frames[n..])
    decreases n
  {
    if n > 0 {
      assert frames[..n][1..] == frames[1..][..n - 1];
      assert frames[n..] == frames[1..][n - 1..];
      ReplaySplit(target, Step(target, s, frames[0]), frames[1..], n - 1);
    }
  }

  /** A three-character target typed right, wrong, right (one-character
      keys; "abc" typed as a, x, c, say): the slip is counted once and the
      session keeps running, since the buffer does not spell the target. */
  lemma MistakeScenario(t: string, a: Key, x: Key, c: Key)
    requires |t| == 3 && a == [t[0]] && c == [t[2]] && |x| == 1 && x != [t[1]]
    requires Typeable(t[0]) && Typeable(x[0]) && Typeable(t[2])
    ensures Replay(t, Start(), [Some(a), Some(x), Some(c)]) == Session([a, x, c], 1, Running)
  {
    var s1, s2, s3 := Session([a], 0, Running), Session([a, x], 1, Running), Session([a, x, c], 1, Running);
    assert Step(t, Start(), Some(a)) == s1 by {
      assert Join([]) == "";
    }
    assert Step(t, s1, Some(x)) == s2 by {
      assert [a][..0] == [];
      assert |Join([a])| == 1;
    }
    assert Step(t, s2, Some(c)) == s3 by {
      assert [a, x][..1] == [a] && [a][..0] == [];
      assert |Join([a, x])| == 2;
    }
    ReplayCons(t, s2, Some(c), []);
    ReplayCons(t, s1, Some(x), [Some(c)]);
    ReplayCons(t, Start(), Some(a), [Some(x), Some(c)]);
  }

  lemma ReplayCons(target: string, s: Session, f: Option<Key>, rest: seq<Option<Key>>)
    ensures Replay(target, s, [f] + rest) == Replay(target, Step(target, s, f), rest)
  {
    assert ([f] + rest)[1..] == rest;
  }

  /** Backspacing over a slip leaves it counted. */
  lemma SlipStaysCounted(target: string, s: Session, k: Key, bs: Key)
    requires s.status == Running && Join(s.buffer) != target && |s.buffer| < |target|
    requires !IsEscape(k) && !IsBackspace(k) && k != [target[|s.buffer|]]
    requires IsBackspace(bs)
    requires Join(s.buffer + [k]) != target
    ensures var r := Step(target, Step(target, s, Some(k)), Some(bs));
      r.buffer == s.buffer && r.mistakes == s.mistakes + 1
  {
  }

  /** With the buffer full but wrong, one more key raises the IndexError:
      a two-character target typed right, wrong, then any key that is not
      Escape or a backspace ("ab" typed as a, x, c, say). */
  lemma OverfullCrashes(t: string, a: Key, x: Key, c: Key)
    requires |t| == 2 && a == [t[0]] && |x| == 1 && x != [t[1]]
    requires Typeable(t[0]) && Typeable(x[0]) && !IsEscape(c) && !IsBackspace(c)
    ensures Replay(t, Start(), [Some(a), Some(x), Some(c)]) == Session([a, x], 1, Crashed)
  {
    var s1, s2 := Session([a], 0, Running), Session([a, x], 1, Running);
    assert Step(t, Start(), Some(a)) == s1 by {
      assert Join([]) == "";
    }
    assert Step(t, s1, Some(x)) == s2 by {
      assert [a][..0] == [];
      assert |Join([a])| == 1;
    }
    assert Step(t, s2, Some(c)) == s2.(status := Crashed) by {
      assert [a, x][..1] == [a] && [a][..0] == [];
      assert Join([a, x]) == a + x;
      assert a + x != t;
    }
    ReplayCons(t, s2, Some(c), []);
    ReplayCons(t, s1, Some(x), [Some(c)]);
    ReplayCons(t, Start(), Some(a), [Some(x), Some(c)]);
  }
}
