/** The one-line prompt used for the menu and difficulty choices: a buffer
    that starts with ':' and is edited key by key until Escape or Enter. */
module Prompt {
  import opened Keys

  /** Escape (27) or Enter (10), as a single-character key. */
  predicate IsTerminator(k: Key)
  {
    |k| == 1 && (k[0] == ESCAPE || k[0] == LINE_FEED)
  }

  /** One non-terminating key applied to the buffer. Backspace removes the
      last character only while something follows the ':'; otherwise the
      key's own text is appended, backspace included. */
  function Edit(buf: string, key: Key): string
  {
    if IsBackspace(key) && |buf| > 1 then buf[..|buf| - 1] else buf + key
  }

  /** The buffer after a sequence of non-terminating keys. */
  function Typed(keys: seq<Key>): (buf: string)
    ensures |buf| >= 1 && buf[0] == ':'
  {
    if keys == [] then ":" else Edit(Typed(keys[..|keys| - 1]), keys[|keys| - 1])
  }

  /** The prompt loop over the keys the terminal delivers. `done` says a
      terminator was met; `used` counts the keys consumed, the terminator
      included; `word` is the buffer without its ':'. */
  method ReadWord(keys: seq<Key>) returns (done: bool, word: string, used: nat)
    ensures used <= |keys|
    ensures done ==> 0 < used && IsTerminator(keys[used - 1])
    ensures !done ==> used == |keys|
    ensures var edited := if done then used - 1 else used;
      && (forall j :: 0 <= j < edited ==> !IsTerminator(keys[j]))
      && ":" + word == Typed(keys[..edited])
  {
    var result := ":";
    used := 0;
    done := false;
    while used < |keys| && !done
      invariant used <= |keys|
      invariant done ==> 0 < used && IsTerminator(keys[used - 1])
      invariant var edited := if done then used - 1 else used;
        && (forall j :: 0 <= j < edited ==> !IsTerminator(keys[j]))
        && result == Typed(keys[..edited])
    {
      var key := keys[used];
      used := used + 1;
      if IsTerminator(key) {
        done := true;
      } else {
        assert keys[..used][..used - 1] == keys[..used - 1];
        if IsBackspace(key) && |result| > 1 {
          result := result[..|result| - 1];
        } else {
          result := result + key;
        }
      }
    }
    word := result[1..];
  }

  /** Plain characters (no backspace, no terminator) are appended one after
      another behind the ':'. */
  lemma {:induction false} PlainKeysAppend(keys: seq<Key>, text: string)
    requires |keys| == |text|
    requires forall j :: 0 <= j < |keys| ==> keys[j] == [text[j]] && !IsBackspace(keys[j])
    ensures Typed(keys) == ":" + text
  {
    if keys != [] {
      var n := |keys| - 1;
      PlainKeysAppend(keys[..n], text[..n]);
      assert text == text[..n] + [text[n]];
    }
  }

  /** Whenever something follows the ':', a backspace removes the last
      character of the buffer. */
  lemma BackspaceRemovesLast(keys: seq<Key>, bs: Key)
    requires IsBackspace(bs) && |Typed(keys)| > 1
    ensures Typed(keys + [bs]) == Typed(keys)[..|Typed(keys)| - 1]
  {
    assert (keys + [bs])[..|keys|] == keys;
  }

  /** A backspace right after a one-character key takes that key back. */
  lemma BackspaceUndoes(keys: seq<Key>, k: Key, bs: Key)
    requires |k| == 1 && !IsBackspace(k) && IsBackspace(bs)
    ensures Typed(keys + [k, bs]) == Typed(keys)
  {
    assert (keys + [k, bs])[..|keys| + 1] == keys + [k];
    assert (keys + [k])[..|keys|] == keys;
  }

  /** On a bare ':' a backspace has nothing to remove, so its own text is
      appended instead. */
  lemma BackspaceOnBarePrompt(keys: seq<Key>, bs: Key)
    requires Typed(keys) == ":" && IsBackspace(bs)
    ensures Typed(keys + [bs]) == ":" + bs
  {
  }

}
