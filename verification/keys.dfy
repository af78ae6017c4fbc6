/** Keys as the terminal library reports them; shared by both training modes
    and by the prompt line. */
module Keys {

  /** One poll of the terminal: a key, or nothing when no key was waiting
      (the terminal library signals that case by raising an exception). */
  datatype Option<+T> = None | Some(value: T)

  /** A key as `getkey` returns it: a one-character string for an ordinary
      or control key, a name such as "KEY_BACKSPACE" for a special key. */
  type Key = string

  const ESCAPE: char := 27 as char
  const LINE_FEED: char := 10 as char

  /** A single-character key whose code is 27. */
  predicate IsEscape(k: Key)
  {
    |k| == 1 && k[0] == ESCAPE
  }

  /** The three spellings of backspace the trainer recognises. */
  predicate IsBackspace(k: Key)
  {
    k == "KEY_BACKSPACE" || k == [8 as char] || k == [127 as char]
  }

  /** A character that, typed as a key, is neither Escape nor a backspace. */
  predicate Typeable(c: char)
  {
    !IsEscape([c]) && !IsBackspace([c])
  }
}
