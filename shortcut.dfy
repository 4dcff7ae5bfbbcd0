/**
 * The keyboard filter of the per-control keydown listener
 * (`setupKeyboardShortcuts`): a key event activates the control when Alt is
 * held and the key, lowered, is "s".
 */
module Shortcut {

  /** Lower-cases one character; only the letters A to Z are mapped. */
  function LowerChar(c: char): char
  {
    if 'A' <= c <= 'Z' then (c as int - 'A' as int + 'a' as int) as char else c
  }

  /** `String.prototype.toLowerCase` restricted to A to Z. */
  function ToLower(s: string): string
  {
    seq(|s|, i requires 0 <= i < |s| => LowerChar(s[i]))
  }

  /** `e.altKey && e.key.toLowerCase() === 's'`: exactly Alt+s and Alt+S. */
  function IsSelectShortcut(altKey: bool, key: string): (r: bool)
    ensures r <==> altKey && (key == "s" || key == "S")
  {
    altKey && ToLower(key) == "s"
  }
}
