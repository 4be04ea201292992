/** `useKeyboardShortcuts`: a key press becomes a combination string
    (modifier prefixes in a fixed order, then the key's name) and runs the
    handler registered under exactly that string. Whether the platform is a
    Mac is a parameter. */
module Keyboard {
  import opened Wrappers
  import opened Strings

  /** The parts of a `keydown` event the hook reads. */
  datatype KeyEvent = KeyEvent(key: string, ctrlKey: bool, metaKey: bool, shiftKey: bool, altKey: bool)

  /** `e.key`, with the space bar named 'Space'. */
  function KeyName(key: string): (r: string)
    ensures key == " " ==> r == "Space"
    ensures key != " " ==> r == key
  {
    if key == " " then "Space" else key
  }

  /** The combination string for the modifiers held and the key name:
      'Ctrl+', 'Shift+' and 'Alt+' in that order, each only when held. */
  function ComboOf(ctrl: bool, shift: bool, alt: bool, name: string): string {
    (if ctrl then "Ctrl+" else "") + (if shift then "Shift+" else "") + (if alt then "Alt+" else "") + name
  }

  /** The hook's combination string for an event: "Ctrl" is the command key
      on a Mac and the control key elsewhere. */
  function Combo(e: KeyEvent, isMac: bool): (r: string)
    ensures r == ComboOf(if isMac then e.metaKey else e.ctrlKey, e.shiftKey, e.altKey, KeyName(e.key))
  {
    var ctrl := if isMac then e.metaKey else e.ctrlKey;
    var key := (if ctrl then "Ctrl+" else "") + (if e.shiftKey then "Shift+" else "") + (if e.altKey then "Alt+" else "");
    key + KeyName(e.key)
  }

  /** A key name that does not itself begin with a modifier prefix. */
  predicate PlainName(name: string) {
    !StartsWith(name, "Ctrl+") && !StartsWith(name, "Shift+") && !StartsWith(name, "Alt+")
  }

  /** `s` without `p` in front, when it starts with `p`. */
  function DropPrefix(s: string, p: string): (r: (bool, string))
    ensures r.0 <==> StartsWith(s, p)
    ensures r.0 ==> s == p + r.1
    ensures !r.0 ==> r.1 == s
  {
    if StartsWith(s, p) then
      assert s == p + s[|p|..];
      (true, s[|p|..])
    else (false, s)
  }

  /** Reads a combination string back into the modifiers and the key name. */
  function ParseCombo(s: string): (bool, bool, bool, string) {
    var (ctrl, a) := DropPrefix(s, "Ctrl+");
    var (shift, b) := DropPrefix(a, "Shift+");
    var (alt, c) := DropPrefix(b, "Alt+");
    (ctrl, shift, alt, c)
  }

  /** A prefix read off the front of `p + rest` leaves `rest`. */
  lemma DropOwnPrefix(p: string, rest: string)
    ensures DropPrefix(p + rest, p) == (true, rest)
  {
    assert (p + rest)[..|p|] == p;
    assert (p + rest)[|p|..] == rest;
  }

  /** `p + rest` when the modifier is held, `rest` otherwise. */
  function Prefixed(held: bool, p: string, rest: string): string {
    if held then p + rest else rest
  }

  /** A combination string is the three optional prefixes nested around the
      key name. */
  lemma ComboOfNested(ctrl: bool, shift: bool, alt: bool, name: string)
    ensures ComboOf(ctrl, shift, alt, name)
         == Prefixed(ctrl, "Ctrl+", Prefixed(shift, "Shift+", Prefixed(alt, "Alt+", name)))
  {
    var a := if ctrl then "Ctrl+" else "";
    var b := if shift then "Shift+" else "";
    var c := if alt then "Alt+" else "";
    assert a + b + c + name == a + (b + (c + name));
  }

  /** One stage of the parse: an optional prefix is read back exactly when
      the rest cannot be mistaken for it. */
  lemma DropPrefixed(held: bool, p: string, rest: string)
    requires held || !StartsWith(rest, p)
    ensures DropPrefix(Prefixed(held, p, rest), p) == (held, rest)
  {
    if held {
      DropOwnPrefix(p, rest);
    }
  }

  /** Combination strings read back: the string determines which modifiers
      were held and the key name, for any name that does not begin with a
      modifier prefix. */
  lemma ParseComboRoundTrip(ctrl: bool, shift: bool, alt: bool, name: string)
    requires PlainName(name)
    ensures ParseCombo(ComboOf(ctrl, shift, alt, name)) == (ctrl, shift, alt, name)
  {
    var afterShift := Prefixed(alt, "Alt+", name);
    var afterCtrl := Prefixed(shift, "Shift+", afterShift);
    ComboOfNested(ctrl, shift, alt, name);
    DropPrefixed(alt, "Alt+", name);
    if alt {
      assert afterShift[0] == 'A';
    }
    DropPrefixed(shift, "Shift+", afterShift);
    if shift {
      assert afterCtrl[0] == 'S';
    } else if alt {
      assert afterCtrl[0] == 'A';
    }
    DropPrefixed(ctrl, "Ctrl+", afterCtrl);
  }

  /** Two events give the same combination string only when they hold the
      same modifiers and name the same key. */
  lemma ComboInjective(a: (bool, bool, bool, string), b: (bool, bool, bool, string))
    requires PlainName(a.3) && PlainName(b.3)
    requires ComboOf(a.0, a.1, a.2, a.3) == ComboOf(b.0, b.1, b.2, b.3)
    ensures a == b
  {
    ParseComboRoundTrip(a.0, a.1, a.2, a.3);
    ParseComboRoundTrip(b.0, b.1, b.2, b.3);
  }

  /** What a key press does: nothing, or `preventDefault` followed by the
      handler registered for its combination. */
  datatype KeyOutcome<H> = Ignored | Handled(handler: H)

  /** The listener: when the hook is disabled none is registered, so nothing
      happens; otherwise the handler for the exact combination runs. */
  function OnKeyDown<H>(shortcuts: map<string, H>, enabled: bool, isMac: bool, e: KeyEvent): (r: KeyOutcome<H>)
    ensures !enabled ==> r.Ignored?
    ensures enabled ==> (r.Handled? <==> Combo(e, isMac) in shortcuts)
    ensures r.Handled? ==> r.handler == shortcuts[Combo(e, isMac)]
  {
    if !enabled then Ignored
    else
      var key := Combo(e, isMac);
      if key in shortcuts then Handled(shortcuts[key]) else Ignored
  }

  /** Ctrl+n is the control key with 'n' elsewhere and the command key with
      'n' on a Mac; holding Shift as well makes it a different combination. */
  lemma CtrlNExamples()
    ensures Combo(KeyEvent("n", true, false, false, false), false) == "Ctrl+n"
    ensures Combo(KeyEvent("n", false, true, false, false), true) == "Ctrl+n"
    ensures Combo(KeyEvent("n", true, false, false, false), true) == "n"
    ensures Combo(KeyEvent("n", true, false, true, false), false) == "Ctrl+Shift+n"
    ensures Combo(KeyEvent(" ", false, false, false, true), false) == "Alt+Space"
  {
  }
}
