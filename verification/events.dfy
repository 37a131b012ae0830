/*******************************************************************************
 *  Input events of the egui-edit text widget.
 *
 *  The widget reads one batch of events per frame, already passed through
 *  egui's event filter (horizontal and vertical arrows and Tab are kept for
 *  the widget). Only the shape of an event matters to the editor: its kind,
 *  and for a key event which key and whether it was pressed or released.
 *******************************************************************************/
module Events {

  /** Modifier keys held while a key event fires. The editor ignores them. */
  datatype Modifiers = Modifiers(alt: bool, ctrl: bool, shift: bool, macCmd: bool, command: bool)

  /** The keys the editor distinguishes, plus the rest of the keyboard. */
  datatype Key =
    | Tab
    | Enter
    | Backspace
    | Delete
    | Escape
    | ArrowLeft
    | ArrowRight
    | ArrowUp
    | ArrowDown
    | OtherKey(code: nat)

  /** One input event of a frame's batch. `Paste`, `Copy`, `Cut` and the
      pointer and focus events (`Other`) reach the widget but are not edits. */
  datatype Event =
    | Text(payload: string)
    | Paste(clipboard: string)
    | KeyEvent(key: Key, pressed: bool, repeat: bool, modifiers: Modifiers)
    | Copy
    | Cut
    | Other

  const NoModifiers: Modifiers := Modifiers(false, false, false, false, false)

  /** `e` is a press (not a release) of `k`, whatever the modifiers and repeat flag. */
  predicate IsPress(e: Event, k: Key) {
    e.KeyEvent? && e.key == k && e.pressed
  }

  /** A plain press of Backspace. */
  function BackspacePress(): (e: Event)
    ensures IsPress(e, Backspace)
  {
    KeyEvent(Backspace, true, false, NoModifiers)
  }
}
