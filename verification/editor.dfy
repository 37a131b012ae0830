/*******************************************************************************
 *  The editing core of egui-edit's `TemplateApp`.
 *
 *  The application state is one text buffer. While the text widget has focus,
 *  each event of the frame's batch is applied to the buffer in arrival order.
 *  Text only ever grows at its end (typed text, Tab, Enter) or loses its last
 *  Unicode scalar value (Backspace); there is no cursor and no selection.
 *
 *  `string` is `seq<char>` and a Dafny `char` is a Unicode scalar value, which
 *  is exactly what Rust's `String::pop` removes.
 *******************************************************************************/
module Editor {
  import opened Events
  import opened Seqs

  /** The application state: the edited text. */
  datatype App = App(text: string)

  /** The state the application starts from: an empty buffer. */
  function Default(): (a: App)
    ensures |a.text| == 0
  {
    App("")
  }

  /** A text event's payload is inserted unless it is empty or a bare line
      break; line breaks arrive separately as Enter key events. */
  predicate Insertable(s: string) {
    |s| > 0 && s != "\n" && s != "\r"
  }

  /** `String::pop`: removes the last character, if there is one. */
  function Pop(text: string): (r: string)
    ensures |text| == 0 ==> r == text
    ensures |text| > 0 ==> r + [text[|text| - 1]] == text
  {
    if |text| == 0 then text else text[..|text| - 1]
  }

  /** The effect of one event on the buffer of a focused widget. */
  function Apply(text: string, e: Event): (r: string)
    // edits happen only at the end: the buffer grows, or loses one character
    ensures text <= r || (|text| > 0 && |r| == |text| - 1 && r <= text)
    ensures e.Text? && Insertable(e.payload) ==> r == text + e.payload && r[..|text|] == text
    ensures e.Text? && !Insertable(e.payload) ==> r == text
    ensures IsPress(e, Tab) ==> |r| == |text| + 1 && r[..|text|] == text && r[|text|] == '\t'
    ensures IsPress(e, Enter) ==> |r| == |text| + 1 && r[..|text|] == text && r[|text|] == '\n'
    ensures IsPress(e, Backspace) ==> |r| == (if |text| == 0 then 0 else |text| - 1) && r <= text
    ensures !e.Text? && !IsPress(e, Tab) && !IsPress(e, Enter) && !IsPress(e, Backspace) ==> r == text
  {
    match e
    case Text(s) => if Insertable(s) then text + s else text
    case KeyEvent(Tab, true, _, _) => text + "\t"
    case KeyEvent(Enter, true, _, _) => text + "\n"
    case KeyEvent(Backspace, true, _, _) => Pop(text)
    case _ => text
  }

  /** Applies a batch left to right, one event at a time. */
  function Fold(text: string, events: seq<Event>): string
    decreases |events|
  {
    if |events| == 0 then text else Fold(Apply(text, events[0]), events[1..])
  }

  /** One frame of `update`: the batch is applied only when the widget has focus. */
  function Update(app: App, focused: bool, events: seq<Event>): (r: App)
    ensures !focused ==> r == app
    ensures focused && |events| == 0 ==> r == app
    ensures focused && |events| > 0 ==>
      r.text == Apply(Fold(app.text, events[..|events| - 1]), events[|events| - 1])
  {
    if focused then
      if |events| > 0 then
        FoldSnoc(app.text, events[..|events| - 1], events[|events| - 1]);
        InitLast(events);
        App(Fold(app.text, events))
      else
        App(app.text)
    else
      app
  }

  /** The body of the frame's event loop: one in-place edit of the buffer. */
  method ApplyInPlace(text: string, e: Event) returns (r: string)
    ensures r == Apply(text, e)
  {
    r := text;
    match e
    case Text(s) =>
      if |s| > 0 && s != "\n" && s != "\r" {
        r := r + s;
      }
    case KeyEvent(Tab, true, _, _) =>
      r := r + "\t";
    case KeyEvent(Enter, true, _, _) =>
      r := r + "\n";
    case KeyEvent(Backspace, true, _, _) =>
      if |r| > 0 {
        r := r[..|r| - 1];
      }
    case _ =>
  }

  /** The frame's event loop over the batch. */
  method RunFrame(app: App, focused: bool, events: seq<Event>) returns (r: App)
    ensures r == Update(app, focused, events)
  {
    var text := app.text;
    if focused {
      for i := 0 to |events|
        invariant text == Fold(app.text, events[..i])
      {
        FoldSnoc(app.text, events[..i], events[i]);
        TakeNext(events, i);
        text := ApplyInPlace(text, events[i]);
      }
      TakeAll(events);
    }
    r := App(text);
  }

  // ---------------------------------------------------------------------------
  // Properties of a batch
  // ---------------------------------------------------------------------------

  /** Applying `events + [e]` is applying `events`, then `e`. */
  lemma {:induction false} FoldSnoc(text: string, events: seq<Event>, e: Event)
    ensures Fold(text, events + [e]) == Apply(Fold(text, events), e)
    decreases |events|
  {
    if |events| == 0 {
      AppendEmpty([e], events);
    } else {
      TailAppend(events, [e]);
      FoldSnoc(Apply(text, events[0]), events[1..], e);
    }
  }

  /** Two batches in a row are one batch: the fold is a monoid action. */
  lemma {:induction false} FoldConcat(text: string, a: seq<Event>, b: seq<Event>)
    ensures Fold(text, a + b) == Fold(Fold(text, a), b)
    decreases |a|
  {
    if |a| > 0 {
      TailAppend(a, b);
      FoldConcat(Apply(text, a[0]), a[1..], b);
    } else {
      AppendEmpty(b, a);
    }
  }

  /** What an event appends to the buffer; Backspace appends nothing. */
  function Inserted(e: Event): string {
    if e.Text? && Insertable(e.payload) then e.payload
    else if IsPress(e, Tab) then "\t"
    else if IsPress(e, Enter) then "\n"
    else ""
  }

  /** Everything a batch appends, in order. */
  function InsertedAll(events: seq<Event>): string
    decreases |events|
  {
    if |events| == 0 then "" else Inserted(events[0]) + InsertedAll(events[1..])
  }

  /** Every event but a Backspace press appends what it inserts. */
  lemma ApplyAppends(text: string, e: Event)
    requires !IsPress(e, Backspace)
    ensures Apply(text, e) == text + Inserted(e)
  {
  }

  /** A batch without Backspace presses only appends: the result is the old
      buffer followed by every inserted payload, in arrival order. */
  lemma {:induction false} AppendOnlyBatch(text: string, events: seq<Event>)
    requires forall k :: 0 <= k < |events| ==> !IsPress(events[k], Backspace)
    ensures Fold(text, events) == text + InsertedAll(events)
    decreases |events|
  {
    if |events| > 0 {
      var e := events[0];
      assert !IsPress(e, Backspace);
      ApplyAppends(text, e);
      AppendOnlyBatch(text + Inserted(e), events[1..]);
      Assoc(text, Inserted(e), InsertedAll(events[1..]));
    }
  }

  /** `n` plain Backspace presses. */
  function Backspaces(n: nat): (es: seq<Event>)
    ensures |es| == n
    ensures forall k :: 0 <= k < n ==> IsPress(es[k], Backspace)
  {
    seq(n, _ => BackspacePress())
  }

  /** A batch of Backspace presses (any modifiers, repeated or not) removes
      its length in characters from the end, and empties the buffer when
      there are not that many. */
  lemma {:induction false} EraseLast(text: string, events: seq<Event>)
    requires forall k :: 0 <= k < |events| ==> IsPress(events[k], Backspace)
    ensures Fold(text, events) == text[..if |events| <= |text| then |text| - |events| else 0]
    decreases |events|
  {
    if |events| > 0 {
      EraseLast(Pop(text), events[1..]);
    } else {
      TakeAll(text);
    }
  }

  /** Typing a payload and pressing Backspace once per character restores the buffer. */
  lemma TypeThenErase(text: string, s: string)
    requires Insertable(s)
    ensures Fold(text, [Text(s)] + Backspaces(|s|)) == text
  {
    FoldConcat(text, [Text(s)], Backspaces(|s|));
    assert Fold(text, [Text(s)]) == text + s;
    EraseLast(text + s, Backspaces(|s|));
    assert (text + s)[..|text|] == text;
  }

  /** Each event removes at most the last character, so every character more
      than `|events|` places from the end survives the batch, in place. */
  lemma {:induction false} KeepsPrefix(text: string, events: seq<Event>)
    requires |events| <= |text|
    ensures text[..|text| - |events|] <= Fold(text, events)
    ensures |Fold(text, events)| >= |text| - |events|
    decreases |events|
  {
    if |events| > 0 {
      var t1 := Apply(text, events[0]);
      var n := |events|;
      KeepsPrefix(t1, events[1..]);
      assert t1[..|t1| - (n - 1)] <= Fold(t1, events[1..]);
      if text <= t1 {
        assert text[..|text| - n] <= t1[..|t1| - (n - 1)];
      } else {
        assert t1[..|t1| - (n - 1)] == text[..|text| - n];
      }
    }
  }

  /** On a fresh application, a batch of text events (what a focused frame
      applies) produces exactly the insertable payloads, concatenated. */
  lemma FreshTyping(events: seq<Event>)
    requires forall k :: 0 <= k < |events| ==> events[k].Text?
    ensures Fold(Default().text, events) == InsertedAll(events)
  {
    AppendOnlyBatch("", events);
    AppendEmpty(InsertedAll(events), "");
  }
}
