/*******************************************************************************
 *  One call of `TemplateApp::update`, seen from the text widget: the buffer
 *  is laid out, the frame's batch is applied to the buffer, and the layout is
 *  drawn. Geometry, colours and the surrounding panels are not modelled; the
 *  drawn output is the layouter's job.
 *******************************************************************************/
module Frame {
  import opened Events
  import opened Editor
  import opened Layouter

  /** The state after a frame and the sections drawn during it. */
  datatype Output = Output(app: App, drawn: seq<Segment>)

  /** `update` as written: the galley is built from the text before the
      batch is applied, and that galley is what gets drawn. */
  function UpdateAsWritten(app: App, focused: bool, events: seq<Event>): (o: Output)
    ensures o.app == Update(app, focused, events)
    ensures o.drawn == Segments(app.text)
    // the drawn text is the text from before the batch
    ensures Render(o.drawn) == app.text
  {
    var job := Segments(app.text);
    Output(Update(app, focused, events), job)
  }

  /** Typing one letter into a fresh, focused editor: the frame draws the
      empty text while the buffer already holds the letter. */
  lemma StaleFrame()
    ensures var o := UpdateAsWritten(Default(), true, [Text("a")]);
      o.app.text == "a" && Render(o.drawn) == "" && Render(o.drawn) != o.app.text
  {
    var o := UpdateAsWritten(Default(), true, [Text("a")]);
    assert Insertable("a");
    assert Fold("", [Text("a")]) == Fold("a", []);
  }

  /** `update` with the layout built after the batch: the frame draws the
      text it leaves in the buffer. */
  function UpdateCorrected(app: App, focused: bool, events: seq<Event>): (o: Output)
    ensures o.app == Update(app, focused, events)
    ensures o.drawn == Segments(o.app.text)
    ensures Render(o.drawn) == o.app.text
    ensures |o.drawn| == 2 * Count(o.app.text, ' ') + 1
  {
    var next := Update(app, focused, events);
    Output(next, Segments(next.text))
  }

  /** When a frame leaves the buffer unchanged (no focus, or no effective
      edit), both orderings draw the same text. */
  lemma AgreeWithoutEdits(app: App, focused: bool, events: seq<Event>)
    requires Update(app, focused, events) == app
    ensures UpdateAsWritten(app, focused, events) == UpdateCorrected(app, focused, events)
  {
  }
}
