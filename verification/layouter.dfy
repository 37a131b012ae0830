/*******************************************************************************
 *  The segmentation done by the text widget's layouter.
 *
 *  The layouter splits the text on the space character with the semantics of
 *  Rust's `str::split(' ')` (one piece more than there are spaces, empty
 *  pieces kept), appends each piece as a word section styled by the parity of
 *  its index, and appends a single " " section after every piece but the last.
 *  Colours and fonts are reduced to that parity; wrapping and galley geometry
 *  are left to the font system and not modelled.
 *******************************************************************************/
module Layouter {
  import opened Seqs

  /** A section of the layout job: a word with its style, or the separator. */
  datatype Segment = Word(text: string, even: bool) | Sep

  /** Number of occurrences of `c` in `s`. */
  function Count(s: string, c: char): nat
    decreases |s|
  {
    if |s| == 0 then 0
    else Count(s[..|s| - 1], c) + (if s[|s| - 1] == c then 1 else 0)
  }

  /** The pieces joined with a single space between neighbours. */
  function Join(pieces: seq<string>): string
    decreases |pieces|
  {
    if |pieces| == 0 then ""
    else if |pieces| == 1 then pieces[0]
    else Join(pieces[..|pieces| - 1]) + " " + pieces[|pieces| - 1]
  }

  /** Joining one more piece appends a space and the piece. */
  lemma JoinSnoc(pieces: seq<string>, w: string)
    requires |pieces| > 0
    ensures Join(pieces + [w]) == Join(pieces) + " " + w
  {
    SnocParts(pieces, w);
  }

  /** `text.split(' ')`: the maximal space-free pieces, empty ones included. */
  function Split(s: string): (r: seq<string>)
    ensures |r| == Count(s, ' ') + 1
    ensures forall k :: 0 <= k < |r| ==> ' ' !in r[k]
    ensures Join(r) == s
    decreases |s|
  {
    if |s| == 0 then [""]
    else
      var init := Split(s[..|s| - 1]);
      var c := s[|s| - 1];
      InitLast(s);
      if c == ' ' then
        JoinSnoc(init, "");
        init + [""]
      else
        SplitCharStep(init, c);
        init[..|init| - 1] + [init[|init| - 1] + [c]]
  }

  /** The step of `Split` for a character other than a space: it extends the
      last piece, keeps the pieces space-free and joins to one more character. */
  lemma SplitCharStep(init: seq<string>, c: char)
    requires |init| > 0
    requires c != ' '
    requires forall k :: 0 <= k < |init| ==> ' ' !in init[k]
    ensures var r := init[..|init| - 1] + [init[|init| - 1] + [c]];
      |r| == |init| && Join(r) == Join(init) + [c] &&
      forall k :: 0 <= k < |r| ==> ' ' !in r[k]
  {
    var m := |init|;
    var front := init[..m - 1];
    var last := init[m - 1];
    var r := front + [last + [c]];
    InitLast(init);
    SnocParts(front, last + [c]);
    if m == 1 {
      assert r == [last + [c]];
    } else {
      JoinSnoc(front, last);
      JoinSnoc(front, last + [c]);
      Assoc(Join(front) + " ", last, [c]);
    }
    forall k | 0 <= k < |r|
      ensures ' ' !in r[k]
    {
      if k < m - 1 {
        assert r[k] == init[k];
      } else {
        assert ' ' !in last;
      }
    }
  }

  /** The characters a section contributes to the laid-out text. */
  function Show(g: Segment): string {
    match g
    case Word(w, _) => w
    case Sep => " "
  }

  /** The laid-out text: the sections' characters, concatenated in order. */
  function Render(job: seq<Segment>): string
    decreases |job|
  {
    if |job| == 0 then "" else Render(job[..|job| - 1]) + Show(job[|job| - 1])
  }

  /** Rendering distributes over concatenation of jobs. */
  lemma {:induction false} RenderAppend(a: seq<Segment>, b: seq<Segment>)
    ensures Render(a + b) == Render(a) + Render(b)
    decreases |b|
  {
    if |b| == 0 {
      AppendEmpty(a, b);
      AppendEmpty(Render(a), Render(b));
    } else {
      var b' := b[..|b| - 1];
      var x := b[|b| - 1];
      InitAppend(a, b);
      RenderAppend(a, b');
      Assoc(Render(a), Render(b'), Show(x));
    }
  }

  /** The sections one iteration of the layouter's loop appends for piece
      `i`: the styled word, then a separator unless it is the last piece. */
  function Step(pieces: seq<string>, i: nat): seq<Segment>
    requires i < |pieces|
  {
    var word := Word(pieces[i], i % 2 == 0);
    if i != |pieces| - 1 then [word, Sep] else [word]
  }

  /** One iteration renders its piece and the pending separator. */
  lemma StepRender(pieces: seq<string>, i: nat)
    requires i < |pieces|
    ensures Render(Step(pieces, i)) == pieces[i] + (if i != |pieces| - 1 then " " else "")
  {
    var word := Word(pieces[i], i % 2 == 0);
    SnocParts([], word);
    assert Render([word]) == pieces[i];
    if i != |pieces| - 1 {
      SnocParts([word], Sep);
      assert Render([word, Sep]) == pieces[i] + " ";
    }
  }

  /** The sections appended by the first `k` iterations of the layouter's loop. */
  function JobPrefix(pieces: seq<string>, k: nat): seq<Segment>
    requires k <= |pieces|
    decreases k
  {
    if k == 0 then [] else JobPrefix(pieces, k - 1) + Step(pieces, k - 1)
  }

  /** Length of a job prefix: two sections per iteration, except that the
      last piece has no separator after it. */
  lemma {:induction false} JobPrefixLength(pieces: seq<string>, k: nat)
    requires k <= |pieces|
    ensures |JobPrefix(pieces, k)| == 2 * k - (if k == |pieces| && k > 0 then 1 else 0)
    decreases k
  {
    if k > 0 {
      JobPrefixLength(pieces, k - 1);
    }
  }

  /** Word `m` of a job prefix sits at position `2 * m`, styled by the parity of `m`. */
  lemma {:induction false} JobPrefixWords(pieces: seq<string>, k: nat)
    requires k <= |pieces|
    ensures |JobPrefix(pieces, k)| == 2 * k - (if k == |pieces| && k > 0 then 1 else 0)
    ensures forall m :: 0 <= m < k ==> JobPrefix(pieces, k)[2 * m] == Word(pieces[m], m % 2 == 0)
    decreases k
  {
    JobPrefixLength(pieces, k);
    if k > 0 {
      var i := k - 1;
      JobPrefixWords(pieces, i);
      JobPrefixLength(pieces, i);
      var pre := JobPrefix(pieces, i);
      var st := Step(pieces, i);
      var job := pre + st;
      forall m | 0 <= m < k
        ensures job[2 * m] == Word(pieces[m], m % 2 == 0)
      {
        if m < i {
          assert job[2 * m] == pre[2 * m];
        } else {
          assert job[2 * m] == st[0];
        }
      }
    }
  }

  /** Every odd position of a job prefix holds a separator. */
  lemma {:induction false} JobPrefixSeps(pieces: seq<string>, k: nat)
    requires k <= |pieces|
    ensures forall j :: 0 <= j < |JobPrefix(pieces, k)| && j % 2 == 1 ==> JobPrefix(pieces, k)[j] == Sep
    decreases k
  {
    if k > 0 {
      var i := k - 1;
      JobPrefixSeps(pieces, i);
      JobPrefixLength(pieces, i);
      var pre := JobPrefix(pieces, i);
      var st := Step(pieces, i);
      var job := pre + st;
      forall j | 0 <= j < |job| && j % 2 == 1
        ensures job[j] == Sep
      {
        if j < |pre| {
          assert job[j] == pre[j];
        } else {
          assert job[j] == st[1];
        }
      }
    }
  }

  /** A job prefix renders to the joined pieces, followed by the pending
      separator while pieces remain. */
  lemma {:induction false} JobPrefixRender(pieces: seq<string>, k: nat)
    requires 0 < k <= |pieces|
    ensures Render(JobPrefix(pieces, k)) == Join(pieces[..k]) + (if k < |pieces| then " " else "")
    decreases k
  {
    var i := k - 1;
    var tail: string := if k < |pieces| then " " else "";
    RenderAppend(JobPrefix(pieces, i), Step(pieces, i));
    StepRender(pieces, i);
    TakeNext(pieces, i);
    if i > 0 {
      JobPrefixRender(pieces, i);
      JoinSnoc(pieces[..i], pieces[i]);
      var J := Join(pieces[..i]);
      Assoc(J + " ", pieces[i], tail);
    } else {
      SnocParts([], pieces[0]);
      AppendEmpty(pieces[0] + tail, Render(JobPrefix(pieces, 0)));
    }
  }

  /** The complete job for a non-empty list of pieces. */
  lemma FullJob(pieces: seq<string>)
    requires |pieces| > 0
    ensures Render(JobPrefix(pieces, |pieces|)) == Join(pieces)
    ensures |JobPrefix(pieces, |pieces|)| == 2 * |pieces| - 1
    ensures forall m :: 0 <= m < |pieces| ==>
      JobPrefix(pieces, |pieces|)[2 * m] == Word(pieces[m], m % 2 == 0)
    ensures forall j :: 0 <= j < |JobPrefix(pieces, |pieces|)| && j % 2 == 1 ==>
      JobPrefix(pieces, |pieces|)[j] == Sep
  {
    var n := |pieces|;
    JobPrefixLength(pieces, n);
    JobPrefixWords(pieces, n);
    JobPrefixSeps(pieces, n);
    JobPrefixRender(pieces, n);
    TakeAll(pieces);
  }

  /** The sections the layouter appends for `text`. They reproduce the text
      exactly; there is one word per space-separated piece, empty pieces
      included; word `m` is piece `m` of the split, at position `2 * m`,
      styled even iff `m` is even; every odd position holds a separator, so
      the job starts and ends with a word. */
  function Segments(text: string): (job: seq<Segment>)
    ensures Render(job) == text
    ensures |job| == 2 * Count(text, ' ') + 1
    ensures forall m :: 0 <= m < |Split(text)| ==> job[2 * m] == Word(Split(text)[m], m % 2 == 0)
    ensures forall j :: 0 <= j < |job| && j % 2 == 1 ==> job[j] == Sep
  {
    var pieces := Split(text);
    FullJob(pieces);
    JobPrefix(pieces, |pieces|)
  }

  /** The layouter's loop: `for (i, word) in text.split(' ').enumerate()`. */
  method BuildJob(text: string) returns (job: seq<Segment>)
    ensures job == Segments(text)
    ensures Render(job) == text
  {
    var pieces := Split(text);
    job := [];
    for i := 0 to |pieces|
      invariant job == JobPrefix(pieces, i)
    {
      var word := Word(pieces[i], i % 2 == 0);
      job := job + [word];
      if i != |pieces| - 1 {
        Assoc(JobPrefix(pieces, i), [word], [Sep]);
        job := job + [Sep];
      }
    }
  }

  // ---------------------------------------------------------------------------
  // Split is the inverse of Join
  // ---------------------------------------------------------------------------

  /** Appending a character other than a space extends the last piece. */
  lemma SplitChar(x: string, c: char)
    requires c != ' '
    ensures Split(x + [c]) == Split(x)[..|Split(x)| - 1] + [Split(x)[|Split(x)| - 1] + [c]]
  {
    SnocParts(x, c);
  }

  /** Appending a space starts a new, empty piece. */
  lemma SplitSpace(x: string)
    ensures Split(x + " ") == Split(x) + [""]
  {
    SnocParts(x, ' ');
  }

  /** Appending space-free characters extends the last piece. */
  lemma {:induction false} SplitExtend(x: string, w: string)
    requires ' ' !in w
    ensures Split(x + w) == Split(x)[..|Split(x)| - 1] + [Split(x)[|Split(x)| - 1] + w]
    decreases |w|
  {
    var p := Split(x);
    var m := |p|;
    var front := p[..m - 1];
    var last := p[m - 1];
    if |w| == 0 {
      AppendEmpty(x, w);
      AppendEmpty(last, w);
      InitLast(p);
    } else {
      var v := w[..|w| - 1];
      var c := w[|w| - 1];
      InitLast(w);
      assert c != ' ' by { assert w[|w| - 1] in w; }
      assert ' ' !in v by { assert forall t :: t in v ==> t in w; }
      SplitExtend(x, v);
      var q := Split(x + v);
      assert q == front + [last + v];
      Assoc(x, v, [c]);
      SplitChar(x + v, c);
      SnocParts(front, last + v);
      Assoc(last, v, [c]);
    }
  }

  /** Joining one more space-free piece adds it to the split. */
  lemma SplitJoinStep(init: seq<string>, w: string)
    requires |init| > 0
    requires ' ' !in w
    requires Split(Join(init)) == init
    ensures Split(Join(init + [w])) == init + [w]
  {
    var x := Join(init) + " ";
    SplitSpace(Join(init));
    SplitExtend(x, w);
    SnocParts(init, "");
    AppendEmpty(w, "");
    JoinSnoc(init, w);
  }

  /** Splitting joined space-free pieces gives the pieces back. */
  lemma {:induction false} SplitJoin(pieces: seq<string>)
    requires |pieces| > 0
    requires forall k :: 0 <= k < |pieces| ==> ' ' !in pieces[k]
    ensures Split(Join(pieces)) == pieces
    decreases |pieces|
  {
    var n := |pieces|;
    var w := pieces[n - 1];
    assert ' ' !in w;
    InitLast(pieces);
    if n == 1 {
      SplitExtend("", w);
      AppendEmpty(w, "");
      assert Join(pieces) == w;
    } else {
      var init := pieces[..n - 1];
      SplitJoin(init);
      SplitJoinStep(init, w);
    }
  }

  /** `Split` is the only way to cut a text into space-free pieces that join
      back to it. */
  lemma SplitUnique(s: string, pieces: seq<string>)
    requires |pieces| > 0
    requires forall k :: 0 <= k < |pieces| ==> ' ' !in pieces[k]
    requires Join(pieces) == s
    ensures Split(s) == pieces
  {
    SplitJoin(pieces);
  }

  /** Neighbouring words of a job never share a style: word `m` sits at
      position `2 * m` and word `m + 1` at position `2 * (m + 1)`. */
  lemma AlternatingStyles(text: string, m: nat)
    requires m + 1 < |Split(text)|
    ensures var job := Segments(text);
      job[2 * m].Word? && job[2 * (m + 1)].Word? && job[2 * m].even != job[2 * (m + 1)].even
  {
    var job := Segments(text);
    var pieces := Split(text);
    assert job[2 * m] == Word(pieces[m], m % 2 == 0);
    assert job[2 * (m + 1)] == Word(pieces[m + 1], (m + 1) % 2 == 0);
    ParityFlips(m);
  }

  /** Consecutive indices have different parities. */
  lemma ParityFlips(m: nat)
    ensures (m % 2 == 0) != ((m + 1) % 2 == 0)
  {
  }
}
