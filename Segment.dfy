/** The AsyncScrollingMessage class: one segment of a scrolling message, linked
    to the segment that plays after it. */
module ScrollingMessage {
  import opened Chunking

  class Segment {
    /** The text this segment scrolls (getMessage). */
    const text: seq<char>
    /** Another segment of the same message must play right after this one. */
    var hCont: bool
    /** This segment is not the first one of its message. */
    const iCont: bool
    /** The segment to play next; not owned. */
    var next: Segment?

    /** The public constructor: a stand-alone message. */
    constructor (message: seq<char>)
      ensures text == message && !hCont && !iCont && next == null
    {
      text := message;
      hCont := false;
      iCont := false;
      next := null;
    }

    /** The private constructor used by the chunking loop. */
    constructor Part(message: seq<char>, hasContinuation: bool, isContinuation: bool)
      ensures text == message && hCont == hasContinuation && iCont == isContinuation
      ensures next == null
    {
      text := message;
      hCont := hasContinuation;
      iCont := isContinuation;
      next := null;
    }

    function GetMessage(): (m: seq<char>)
      ensures m == text
    { text }

    function HasContinuation(): (b: bool)
      reads this
      ensures b == hCont
    { hCont }

    function IsContinuation(): (b: bool)
      ensures b == iCont
    { iCont }

    /** Whether a segment is linked after this one. */
    function HasNext(): (b: bool)
      reads this
      ensures b <==> next != null
    { next != null }

    function GetNext(): (n: Segment?)
      reads this
      ensures n == next
    { next }

    /** Overwrites the link and hands the new successor back. */
    method SetNext(nextMessage: Segment?) returns (r: Segment?)
      modifies this
      ensures next == nextMessage && r == nextMessage
      ensures hCont == old(hCont)
    {
      next := nextMessage;
      r := nextMessage;
    }

    /** Splices the continuation run starting at h in directly after this
        segment: the run's last segment takes over this segment's old successor
        and this segment now links to h. The run is given as the ghost `run`;
        the walk of the source over it must end, which ContinuationWalk states. */
    method InsertNext(h: Segment, ghost run: seq<Segment>) returns (r: Segment?)
      requires ContinuationWalk(h, run)
      modifies this, run[|run| - 1]
      ensures r == h && next == h
      ensures run[|run| - 1] != this ==> run[|run| - 1].next == old(next)
      ensures hCont == old(hCont) && run[|run| - 1].hCont == old(run[|run| - 1].hCont)
      ensures forall s: Segment :: old(allocated(s)) && s != this && s != run[|run| - 1] ==>
                s.next == old(s.next) && s.hCont == old(s.hCont)
      ensures this !in run ==> Linked([this] + run) && run[|run| - 1].next == old(next)
    {
      var findLast: Segment? := h;
      ghost var i := 0;
      while findLast.HasContinuation()
        invariant 0 <= i < |run| && findLast == run[i]
        decreases |run| - i
      {
        findLast := findLast.GetNext();
        i := i + 1;
      }
      assert i == |run| - 1;
      var _ := findLast.SetNext(next);
      r := SetNext(h);
      assert forall k :: 0 <= k < |run| - 1 ==> run[k] != run[|run| - 1];
    }

    /** The public generateMessages: the head of a fresh run for message,
        itself not a continuation. */
    static method GenerateMessages(message: seq<char>, viewportWidth: nat, animMaxChars: nat,
                                   glyphWidth: nat)
      returns (head: Segment, ghost run: seq<Segment>)
      requires 0 < glyphWidth <= animMaxChars
      ensures IsRun(run, ChunksAsWritten(message, DeriveLayout(viewportWidth, animMaxChars, glyphWidth),
                                         false))
      ensures head == run[0]
      ensures forall i :: 0 <= i < |run| ==> fresh(run[i])
    {
      head, run := GenerateChain(message, viewportWidth, animMaxChars, glyphWidth, false);
    }

    /** The private generateMessages: derives the layout from the display and
        font, then chunks the message. */
    static method GenerateChain(message: seq<char>, viewportWidth: nat, animMaxChars: nat,
                                glyphWidth: nat, isContinuation: bool)
      returns (head: Segment, ghost run: seq<Segment>)
      requires 0 < glyphWidth <= animMaxChars
      ensures IsRun(run, ChunksAsWritten(message, DeriveLayout(viewportWidth, animMaxChars, glyphWidth),
                                         isContinuation))
      ensures head == run[0]
      ensures forall i :: 0 <= i < |run| ==> fresh(run[i])
    {
      var l := DeriveLayout(viewportWidth, animMaxChars, glyphWidth);
      head, run := ChunkChain(message, l, isContinuation);
    }

    /** The body of generateMessages after the counts are derived: allocates
        one segment per piece of the message and links them in order; `run`
        lists the segments. */
    static method ChunkChain(message: seq<char>, l: Layout, isContinuation: bool)
      returns (head: Segment, ghost run: seq<Segment>)
      requires l.Valid()
      ensures IsRun(run, ChunksAsWritten(message, l, isContinuation))
      ensures head == run[0]
      ensures forall i :: 0 <= i < |run| ==> fresh(run[i])
    {
      var maxFully, maxShown := l.maxFully, l.maxShown;
      ghost var ps := ChunksAsWritten(message, l, isContinuation);

      var needsContinue := |message| > maxFully;
      var firstEnd := Min(|message|, maxShown);
      head := new Segment.Part(message[..firstEnd], needsContinue, isContinuation);
      run := [head];
      if !needsContinue {
        return;
      }

      var last: Segment? := head;
      var start := maxFully;
      var end := Min(|message|, start + maxShown);
      ghost var done := [ps[0]];
      while start < end
        invariant |run| == |done| && 0 < |run| && run[0] == head && last == run[|run| - 1]
        invariant ps == done + LaterAsWritten(message, l, start)
        invariant end == Min(|message|, start + maxShown)
        invariant forall i :: 0 <= i < |run| ==> fresh(run[i])
        invariant forall i, j :: 0 <= i < j < |run| ==> run[i] != run[j]
        invariant forall i :: 0 <= i < |run| ==> Matches(run[i], done[i])
        invariant forall i :: 0 <= i < |run| - 1 ==> run[i].next == run[i + 1]
        invariant last.next == null
        decreases |message| - start
      {
        LaterAsWrittenStep(message, l, start);
        needsContinue := end < |message|;
        var nextSub := message[start..end];
        var seg := new Segment.Part(nextSub, needsContinue, true);
        last := last.SetNext(seg);
        run := run + [seg];
        done := done + [Piece(nextSub, needsContinue, true)];
        start := start + maxFully;
        end := Min(|message|, start + maxShown);
      }
      LaterAsWrittenEnd(message, l, start);
      assert done == ps;
    }
  }

  /** Segment n shows piece p with p's flags. */
  ghost predicate Matches(n: Segment, p: Piece)
    reads n
  {
    n.text == p.text && n.hCont == p.hasContinuation && n.iCont == p.isContinuation
  }

  /** Each segment of ns links to the one after it. */
  ghost predicate Linked(ns: seq<Segment>)
    reads ns
  {
    forall i :: 0 <= i < |ns| - 1 ==> ns[i].next == ns[i + 1]
  }

  /** run is a chain of distinct segments showing the pieces ps in order, and
      the last one links nowhere. */
  ghost predicate IsRun(run: seq<Segment>, ps: seq<Piece>)
    reads run
  {
    |run| == |ps| && 0 < |run| &&
    (forall i, j :: 0 <= i < j < |run| ==> run[i] != run[j]) &&
    (forall i :: 0 <= i < |run| ==> Matches(run[i], ps[i])) &&
    Linked(run) && run[|run| - 1].next == null
  }

  /** Walking from h along next while hasContinuation holds visits exactly the
      segments of run and stops at its last one. */
  ghost predicate ContinuationWalk(h: Segment, run: seq<Segment>)
    reads run
  {
    0 < |run| && run[0] == h && Linked(run) &&
    (forall i :: 0 <= i < |run| - 1 ==> run[i].hCont) &&
    !run[|run| - 1].hCont
  }

  /** In a run showing the pieces with the corrected continuation flag (Chunks),
      a segment has a continuation exactly when it has a successor, and the
      continuation walk from its head covers the whole run, so the run can be
      handed to InsertNext. */
  lemma GeneratedRunIsWalk(run: seq<Segment>, message: seq<char>, l: Layout, isContinuation: bool)
    requires l.Valid() && IsRun(run, Chunks(message, l, isContinuation))
    ensures forall i :: 0 <= i < |run| ==> (run[i].HasContinuation() <==> run[i].HasNext())
    ensures ContinuationWalk(run[0], run)
  {
    forall i | 0 <= i < |run|
      ensures run[i].hCont <==> i + 1 < |run|
      ensures run[i].HasNext() <==> i + 1 < |run|
    {
      ChunkFlags(message, l, isContinuation, i);
      if i + 1 < |run| {
        assert run[i].next == run[i + 1];
      }
    }
  }

  /** In the run generateMessages builds, a segment with a continuation has a
      successor and the last segment has none; so the continuation walk from
      the head ends inside the run, at its first segment without a
      continuation, and that prefix of the run can be handed to InsertNext. */
  lemma WrittenRunHasWalk(run: seq<Segment>, message: seq<char>, l: Layout, isContinuation: bool)
    requires l.Valid() && IsRun(run, ChunksAsWritten(message, l, isContinuation))
    ensures forall i :: 0 <= i < |run| && run[i].HasContinuation() ==> run[i].HasNext()
    ensures !run[|run| - 1].HasContinuation()
    ensures exists w :: 0 < w <= |run| && ContinuationWalk(run[0], run[..w])
  {
    var ps := ChunksAsWritten(message, l, isContinuation);
    forall i | 0 <= i < |run|
      ensures run[i].hCont ==> i + 1 < |run| && run[i].HasNext()
      ensures i + 1 == |run| ==> !run[i].hCont
    {
      WrittenContinuationHasNext(message, l, isContinuation, i);
      assert Matches(run[i], ps[i]);
      if i + 1 < |run| {
        assert run[i].next == run[i + 1];
      }
    }
    var k := 0;
    while run[k].hCont
      invariant 0 <= k < |run|
      invariant forall i :: 0 <= i < k ==> run[i].hCont
      decreases |run| - k
    {
      k := k + 1;
    }
    var walk := run[..k + 1];
    forall i | 0 <= i < |walk| - 1
      ensures walk[i].next == walk[i + 1]
    {
      assert walk[i] == run[i] && walk[i + 1] == run[i + 1];
    }
    assert ContinuationWalk(run[0], walk);
  }

  /** The run generateMessages builds for 60 characters on the width-48,
      buffer-100, glyph-4 layout has three segments, but the continuation walk
      from its head already stops at the second one, which still links to the
      third. Handed to InsertNext, that run loses its third segment: the second
      one is re-linked to the receiver's old successor. */
  lemma WrittenRunWalkStopsEarly(run: seq<Segment>)
    requires IsRun(run, ChunksAsWritten(seq(60, _ => 'x'), DeriveLayout(48, 100, 4), false))
    ensures |run| == 3 && ContinuationWalk(run[0], run[..2]) && run[1].HasNext()
  {
    var ps := ChunksAsWritten(seq(60, _ => 'x'), DeriveLayout(48, 100, 4), false);
    AsWrittenFlagMismatch();
    assert DeriveLayout(48, 100, 4).maxFully == 25;
    assert Matches(run[0], ps[0]) && Matches(run[1], ps[1]);
    assert run[0].next == run[1] && run[1].next == run[2];
  }

  /** Two runs: A -> B -> C where A continues into B, and X -> Y. Inserting
      after the end of A's run would give A -> B -> X -> Y -> C; inserting X
      after A goes right after the receiver and gives A -> X -> Y -> B -> C. */
  method SpliceExample()
  {
    var a := new Segment.Part("a", true, false);
    var b := new Segment.Part("b", false, true);
    var c := new Segment("c");
    var x := new Segment.Part("x", true, false);
    var y := new Segment.Part("y", false, true);
    var _ := a.SetNext(b);
    var _ := b.SetNext(c);
    var _ := x.SetNext(y);
    var r := a.InsertNext(x, [x, y]);
    assert r == x;
    assert a.next == x && x.next == y && y.next == b && b.next == c && c.next == null;
    assert a.HasContinuation() && a.GetNext() != b;
  }
}
