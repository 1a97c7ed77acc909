/** How AsyncScrollingMessage cuts a message into overlapping pieces, each small
    enough for the LED matrix's scroll buffer, written as pure functions on values.
    The linked segments built from these pieces live in module ScrollingMessage. */
module Chunking {

  function Min(a: nat, b: nat): (m: nat) { if a <= b then a else b }

  /** The three character counts derived from the display width, the scroll
      buffer's capacity and the glyph width. */
  datatype Layout = Layout(screenChars: nat, maxFully: nat, maxShown: nat) {
    /** A layout the chunking loop terminates on. */
    predicate Valid() { 0 < maxFully && maxShown == maxFully + screenChars }
  }

  /** The text and flags of one piece of a chunked message. */
  datatype Piece = Piece(text: seq<char>, hasContinuation: bool, isContinuation: bool)

  /** (n + 1) * d, with the product written once. */
  lemma MulSucc(n: int, d: int)
    ensures (n + 1) * d == n * d + d
  {
  }

  lemma FloorDiv(x: nat, d: nat)
    requires 0 < d
    ensures (x / d) * d <= x < (x / d) * d + d
    ensures 0 < x / d <==> d <= x
  {
  }

  /** screenChars, maxFullyScrollChars and maxShownChars, with the unsigned
      (floor) division of the source; DeriveLayoutFloors states the division. */
  function DeriveLayout(viewportWidth: nat, animMaxChars: nat, glyphWidth: nat): (l: Layout)
    requires 0 < glyphWidth
    ensures l.maxShown == l.maxFully + l.screenChars
    ensures l.Valid() <==> glyphWidth <= animMaxChars
  {
    FloorDiv(animMaxChars, glyphWidth);
    var screenChars := viewportWidth / glyphWidth;
    var maxFully := animMaxChars / glyphWidth;
    Layout(screenChars, maxFully, maxFully + screenChars)
  }

  /** screenChars glyphs fit in the viewport and one more would not; likewise
      maxFully glyphs in the scroll buffer. */
  lemma DeriveLayoutFloors(viewportWidth: nat, animMaxChars: nat, glyphWidth: nat)
    requires 0 < glyphWidth
    ensures var l := DeriveLayout(viewportWidth, animMaxChars, glyphWidth);
            l.screenChars * glyphWidth <= viewportWidth < l.screenChars * glyphWidth + glyphWidth &&
            l.maxFully * glyphWidth <= animMaxChars < l.maxFully * glyphWidth + glyphWidth
  {
    FloorDiv(viewportWidth, glyphWidth);
    FloorDiv(animMaxChars, glyphWidth);
  }

  /** The pieces the chunking loop emits once the first piece is out: one per
      start offset start, start + maxFully, ... while the slice is not empty.
      A piece continues exactly when the loop will emit another one after it. */
  function Later(message: seq<char>, l: Layout, start: nat): (ps: seq<Piece>)
    requires l.Valid()
    ensures ps != [] <==> start < |message|
    decreases |message| - start
  {
    var end := Min(|message|, start + l.maxShown);
    if start < end then
      [Piece(message[start..end], start + l.maxFully < |message|, true)]
        + Later(message, l, start + l.maxFully)
    else
      []
  }

  /** One turn of the loop: the piece at start, then the pieces from the next offset. */
  lemma LaterStep(message: seq<char>, l: Layout, start: nat)
    requires l.Valid() && start < Min(|message|, start + l.maxShown)
    ensures Later(message, l, start)
         == [Piece(message[start..Min(|message|, start + l.maxShown)], start + l.maxFully < |message|, true)]
            + Later(message, l, start + l.maxFully)
  {
  }

  /** The loop stops once the slice at start would be empty. */
  lemma LaterEnd(message: seq<char>, l: Layout, start: nat)
    requires l.Valid() && Min(|message|, start + l.maxShown) <= start
    ensures Later(message, l, start) == []
  {
  }

  /** Every piece of a message, in order: the first one, carrying the caller's
      isContinuation flag, then the later ones when the message is longer than
      the buffer can fully scroll. */
  function Chunks(message: seq<char>, l: Layout, isContinuation: bool): (ps: seq<Piece>)
    requires l.Valid()
    ensures 1 <= |ps|
  {
    var first := Piece(message[..Min(|message|, l.maxShown)], |message| > l.maxFully, isContinuation);
    if |message| > l.maxFully then [first] + Later(message, l, l.maxFully) else [first]
  }

  // ---------------------------------------------------------------------------
  // Shape of the run: positions, count, flags

  lemma DivCeil(x: nat, d: nat, n: nat)
    requires 0 < d && 0 < n
    requires n * d - d < x <= n * d
    ensures (x + d - 1) / d == n
  {
    var q := (x + d - 1) / d;
    FloorDiv(x + d - 1, d);
    MulSucc(n, d);
    MulSucc(n - 1, d);
    MulLess(q, n + 1, d);
    MulLess(n - 1, q, d);
  }

  lemma MulLess(a: int, b: int, d: nat)
    requires 0 < d && a * d < b * d
    ensures a < b
  {
  }

  /** start advanced j times by step. */
  function Nth(start: nat, j: nat, step: nat): (n: nat)
    decreases j
  {
    if j == 0 then start else Nth(start + step, j - 1, step)
  }

  /** The j-th offset is start + j * step. */
  lemma {:induction false} NthIsLinear(start: nat, j: nat, step: nat)
    ensures Nth(start, j, step) == start + j * step
    decreases j
  {
    if j > 0 {
      NthIsLinear(start + step, j - 1, step);
      MulSucc(j - 1, step);
    }
  }

  /** The j-th later piece, counted from start, is the slice at the j-th offset. */
  lemma {:induction false} LaterAt(message: seq<char>, l: Layout, start: nat, j: nat)
    requires l.Valid() && j < |Later(message, l, start)|
    ensures Nth(start, j, l.maxFully) < |message|
    ensures var s := Nth(start, j, l.maxFully);
            Later(message, l, start)[j]
              == Piece(message[s..Min(|message|, s + l.maxShown)], s + l.maxFully < |message|, true)
    decreases j
  {
    var rest := Later(message, l, start + l.maxFully);
    assert Later(message, l, start) == [Later(message, l, start)[0]] + rest;
    if j > 0 {
      LaterAt(message, l, start + l.maxFully, j - 1);
    }
  }

  /** A later piece has a continuation exactly when another piece follows it. */
  lemma {:induction false} LaterContinues(message: seq<char>, l: Layout, start: nat, j: nat)
    requires l.Valid() && j < |Later(message, l, start)|
    ensures Later(message, l, start)[j].hasContinuation <==> j + 1 < |Later(message, l, start)|
    decreases j
  {
    var next := start + l.maxFully;
    var rest := Later(message, l, next);
    assert Later(message, l, start) == [Later(message, l, start)[0]] + rest;
    if j == 0 {
      assert 0 < |rest| <==> next < Min(|message|, next + l.maxShown);
    } else {
      LaterContinues(message, l, next, j - 1);
    }
  }

  /** Number of later pieces from start: ceil((|message| - start) / maxFully). */
  lemma {:induction false} LaterCount(message: seq<char>, l: Layout, start: nat)
    requires l.Valid()
    ensures start >= |message| ==> |Later(message, l, start)| == 0
    ensures start < |message| ==>
              var n := |Later(message, l, start)|;
              0 < n && n * l.maxFully - l.maxFully < |message| - start <= n * l.maxFully
    decreases |message| - start
  {
    if start < |message| {
      var next := start + l.maxFully;
      LaterCount(message, l, next);
      var m := |Later(message, l, next)|;
      assert |Later(message, l, start)| == m + 1;
      MulSucc(m, l.maxFully);
    }
  }

  /** A message no longer than the buffer can fully scroll gives one piece;
      otherwise ceil(|message| / maxFully) pieces. This is the least count: every
      piece after the first moves on by the full maxFully characters. */
  lemma {:induction false} ChunkCount(message: seq<char>, l: Layout, isContinuation: bool)
    requires l.Valid()
    ensures |Chunks(message, l, isContinuation)|
         == if |message| <= l.maxFully then 1 else (|message| + l.maxFully - 1) / l.maxFully
  {
    if |message| > l.maxFully {
      LaterCount(message, l, l.maxFully);
      var n, x, d := |Later(message, l, l.maxFully)|, |message|, l.maxFully;
      MulSucc(n, d);
      DivCeil(x, d, n + 1);
    }
  }

  /** Every piece after the first is one the loop emits. */
  lemma ChunkIsLater(message: seq<char>, l: Layout, isContinuation: bool, k: nat)
    requires l.Valid() && 0 < k < |Chunks(message, l, isContinuation)|
    ensures |message| > l.maxFully
    ensures k - 1 < |Later(message, l, l.maxFully)|
    ensures Chunks(message, l, isContinuation)[k] == Later(message, l, l.maxFully)[k - 1]
  {
  }

  /** Piece k is the slice [s, min(len, s + maxShown)) at offset s = Nth(0, k,
      maxFully), which is k * maxFully. */
  lemma ChunkText(message: seq<char>, l: Layout, isContinuation: bool, k: nat)
    requires l.Valid() && k < |Chunks(message, l, isContinuation)|
    ensures Nth(0, k, l.maxFully) == k * l.maxFully
    ensures var s := Nth(0, k, l.maxFully);
            s <= |message| &&
            Chunks(message, l, isContinuation)[k].text == message[s..Min(|message|, s + l.maxShown)]
  {
    ChunkSlice(message, l, isContinuation, k);
    NthIsLinear(0, k, l.maxFully);
  }

  /** Piece k is the slice at offset Nth(0, k, maxFully). */
  lemma {:induction false} ChunkSlice(message: seq<char>, l: Layout, isContinuation: bool, k: nat)
    requires l.Valid() && k < |Chunks(message, l, isContinuation)|
    ensures var s := Nth(0, k, l.maxFully);
            s <= |message| &&
            Chunks(message, l, isContinuation)[k].text == message[s..Min(|message|, s + l.maxShown)]
  {
    if k > 0 {
      ChunkIsLater(message, l, isContinuation, k);
      LaterAt(message, l, l.maxFully, k - 1);
      assert Nth(0, k, l.maxFully) == Nth(l.maxFully, k - 1, l.maxFully);
    }
  }

  /** Only the first piece carries the caller's isContinuation flag, every later
      one is a continuation; a piece has a continuation exactly when it is not
      the last one, and the first has one exactly when len > maxFully. */
  lemma {:induction false} ChunkFlags(message: seq<char>, l: Layout, isContinuation: bool, k: nat)
    requires l.Valid() && k < |Chunks(message, l, isContinuation)|
    ensures Chunks(message, l, isContinuation)[k].isContinuation == (k == 0 ==> isContinuation)
    ensures Chunks(message, l, isContinuation)[k].hasContinuation
        <==> k + 1 < |Chunks(message, l, isContinuation)|
    ensures Chunks(message, l, isContinuation)[0].hasContinuation <==> |message| > l.maxFully
  {
    if k == 0 {
      if |message| > l.maxFully {
        LaterCount(message, l, l.maxFully);
      }
    } else {
      ChunkIsLater(message, l, isContinuation, k);
      LaterAt(message, l, l.maxFully, k - 1);
      LaterContinues(message, l, l.maxFully, k - 1);
    }
  }

  /** No piece is empty unless the message is, and none after the first ever is. */
  lemma {:induction false} NoEmptyPiece(message: seq<char>, l: Layout, isContinuation: bool, k: nat)
    requires l.Valid() && k < |Chunks(message, l, isContinuation)|
    requires 0 < |message| || 0 < k
    ensures 0 < |Chunks(message, l, isContinuation)[k].text|
  {
    if k > 0 {
      ChunkIsLater(message, l, isContinuation, k);
      LaterAt(message, l, l.maxFully, k - 1);
      var s := Nth(l.maxFully, k - 1, l.maxFully);
      var e := Min(|message|, s + l.maxShown);
      assert s < e;
      assert Chunks(message, l, isContinuation)[k].text == message[s..e];
    } else {
      assert Chunks(message, l, isContinuation)[0].text == message[..Min(|message|, l.maxShown)];
    }
  }

  // ---------------------------------------------------------------------------
  // Round trip: the pieces, with their overlap removed, spell the message

  /** s with its first k characters removed; removing more than |s| leaves []. */
  function Drop(s: seq<char>, k: nat): (r: seq<char>)
    ensures |r| == if k <= |s| then |s| - k else 0
  {
    if k <= |s| then s[k..] else []
  }

  /** The new characters of a sequence of later pieces: each with its first
      overlap characters (already on screen) removed, concatenated. */
  function NewText(ps: seq<Piece>, overlap: nat): (t: seq<char>)
  {
    if ps == [] then [] else Drop(ps[0].text, overlap) + NewText(ps[1..], overlap)
  }

  /** The first piece's text followed by the new characters of the later ones. */
  function Reassemble(ps: seq<Piece>, overlap: nat): (t: seq<char>)
  {
    if ps == [] then [] else ps[0].text + NewText(ps[1..], overlap)
  }

  lemma {:induction false} LaterReassembles(message: seq<char>, l: Layout, start: nat)
    requires l.Valid()
    ensures NewText(Later(message, l, start), l.screenChars)
         == message[Min(|message|, start + l.screenChars)..]
    decreases |message| - start
  {
    var end := Min(|message|, start + l.maxShown);
    var sc := l.screenChars;
    if start < end {
      var next := start + l.maxFully;
      var piece := Piece(message[start..end], next < |message|, true);
      var rest := Later(message, l, next);
      assert Later(message, l, start) == [piece] + rest;
      assert ([piece] + rest)[1..] == rest;
      assert NewText([piece] + rest, sc) == Drop(piece.text, sc) + NewText(rest, sc);
      LaterReassembles(message, l, next);
      assert NewText(rest, sc) == message[end..];
      DropThenRest(message, start, end, sc, start + l.maxShown);
    } else {
      assert Later(message, l, start) == [];
      assert Min(|message|, start + sc) == |message|;
    }
  }

  /** One step of the round trip: a slice without its overlap, followed by
      everything after the slice, is the suffix after the overlap. */
  lemma DropThenRest(message: seq<char>, start: nat, end: nat, overlap: nat, reach: nat)
    requires start < end == Min(|message|, reach) && start + overlap <= reach
    ensures Drop(message[start..end], overlap) + message[end..]
         == message[Min(|message|, start + overlap)..]
  {
    if overlap <= end - start {
      assert Drop(message[start..end], overlap) == message[start + overlap..end];
      assert message[start + overlap..end] + message[end..] == message[start + overlap..];
    } else {
      assert end == |message|;
    }
  }

  /** Cutting a sequence in two and joining the halves gives it back. */
  lemma SplitAt(s: seq<char>, i: nat)
    requires i <= |s|
    ensures s[..i] + s[i..] == s
  {
  }

  /** Seamless hand-off: the first piece's text, then every later piece's text
      without its first screenChars characters, is exactly the message. */
  lemma {:induction false} RoundTrip(message: seq<char>, l: Layout, isContinuation: bool)
    requires l.Valid()
    ensures Reassemble(Chunks(message, l, isContinuation), l.screenChars) == message
  {
    var sc, cut := l.screenChars, Min(|message|, l.maxShown);
    var first := Piece(message[..cut], |message| > l.maxFully, isContinuation);
    if |message| > l.maxFully {
      var rest := Later(message, l, l.maxFully);
      LaterReassembles(message, l, l.maxFully);
      assert Chunks(message, l, isContinuation) == [first] + rest;
      assert ([first] + rest)[1..] == rest;
      assert Reassemble([first] + rest, sc) == message[..cut] + NewText(rest, sc);
      assert Min(|message|, l.maxFully + sc) == cut;
      SplitAt(message, cut);
    } else {
      assert Chunks(message, l, isContinuation) == [first];
      assert cut == |message|;
      assert Reassemble([first], sc) == message[..cut];
    }
  }

  // ---------------------------------------------------------------------------
  // The continuation flag as the source computes it

  /** The later pieces with hasContinuation computed as end < len, as the loop
      of generateMessages does. */
  function LaterAsWritten(message: seq<char>, l: Layout, start: nat): (ps: seq<Piece>)
    requires l.Valid()
    ensures ps != [] <==> start < |message|
    decreases |message| - start
  {
    var end := Min(|message|, start + l.maxShown);
    if start < end then
      [Piece(message[start..end], end < |message|, true)]
        + LaterAsWritten(message, l, start + l.maxFully)
    else
      []
  }

  /** Every piece of a message with the later pieces' flags as the loop of
      generateMessages computes them. */
  function ChunksAsWritten(message: seq<char>, l: Layout, isContinuation: bool): (ps: seq<Piece>)
    requires l.Valid()
    ensures 1 <= |ps|
  {
    var first := Piece(message[..Min(|message|, l.maxShown)], |message| > l.maxFully, isContinuation);
    if |message| > l.maxFully then [first] + LaterAsWritten(message, l, l.maxFully) else [first]
  }

  /** One turn of the loop as written. */
  lemma LaterAsWrittenStep(message: seq<char>, l: Layout, start: nat)
    requires l.Valid() && start < Min(|message|, start + l.maxShown)
    ensures LaterAsWritten(message, l, start)
         == [Piece(message[start..Min(|message|, start + l.maxShown)],
                   Min(|message|, start + l.maxShown) < |message|, true)]
            + LaterAsWritten(message, l, start + l.maxFully)
  {
  }

  /** The loop as written stops where the corrected one does. */
  lemma LaterAsWrittenEnd(message: seq<char>, l: Layout, start: nat)
    requires l.Valid() && Min(|message|, start + l.maxShown) <= start
    ensures LaterAsWritten(message, l, start) == []
  {
  }

  /** As written, the j-th later piece from start is the slice at the j-th
      offset and continues exactly when that slice stops short of the message's
      end. */
  lemma {:induction false} LaterAsWrittenAt(message: seq<char>, l: Layout, start: nat, j: nat)
    requires l.Valid() && j < |LaterAsWritten(message, l, start)|
    ensures Nth(start, j, l.maxFully) < |message|
    ensures var s := Nth(start, j, l.maxFully);
            var e := Min(|message|, s + l.maxShown);
            LaterAsWritten(message, l, start)[j] == Piece(message[s..e], e < |message|, true)
    decreases j
  {
    var rest := LaterAsWritten(message, l, start + l.maxFully);
    assert LaterAsWritten(message, l, start) == [LaterAsWritten(message, l, start)[0]] + rest;
    if j > 0 {
      LaterAsWrittenAt(message, l, start + l.maxFully, j - 1);
    }
  }

  lemma {:induction false} LaterAsWrittenAgrees(message: seq<char>, l: Layout, start: nat)
    requires l.Valid()
    ensures |LaterAsWritten(message, l, start)| == |Later(message, l, start)|
    ensures forall k :: 0 <= k < |Later(message, l, start)| ==>
              LaterAsWritten(message, l, start)[k].text == Later(message, l, start)[k].text &&
              LaterAsWritten(message, l, start)[k].isContinuation
    decreases |message| - start
  {
    if start < Min(|message|, start + l.maxShown) {
      LaterAsWrittenAgrees(message, l, start + l.maxFully);
    }
  }

  /** The written flag changes nothing but hasContinuation: same number of
      pieces, same texts, same isContinuation flags. */
  lemma {:induction false} AsWrittenKeepsTexts(message: seq<char>, l: Layout, isContinuation: bool)
    requires l.Valid()
    ensures |ChunksAsWritten(message, l, isContinuation)| == |Chunks(message, l, isContinuation)|
    ensures forall k :: 0 <= k < |Chunks(message, l, isContinuation)| ==>
              ChunksAsWritten(message, l, isContinuation)[k].text == Chunks(message, l, isContinuation)[k].text &&
              ChunksAsWritten(message, l, isContinuation)[k].isContinuation
                == Chunks(message, l, isContinuation)[k].isContinuation
  {
    if |message| > l.maxFully {
      LaterAsWrittenAgrees(message, l, l.maxFully);
      ChunkFlags(message, l, isContinuation, 0);
      forall k | 0 < k < |Chunks(message, l, isContinuation)|
        ensures Chunks(message, l, isContinuation)[k].isContinuation
      {
        ChunkFlags(message, l, isContinuation, k);
      }
    }
  }

  /** Width 48, buffer 100, glyph 4 (12, 25 and 37 characters) and a message of
      60 characters: the loop emits [0,37), [25,60) and [50,60), but the middle
      piece ends at the message's end and so, as written, says it has no
      continuation although a third piece follows it. */
  lemma AsWrittenFlagMismatch()
    ensures var ps := ChunksAsWritten(seq(60, _ => 'x'), DeriveLayout(48, 100, 4), false);
            |ps| == 3 && !ps[1].hasContinuation
  {
    var m: seq<char> := seq(60, _ => 'x');
    var l := DeriveLayout(48, 100, 4);
    assert l == Layout(12, 25, 37);
    assert LaterAsWritten(m, l, 75) == [];
    assert LaterAsWritten(m, l, 50) == [Piece(m[50..60], false, true)];
    assert LaterAsWritten(m, l, 25) == [Piece(m[25..60], false, true), Piece(m[50..60], false, true)];
  }

  /** A 70-character message on the width-48, buffer-100, glyph-4 layout: three
      pieces, where both flag tests agree. */
  lemma SeventyCharacters(message: seq<char>)
    requires |message| == 70
    ensures var ps := Chunks(message, DeriveLayout(48, 100, 4), false);
            |ps| == 3 &&
            ps[0] == Piece(message[0..37], true, false) &&
            ps[1] == Piece(message[25..62], true, true) &&
            ps[2] == Piece(message[50..70], false, true)
  {
    var l := DeriveLayout(48, 100, 4);
    assert l == Layout(12, 25, 37);
    assert Later(message, l, 75) == [];
    assert Later(message, l, 50) == [Piece(message[50..70], false, true)];
  }

  /** The same 70-character message on the pieces exactly as the source computes
      them: the same three pieces with the same flags. */
  lemma SeventyCharactersAsWritten(message: seq<char>)
    requires |message| == 70
    ensures var ps := ChunksAsWritten(message, DeriveLayout(48, 100, 4), false);
            |ps| == 3 &&
            ps[0] == Piece(message[0..37], true, false) &&
            ps[1] == Piece(message[25..62], true, true) &&
            ps[2] == Piece(message[50..70], false, true)
  {
    var l := DeriveLayout(48, 100, 4);
    assert l == Layout(12, 25, 37);
    assert LaterAsWritten(message, l, 75) == [];
    assert LaterAsWritten(message, l, 50) == [Piece(message[50..70], false, true)];
  }

  /** As written, a piece that claims a continuation does have one after it
      (its corrected flag is set too), and the last piece claims none. What the
      source loses is only the other direction. */
  lemma WrittenContinuationHasNext(message: seq<char>, l: Layout, isContinuation: bool, k: nat)
    requires l.Valid() && k < |ChunksAsWritten(message, l, isContinuation)|
    ensures |Chunks(message, l, isContinuation)| == |ChunksAsWritten(message, l, isContinuation)|
    ensures ChunksAsWritten(message, l, isContinuation)[k].hasContinuation ==>
              Chunks(message, l, isContinuation)[k].hasContinuation &&
              k + 1 < |ChunksAsWritten(message, l, isContinuation)|
    ensures k + 1 == |ChunksAsWritten(message, l, isContinuation)| ==>
              !ChunksAsWritten(message, l, isContinuation)[k].hasContinuation
  {
    var ps := ChunksAsWritten(message, l, isContinuation);
    var qs := Chunks(message, l, isContinuation);
    if |message| > l.maxFully {
      LaterAsWrittenAgrees(message, l, l.maxFully);
    }
    ChunkFlags(message, l, isContinuation, k);
    if k > 0 {
      assert ps[k] == LaterAsWritten(message, l, l.maxFully)[k - 1];
      assert qs[k] == Later(message, l, l.maxFully)[k - 1];
      WrittenLaterFlag(message, l, l.maxFully, k - 1);
    }
  }

  /** A later piece's written flag implies its corrected one, so a later piece
      whose corrected flag is clear claims no continuation as written either. */
  lemma WrittenLaterFlag(message: seq<char>, l: Layout, start: nat, j: nat)
    requires l.Valid() && j < |Later(message, l, start)|
    requires j < |LaterAsWritten(message, l, start)|
    ensures LaterAsWritten(message, l, start)[j].hasContinuation ==>
              Later(message, l, start)[j].hasContinuation
  {
    LaterAt(message, l, start, j);
    LaterAsWrittenAt(message, l, start, j);
    var s := Nth(start, j, l.maxFully);
    var e := Min(|message|, s + l.maxShown);
    assert LaterAsWritten(message, l, start)[j].hasContinuation == (e < |message|);
    assert Later(message, l, start)[j].hasContinuation == (s + l.maxFully < |message|);
  }

  /** The new characters depend only on the pieces' texts. */
  lemma {:induction false} NewTextOfTexts(ps: seq<Piece>, qs: seq<Piece>, overlap: nat)
    requires |ps| == |qs|
    requires forall k :: 0 <= k < |ps| ==> ps[k].text == qs[k].text
    ensures NewText(ps, overlap) == NewText(qs, overlap)
    decreases |ps|
  {
    if ps != [] {
      assert forall k :: 0 <= k < |ps| - 1 ==> ps[1..][k] == ps[k + 1] && qs[1..][k] == qs[k + 1];
      NewTextOfTexts(ps[1..], qs[1..], overlap);
    }
  }

  /** The pieces exactly as the source computes them also reassemble to the
      message: the written flag changes no text. */
  lemma RoundTripAsWritten(message: seq<char>, l: Layout, isContinuation: bool)
    requires l.Valid()
    ensures Reassemble(ChunksAsWritten(message, l, isContinuation), l.screenChars) == message
  {
    var ps := ChunksAsWritten(message, l, isContinuation);
    var qs := Chunks(message, l, isContinuation);
    AsWrittenKeepsTexts(message, l, isContinuation);
    assert forall k :: 0 <= k < |ps| - 1 ==> ps[1..][k] == ps[k + 1] && qs[1..][k] == qs[k + 1];
    NewTextOfTexts(ps[1..], qs[1..], l.screenChars);
    RoundTrip(message, l, isContinuation);
  }
}
