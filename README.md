# AsyncScrollingMessage in Dafny

A model of the `AsyncScrollingMessage` class of the Arduino UNO R4 LED-matrix
library. The class scrolls text that is longer than the matrix's scroll buffer
can hold. It does two things:

- **Chunking** (`generateMessages`). It cuts a message into overlapping segments
  so that each one fits the scroll buffer.
- **Chaining** (`setNext`, `insertNext`). It links segments into a singly linked
  list for playback, and splices one message's run of segments in after another
  segment.

Two modules, one per concern:

- `Chunking.dfy` (module `Chunking`) is pure. It holds:
  - the derived character counts (`DeriveLayout`);
  - the pieces a message is cut into (`Chunks`, built from `Later`, which mirrors
    the loop of `generateMessages`), with the corrected continuation flag from
    Findings;
  - the lemmas about those pieces: count, slice positions, flags, no empty
    piece, and the round trip back to the message;
  - the pieces with the continuation flag exactly as the source computes it
    (`ChunksAsWritten`, built from `LaterAsWritten`), with the counterexample
    described under Findings.
- `Segment.dfy` (module `ScrollingMessage`) holds the class `Segment`, with the
  fields `text`, `hCont`, `iCont` and `next`. It has:
  - both constructors;
  - the getters `GetMessage`, `HasContinuation`, `IsContinuation`, `HasNext` and
    `GetNext`, as field reads whose contracts name the field they return;
  - `SetNext` and `InsertNext`, as methods that change `next`;
  - both `generateMessages` overloads, as static methods. They allocate the
    segments in a loop and return the head together with a ghost list `run` of
    the segments they allocated. The private overload is `GenerateChain`, which
    derives the counts and hands them to `ChunkChain`, the chunking loop. The
    segments carry the flags the source computes, so the run they build shows
    `ChunksAsWritten`.

`IsRun(run, ChunksAsWritten(...))` ties the linked segments to the pure pieces: segment
`i` shows piece `i` with piece `i`'s flags, each segment links to the next one,
the last one links to null, and all segments are distinct.

Modelling choices:

- `matrix.width()`, `font.width` and `animMaxChars` become the `nat` parameters
  `viewportWidth`, `glyphWidth` and `animMaxChars`.
- One `char` of a message stands for one byte of the Arduino `String`, which is
  also one glyph on the matrix: `length()` and `substring` count bytes, and
  `String::substring(from, to)` is the slice `s[from..to]`.
- `size_t` arithmetic is unbounded here.
- The source's degenerate configurations become preconditions, so chunking
  requires `0 < glyphWidth <= animMaxChars`:
  - a zero glyph width divides by zero;
  - a buffer narrower than one glyph (maxFully = 0) makes the loop run forever
    on a non-empty message when the viewport holds at least one glyph; the
    precondition also excludes the cases that still terminate (an empty
    message, or a viewport narrower than one glyph), so that every accepted
    layout moves the loop forward.

`InsertNext` inserts the new run right after the receiver. Take `A -> B -> C`
where A continues into B, and insert `X -> Y` after A. Inserting after the end
of A's run would give `A -> B -> X -> Y -> C`. The code inserts right after the
receiver and gives `A -> X -> Y -> B -> C`, and `SpliceExample` proves this
outcome.

The walk inside `insertNext` must end at a segment whose `hasContinuation` is
false. `ContinuationWalk(h, run)` states this as a precondition over a ghost
list of the walked segments. The receiver may itself be the last segment of that
walk; then its old successor is not re-attached, so that postcondition is
conditional.

## Model

| member | source | states |
|---|---|---|
| Chunking.DeriveLayout | AsyncScrollingMessage.hpp:117-119 | maxShown is maxFully + screenChars, and the layout admits chunking (maxFully > 0) exactly when the buffer holds at least one glyph |
| Chunking.DeriveLayoutFloors | AsyncScrollingMessage.hpp:117-118 | screenChars glyphs fit in the viewport width and one more would not; likewise maxFully glyphs in the buffer capacity |
| Chunking.Chunks | AsyncScrollingMessage.hpp:121-144 | the pieces of a message in order, with the corrected continuation flag (see Findings); there is always at least one, even for the empty message |
| Chunking.Later | AsyncScrollingMessage.hpp:133-144 | the pieces the corrected loop emits from start: [start, min(length, start + maxShown)) while start < end, with hasContinuation = start + maxFully < length; it emits at least one exactly when start is inside the message |
| Chunking.LaterAsWritten | AsyncScrollingMessage.hpp:133-144 | the same pieces with hasContinuation = end < length, as line 137 computes it; it emits at least one exactly when start is inside the message |
| Chunking.ChunkCount | AsyncScrollingMessage.hpp:121-144 | exactly one piece when the length is at most maxFully, otherwise ceil(length / maxFully) pieces |
| Chunking.ChunkText | AsyncScrollingMessage.hpp:123-143 | piece k's text is the message slice [s, min(length, s + maxShown)), where s, the offset after k steps of maxFully, equals k·maxFully and is within the message |
| Chunking.NthIsLinear | AsyncScrollingMessage.hpp:133-141 | the offset reached by k steps of maxFully from start is start + k·maxFully |
| Chunking.ChunkFlags | AsyncScrollingMessage.hpp:121-143 | only piece 0 carries the caller's isContinuation flag and all later pieces are continuations; a piece has a continuation iff it is not the last (corrected flag; see Findings); the first has one iff length > maxFully |
| Chunking.NoEmptyPiece | AsyncScrollingMessage.hpp:133-138 | no piece after the first is empty, and the first is empty only for the empty message |
| Chunking.LaterCount | AsyncScrollingMessage.hpp:133-144 | the loop from offset start emits ceil((length − start) / maxFully) pieces, and none once start reaches the length |
| Chunking.LaterAt | AsyncScrollingMessage.hpp:136-143 | the j-th piece the corrected loop emits from start is the slice of at most maxShown characters at the offset s, j steps of maxFully past start, which is inside the message; it is a continuation, and its hasContinuation is s + maxFully < length |
| Chunking.LaterContinues | AsyncScrollingMessage.hpp:136-143 | a piece the corrected loop emits has a continuation exactly when the loop emits another piece after it (false of the loop as written; see Findings) |
| Chunking.RoundTrip | AsyncScrollingMessage.hpp:123-143 | the first piece's text, then every later piece's text without its first screenChars characters, concatenates to exactly the message |
| Chunking.LaterReassembles | AsyncScrollingMessage.hpp:133-143 | the new characters of the pieces emitted from start are the message suffix from min(length, start + screenChars) |
| Chunking.LaterStep | AsyncScrollingMessage.hpp:136-143 | while start < end, the corrected loop emits the slice [start, end) and continues from start + maxFully |
| Chunking.LaterEnd | AsyncScrollingMessage.hpp:136 | once end <= start, the loop emits nothing more |
| Chunking.ChunksAsWritten | AsyncScrollingMessage.hpp:121-144 | the pieces exactly as the source computes them; there is always at least one |
| Chunking.LaterAsWrittenStep | AsyncScrollingMessage.hpp:136-143 | while start < end, the loop as written emits the slice [start, end) with hasContinuation = end < length, then continues from start + maxFully |
| Chunking.LaterAsWrittenEnd | AsyncScrollingMessage.hpp:136 | once end <= start, the loop as written emits nothing more |
| Chunking.LaterAsWrittenAt | AsyncScrollingMessage.hpp:136-143 | as written, the j-th piece from start is the slice at the j-th maxFully offset, inside the message, a continuation, and has a continuation exactly when its end is before the message's end |
| Chunking.AsWrittenKeepsTexts | AsyncScrollingMessage.hpp:136-143 | the source's own continuation test changes no piece count, no text and no isContinuation flag, only hasContinuation |
| Chunking.AsWrittenFlagMismatch | AsyncScrollingMessage.hpp:137 | as written, a 60-character message on a width-48, buffer-100, glyph-4 layout yields three pieces whose middle one claims no continuation |
| Chunking.SeventyCharacters | AsyncScrollingMessage.hpp:117-144 | a 70-character message on that layout yields [0,37) continuing, [25,62) continuing, and [50,70) not continuing |
| Chunking.SeventyCharactersAsWritten | AsyncScrollingMessage.hpp:117-144 | with the source's own flag the same message yields the same three pieces with the same flags |
| Chunking.WrittenContinuationHasNext | AsyncScrollingMessage.hpp:136-143 | as written, a piece that claims a continuation has its corrected flag set and is followed by another piece, and the last piece claims none |
| Chunking.WrittenLaterFlag | AsyncScrollingMessage.hpp:137 | a later piece's flag as written (end < length) implies its corrected flag (start + maxFully < length) |
| Chunking.RoundTripAsWritten | AsyncScrollingMessage.hpp:121-143 | the pieces exactly as the source computes them reassemble, overlap removed, to exactly the message |
| ScrollingMessage.Segment.GetMessage | AsyncScrollingMessage.hpp:51-53 | returns the segment's text |
| ScrollingMessage.Segment.HasContinuation | AsyncScrollingMessage.hpp:55-57 | returns the hasContinuation flag |
| ScrollingMessage.Segment.IsContinuation | AsyncScrollingMessage.hpp:59-61 | returns the isContinuation flag |
| ScrollingMessage.Segment.HasNext | AsyncScrollingMessage.hpp:63-65 | true exactly when next is not null |
| ScrollingMessage.Segment.GetNext | AsyncScrollingMessage.hpp:67-69 | returns the successor, possibly null |
| ScrollingMessage.Segment.constructor | AsyncScrollingMessage.hpp:18-28 | a stand-alone segment: given text, neither flag set, no successor |
| ScrollingMessage.Segment.Part | AsyncScrollingMessage.hpp:96-108 | a segment with the given text and flags and no successor |
| ScrollingMessage.Segment.SetNext | AsyncScrollingMessage.hpp:80-83 | next becomes the argument, which is returned; nothing else changes |
| ScrollingMessage.Segment.InsertNext | AsyncScrollingMessage.hpp:71-78 | returns h; this.next becomes h; the last segment L of h's continuation walk takes this segment's old next (unless L is the receiver); every other link and flag is unchanged; for a receiver outside the run, the receiver followed by the run is a linked chain |
| ScrollingMessage.Segment.GenerateMessages | AsyncScrollingMessage.hpp:85-91 | the run for the message with isContinuation false on its head: fresh distinct segments showing ChunksAsWritten of the derived layout, linked in order, the last one linking to null |
| ScrollingMessage.Segment.GenerateChain | AsyncScrollingMessage.hpp:110-119 | the run for the message with the caller's isContinuation on its head: fresh distinct segments showing ChunksAsWritten of the derived layout, linked in order |
| ScrollingMessage.Segment.ChunkChain | AsyncScrollingMessage.hpp:121-146 | the loop allocates one fresh segment per piece of ChunksAsWritten, with that piece's text and the flags the source computes (hasContinuation = end < length for later pieces), links each to the next, leaves the last one's next null, and returns the first |
| ScrollingMessage.GeneratedRunIsWalk | AsyncScrollingMessage.hpp:63-65 | in a run showing the corrected pieces (Chunks), hasContinuation() iff hasNext() on every segment, and the continuation walk from the head covers the whole run, so the run can be given to InsertNext |
| ScrollingMessage.WrittenRunHasWalk | AsyncScrollingMessage.hpp:71-78 | in the run generateMessages builds, a segment with hasContinuation() has hasNext(), the last segment has no continuation, and some non-empty prefix of the run is a ContinuationWalk from its head, so the run can be handed to InsertNext |
| ScrollingMessage.WrittenRunWalkStopsEarly | AsyncScrollingMessage.hpp:71-78 | the run generateMessages builds, as written, for 60 characters on the width-48, buffer-100, glyph-4 layout has three segments, yet the continuation walk from its head ends at the second, which still links to the third |

## Left out

- showMessage: it only drives the display (font, text, animation buffer, play), which is I/O outside the model.
- The ArduinoLEDMatrix and Font objects: only the matrix width and the glyph width are used, and they are passed as numbers.
- The destructor and the deleted copy and move operations: they concern manual memory ownership, which has no counterpart in a garbage-collected model.
- Allocation failure of `new` and the internals of Arduino `String`.
- Overflow of `size_t`: the counts are unbounded naturals. The source's sums can wrap: `maxFullyScrollChars + screenChars` at line 119, `start + maxShownChars` at lines 134 and 143, and `start += maxFullyScrollChars` at line 142. That happens only when animMaxChars / glyphWidth plus screenChars, plus the current offset, passes SIZE_MAX. The source would then cut differently (with a 32-bit `size_t`, animMaxChars = 2^32 - 1, glyph width 1 and width 12 wrap maxShownChars to 11 and give one 11-character segment). No real animation buffer or matrix is that large, so the model leaves wrap-around out.
- Degenerate layouts (zero glyph width, or a buffer narrower than one glyph): these are preconditions of chunking here, not modelled behaviour. With a zero glyph width the source divides by zero. With a buffer narrower than one glyph it loops forever on a non-empty message when the viewport holds a glyph, and it returns a single segment in the remaining cases, which the model does not cover.
- Malformed runs passed to insertNext (a null head, a cycle, or a null successor under hasContinuation): the head `h` is a non-null `Segment`, and the precondition ContinuationWalk excludes the rest, because the source then hangs or dereferences null.

## Findings

| source | as written | input that shows it | evidently intended | confidence | as-written member | corrected member |
|---|---|---|---|---|---|---|
| AsyncScrollingMessage.hpp:137 | a later segment gets hasContinuation only when its end is before the message end, yet the loop emits another segment whenever start + maxFully < length | width 48, buffer 100, glyph 4 (12, 25 and 37 characters) with a 60-character message: segments [0,37), [25,60) and [50,60); the middle one ends at 60, so its hasContinuation is false although [50,60) follows. A continuation walk then stops early, and insertNext cuts off the last segment (ScrollingMessage.WrittenRunWalkStopsEarly) | hasContinuation is start + maxFully < length, the same test the first segment uses (length > maxFully); a segment continues iff another one follows it | high, not executed | Chunking.AsWrittenFlagMismatch | Chunking.ChunkFlags |
