/** The `'data'` handler: a received chunk is cut into consecutive 11-byte
    slices, each handed to `processWord` in order.  The loop bound is
    `frame.length / wordLength` with real division, so a chunk whose length
    is not a multiple of 11 gets one more pass over its short tail, and
    `Buffer.slice` clamps that last slice to the end of the chunk.
    `RunChunk` is the value-level meaning of one such call. */
module OwlChunk {
  import opened OwlProtocol

  /** The outcomes of the words of one chunk, in order, and
      `last_valid_month` afterwards. */
  datatype ChunkResult = ChunkResult(outcomes: seq<Outcome>, lastValidMonth: int)

  function Min(a: int, b: int): (m: int)
  {
    if a < b then a else b
  }

  /** The `i`-th slice of a chunk, as `frame.slice(i * 11, (i + 1) * 11)`. */
  function Slice(frame: seq<Byte>, i: nat): (word: seq<Byte>)
    requires i * WORD_LENGTH < |frame|
    ensures 0 < |word| <= WORD_LENGTH
  {
    frame[i * WORD_LENGTH .. Min((i + 1) * WORD_LENGTH, |frame|)]
  }

  /** Processing a whole chunk from state `lastValidMonth`. */
  function RunChunk(lastValidMonth: int, frame: seq<Byte>): (r: ChunkResult)
    decreases |frame|
  {
    if |frame| == 0 then
      ChunkResult([], lastValidMonth)
    else
      var n := Min(WORD_LENGTH, |frame|);
      var t := WordStep(lastValidMonth, frame[..n]);
      var rest := RunChunk(t.lastValidMonth, frame[n..]);
      ChunkResult([t.outcome] + rest.outcomes, rest.lastValidMonth)
  }

  /** One outcome per loop pass, i.e. ceil(|frame| / 11) of them: a rejected
      word never cuts the chunk short. */
  lemma {:induction false} RunChunkLength(lastValidMonth: int, frame: seq<Byte>)
    decreases |frame|
    ensures var r := RunChunk(lastValidMonth, frame);
      |frame| <= |r.outcomes| * WORD_LENGTH < |frame| + WORD_LENGTH
  {
    if |frame| > 0 {
      var n := Min(WORD_LENGTH, |frame|);
      RunChunkLength(WordStep(lastValidMonth, frame[..n]).lastValidMonth, frame[n..]);
    }
  }

  /** The month invariant over a whole chunk: from an in-range
      `last_valid_month`, the state stays in range and so does the month of
      every record emitted. */
  lemma {:induction false} RunChunkMonthInRange(lastValidMonth: int, frame: seq<Byte>)
    requires MonthInRange(lastValidMonth)
    decreases |frame|
    ensures var r := RunChunk(lastValidMonth, frame);
      && MonthInRange(r.lastValidMonth)
      && forall o <- r.outcomes :: o.IsRecord() ==> MonthInRange(o.rec.month)
  {
    if |frame| > 0 {
      var n := Min(WORD_LENGTH, |frame|);
      MonthStaysInRange(lastValidMonth, frame[..n]);
      RunChunkMonthInRange(WordStep(lastValidMonth, frame[..n]).lastValidMonth, frame[n..]);
    }
  }

  /** One pass of the loop: the chunk from offset `k` on is its first slice
      followed by the chunk from the end of that slice on. */
  lemma RunChunkFrom(lastValidMonth: int, frame: seq<Byte>, k: nat)
    requires k < |frame|
    ensures var t := WordStep(lastValidMonth, frame[k..Min(k + WORD_LENGTH, |frame|)]);
      var rest := RunChunk(t.lastValidMonth, frame[Min(k + WORD_LENGTH, |frame|)..]);
      RunChunk(lastValidMonth, frame[k..]) == ChunkResult([t.outcome] + rest.outcomes, rest.lastValidMonth)
  {
    var n := Min(WORD_LENGTH, |frame| - k);
    assert frame[k..][..n] == frame[k..Min(k + WORD_LENGTH, |frame|)];
    assert frame[k..][n..] == frame[Min(k + WORD_LENGTH, |frame|)..];
  }

  /** Two chunks back to back, the first made of `j` whole words: the first
      chunk's words are processed first, and the second starts from the
      state they leave. */
  lemma {:induction false} RunChunkAppend(lastValidMonth: int, a: seq<Byte>, b: seq<Byte>, j: nat)
    requires |a| == j * WORD_LENGTH
    decreases j
    ensures var head := RunChunk(lastValidMonth, a);
      var tail := RunChunk(head.lastValidMonth, b);
      RunChunk(lastValidMonth, a + b) == ChunkResult(head.outcomes + tail.outcomes, tail.lastValidMonth)
  {
    if j == 0 {
      assert a + b == b;
    } else {
      var t := WordStep(lastValidMonth, a[..WORD_LENGTH]);
      assert (a + b)[..WORD_LENGTH] == a[..WORD_LENGTH];
      assert (a + b)[WORD_LENGTH..] == a[WORD_LENGTH..] + b;
      RunChunkAppend(t.lastValidMonth, a[WORD_LENGTH..], b, j - 1);
      RunChunkUnfold(lastValidMonth, a + b);
      RunChunkUnfold(lastValidMonth, a);
      var inner := RunChunk(t.lastValidMonth, a[WORD_LENGTH..]);
      var tail := RunChunk(inner.lastValidMonth, b);
      assert [t.outcome] + (inner.outcomes + tail.outcomes) == ([t.outcome] + inner.outcomes) + tail.outcomes;
    }
  }

  /** Cutting a chunk after `j` whole words. */
  lemma RunChunkSplit(lastValidMonth: int, frame: seq<Byte>, j: nat)
    requires j * WORD_LENGTH <= |frame|
    ensures var head := RunChunk(lastValidMonth, frame[..j * WORD_LENGTH]);
      var tail := RunChunk(head.lastValidMonth, frame[j * WORD_LENGTH..]);
      RunChunk(lastValidMonth, frame) == ChunkResult(head.outcomes + tail.outcomes, tail.lastValidMonth)
  {
    var k := j * WORD_LENGTH;
    assert frame == frame[..k] + frame[k..];
    RunChunkAppend(lastValidMonth, frame[..k], frame[k..], j);
  }

  /** The first word of a chunk of at least one whole word. */
  lemma RunChunkUnfold(lastValidMonth: int, frame: seq<Byte>)
    requires |frame| >= WORD_LENGTH
    ensures var t := WordStep(lastValidMonth, frame[..WORD_LENGTH]);
      var rest := RunChunk(t.lastValidMonth, frame[WORD_LENGTH..]);
      RunChunk(lastValidMonth, frame) == ChunkResult([t.outcome] + rest.outcomes, rest.lastValidMonth)
  {
  }

  /** Word `i` of a chunk is the slice at offset `11 * i`, processed in the
      state left by words `0 .. i - 1`, whatever became of them. */
  lemma RunChunkAt(lastValidMonth: int, frame: seq<Byte>, i: nat)
    requires i * WORD_LENGTH < |frame|
    ensures var r := RunChunk(lastValidMonth, frame);
      var before := RunChunk(lastValidMonth, frame[..i * WORD_LENGTH]);
      && i < |r.outcomes|
      && r.outcomes[i] == WordStep(before.lastValidMonth, Slice(frame, i)).outcome
  {
    RunChunkSplit(lastValidMonth, frame, i);
    var k := i * WORD_LENGTH;
    var before := RunChunk(lastValidMonth, frame[..k]);
    RunChunkLength(lastValidMonth, frame[..k]);
    assert |before.outcomes| == i;
    var tail := frame[k..];
    assert tail[..Min(WORD_LENGTH, |tail|)] == Slice(frame, i);
  }

  /** Every record of a chunk comes from a complete, accepted 11-byte slice. */
  lemma ChunkRecordsAreDataWords(lastValidMonth: int, frame: seq<Byte>, i: nat)
    requires i < |RunChunk(lastValidMonth, frame).outcomes|
    requires RunChunk(lastValidMonth, frame).outcomes[i].IsRecord()
    ensures (i + 1) * WORD_LENGTH <= |frame|
    ensures IsDataWord(frame[i * WORD_LENGTH .. (i + 1) * WORD_LENGTH])
  {
    RunChunkLength(lastValidMonth, frame);
    RunChunkAt(lastValidMonth, frame, i);
    RecordsFromDataWords(RunChunk(lastValidMonth, frame[..i * WORD_LENGTH]).lastValidMonth, Slice(frame, i));
  }

  /** A chunk whose length is not a multiple of 11 ends with one extra pass
      over its short tail; that pass is always a word error, emits nothing
      and leaves the month state as the whole words left it. */
  lemma TrailingSliceRejected(lastValidMonth: int, frame: seq<Byte>)
    requires |frame| % WORD_LENGTH != 0
    ensures var whole := RunChunk(lastValidMonth, frame[..|frame| / WORD_LENGTH * WORD_LENGTH]);
      var r := RunChunk(lastValidMonth, frame);
      && |r.outcomes| == |whole.outcomes| + 1
      && r.outcomes[..|whole.outcomes|] == whole.outcomes
      && (r.outcomes[|whole.outcomes|].InvalidType? || r.outcomes[|whole.outcomes|].BadChecksum?)
      && r.lastValidMonth == whole.lastValidMonth
  {
    var j := |frame| / WORD_LENGTH;
    RunChunkSplit(lastValidMonth, frame, j);
    var whole := RunChunk(lastValidMonth, frame[..j * WORD_LENGTH]);
    RunChunkLength(lastValidMonth, frame[..j * WORD_LENGTH]);
    var tail := frame[j * WORD_LENGTH..];
    assert 0 < |tail| < WORD_LENGTH;
    ShortWordRejected(whole.lastValidMonth, tail);
    assert tail[|tail|..] == [];
  }
}
