/** The `OwlUSB` object: its one piece of mutable state, `last_valid_month`,
    the `'data'` handler that slices a chunk into words, and `processWord`.
    Acknowledgement writes and `live`/`db` emissions are returned as
    `Outcome` values instead of being performed. */
module OwlUsb {
  import opened OwlProtocol
  import opened OwlChunk

  /** The checksum loop of `processWord`: bytes 0..9 are added one at a
      time, then the sum is masked to its low byte.  Reading past the end of
      a short word adds `undefined`, which makes the sum NaN; masking NaN
      gives 0. */
  method ComputeChecksum(word: seq<Byte>) returns (c: Byte)
    ensures c == WordChecksum(word)
    ensures |word| >= 10 ==> c == Sum(word[..10]) % 256
  {
    var checksum: int := 0;
    var isNaN := false;
    for i := 0 to 10
      invariant isNaN <==> i > |word|
      invariant !isNaN ==> checksum == Sum(word[..i])
    {
      if i < |word| {
        assert word[..i + 1][..i] == word[..i];
        checksum := checksum + word[i];
      } else {
        isNaN := true;
      }
    }
    // the sum of ten bytes is below 2^31, so `& 0xff` is the remainder mod 256
    c := if isNaN then 0 else checksum % 256;
  }

  class OwlDecoder {
    /** The most recent in-range month of an accepted data word, 0 before any. */
    var lastValidMonth: int

    ghost predicate Valid()
      reads this
    {
      MonthInRange(lastValidMonth)
    }

    constructor ()
      ensures Valid() && lastValidMonth == 0
    {
      lastValidMonth := 0;
    }

    /** `processWord`: acknowledge a handshake, or validate, decode, correct
        the month of and emit a data word. */
    method ProcessWord(word: seq<Byte>) returns (out: Outcome)
      requires Valid()
      modifies this
      ensures Valid()
      ensures var t := WordStep(old(lastValidMonth), word);
        out == t.outcome && lastValidMonth == t.lastValidMonth
    {
      if word == ID_FRAME {
        out := Ack(ID_ACK);
      } else if word == WAIT_FRAME {
        out := Ack(WAIT_ACK);
      } else if At(word, 0) != Some(LIVE_CODE) && At(word, 0) != Some(DB_CODE) {
        out := InvalidType(At(word, 0));
      } else {
        var checksum := ComputeChecksum(word);
        if At(word, 10) != Some(checksum) {
          out := BadChecksum(At(word, 10), checksum);
        } else {
          var data := DecodeWord(word);
          if data.month < 0 || data.month > 12 {
            data := data.(month := lastValidMonth);
          } else {
            lastValidMonth := data.month;
          }
          if data.isLiveData {
            out := Live(data);
          } else {
            out := Db(data);
          }
        }
      }
    }

    /** The `'data'` handler: the slices at offsets 0, 11, 22, ... are
        processed in order while `i < frame.length / 11` in real
        arithmetic; the last slice is clamped to the end of the chunk. */
    method ProcessChunk(frame: seq<Byte>) returns (outs: seq<Outcome>)
      requires Valid()
      modifies this
      ensures Valid()
      ensures var r := RunChunk(old(lastValidMonth), frame);
        outs == r.outcomes && lastValidMonth == r.lastValidMonth
    {
      ghost var total := RunChunk(lastValidMonth, frame);
      outs := [];
      var i := 0;
      while i * WORD_LENGTH < |frame|
        invariant Valid()
        invariant var rest := RunChunk(lastValidMonth, frame[Min(i * WORD_LENGTH, |frame|)..]);
          outs + rest.outcomes == total.outcomes && rest.lastValidMonth == total.lastValidMonth
        decreases |frame| - i * WORD_LENGTH
      {
        var word := Slice(frame, i);
        RunChunkFrom(lastValidMonth, frame, i * WORD_LENGTH);
        var out := ProcessWord(word);
        outs := outs + [out];
        i := i + 1;
      }
      assert frame[Min(i * WORD_LENGTH, |frame|)..] == [];
    }
  }
}
