/** The OWL CM160 wire protocol: 11-byte words, the two handshake frames,
    data-word validation (type byte and sum-mod-256 checksum), the integer
    fields of a decoded record and the month-correction rule.  `WordStep` is
    the value-level meaning of one call of `processWord`; the class in module
    OwlUsb is proved against it. */
module OwlProtocol {

  datatype Option<T> = None | Some(value: T)

  type Byte = b: int | 0 <= b < 256

  const WORD_LENGTH: nat := 11

  /** Handshake frame sent by the device to announce itself. */
  const ID_FRAME: seq<Byte> := [0xA9, 0x49, 0x44, 0x54, 0x43, 0x4D, 0x56, 0x30, 0x30, 0x31, 0x01]
  /** Handshake frame sent by the device to ask for a delay before data. */
  const WAIT_FRAME: seq<Byte> := [0xA9, 0x49, 0x44, 0x54, 0x57, 0x41, 0x49, 0x54, 0x50, 0x43, 0x52]

  /** Type byte of a live reading and of a stored (history) record. */
  const LIVE_CODE: Byte := 0x51
  const DB_CODE: Byte := 0x59

  /** Acknowledgement bytes written back for ID and WAIT. */
  const ID_ACK: Byte := 0x5A
  const WAIT_ACK: Byte := 0xA5

  /** The integer part of a decoded energy-usage record.  `costCents` is the
      little-endian cost in hundredths and `ampsRaw` the little-endian raw
      current reading; the floating-point quantities derived from them are
      not part of this model. */
  datatype Record = Record(
    addr: int,
    year: int,
    month: int,
    day: int,
    hour: int,
    min: int,
    costCents: int,
    ampsRaw: int,
    isLiveData: bool)

  /** What one word leads to: an acknowledgement write, a record emitted on
      the `live` or `db` channel, or one of the two word errors. */
  datatype Outcome =
    | Ack(ackByte: Byte)
    | Live(rec: Record)
    | Db(rec: Record)
    | InvalidType(typeByte: Option<Byte>)
    | BadChecksum(expected: Option<Byte>, got: Byte)
  {
    predicate IsRecord() { Live? || Db? }
  }

  /** The outcome of one word and the decoder's `last_valid_month` after it. */
  datatype Transition = Transition(outcome: Outcome, lastValidMonth: int)

  predicate MonthInRange(m: int) { 0 <= m <= 12 }

  /** Reading index `i` of a JavaScript Buffer: `undefined` past the end. */
  function At(word: seq<Byte>, i: nat): (b: Option<Byte>)
  {
    if i < |word| then Some(word[i]) else None
  }

  /** Sum of a byte sequence, accumulated left to right.  The bound shows that
      the sum of ten bytes stays far inside 32-bit range, so `processWord`'s
      `checksum &= 0xff` is the same as taking the sum modulo 256. */
  function Sum(s: seq<Byte>): (r: nat)
    ensures r <= 255 * |s|
  {
    if |s| == 0 then 0 else Sum(s[..|s| - 1]) + s[|s| - 1]
  }

  /** The checksum `processWord` computes over bytes 0..9.  When the word is
      shorter than ten bytes a missing byte turns the running sum into NaN,
      and NaN & 0xff is 0. */
  function WordChecksum(word: seq<Byte>): (c: Byte)
  {
    if |word| < 10 then 0 else Sum(word[..10]) % 256
  }

  predicate IsHandshake(word: seq<Byte>)
  {
    word == ID_FRAME || word == WAIT_FRAME
  }

  predicate HasTypeCode(word: seq<Byte>)
  {
    |word| > 0 && (word[0] == LIVE_CODE || word[0] == DB_CODE)
  }

  predicate ChecksumMatches(word: seq<Byte>)
  {
    |word| >= WORD_LENGTH && Sum(word[..10]) % 256 == word[10]
  }

  /** A word the decoder accepts as data: a known type byte and a trailing
      byte equal to the sum of bytes 0..9 modulo 256. */
  predicate IsDataWord(word: seq<Byte>)
  {
    HasTypeCode(word) && ChecksumMatches(word)
  }

  /** Records whose fields fit the wire layout of a data word. */
  predicate WireRepresentable(rec: Record)
  {
    && rec.addr == 0
    && 2000 <= rec.year < 2256
    && 0 <= rec.month < 256 && 0 <= rec.day < 256
    && 0 <= rec.hour < 256 && 0 <= rec.min < 256
    && 0 <= rec.costCents < 0x1_0000 && 0 <= rec.ampsRaw < 0x1_0000
  }

  /** The integer fields of `decodeWord`: plain byte projections and two
      little-endian 16-bit values.  The month here is the raw byte, before
      correction. */
  function DecodeWord(word: seq<Byte>): (rec: Record)
    requires |word| >= 10
    ensures WireRepresentable(rec)
    ensures rec.isLiveData <==> word[0] == LIVE_CODE
  {
    Record(
      addr := 0,
      year := word[1] as int + 2000,
      month := word[2],
      day := word[3],
      hour := word[4],
      min := word[5],
      costCents := word[6] as int + word[7] as int * 256,
      ampsRaw := word[8] as int + word[9] as int * 256,
      isLiveData := word[0] == LIVE_CODE)
  }

  /** The device side: the data word that carries `rec`. */
  function EncodeWord(rec: Record): (word: seq<Byte>)
    requires WireRepresentable(rec)
    ensures |word| == WORD_LENGTH
    ensures IsDataWord(word)
  {
    var payload: seq<Byte> := [
      if rec.isLiveData then LIVE_CODE else DB_CODE,
      rec.year - 2000, rec.month, rec.day, rec.hour, rec.min,
      rec.costCents % 256, rec.costCents / 256,
      rec.ampsRaw % 256, rec.ampsRaw / 256];
    assert (payload + [Sum(payload) % 256])[..10] == payload;
    payload + [Sum(payload) % 256]
  }

  /** One call of `processWord` with `last_valid_month` equal to
      `lastValidMonth`: the handshake comparisons, the type-byte check, the
      checksum check, then decoding, month correction and the channel.  What
      it means is stated by the lemmas that follow it. */
  function WordStep(lastValidMonth: int, word: seq<Byte>): (t: Transition)
  {
    if word == ID_FRAME then
      Transition(Ack(ID_ACK), lastValidMonth)
    else if word == WAIT_FRAME then
      Transition(Ack(WAIT_ACK), lastValidMonth)
    else if At(word, 0) != Some(LIVE_CODE) && At(word, 0) != Some(DB_CODE) then
      Transition(InvalidType(At(word, 0)), lastValidMonth)
    else
      var checksum := WordChecksum(word);
      if At(word, 10) != Some(checksum) then
        Transition(BadChecksum(At(word, 10), checksum), lastValidMonth)
      else
        var raw := DecodeWord(word);
        var data := if raw.month < 0 || raw.month > 12 then raw.(month := lastValidMonth) else raw;
        var month := if raw.month < 0 || raw.month > 12 then lastValidMonth else raw.month;
        Transition(if data.isLiveData then Live(data) else Db(data), month)
  }

  /** Exactly the two handshake frames are acknowledged, each with its own
      byte; an acknowledgement emits no record and leaves the month state. */
  lemma HandshakeAcknowledged(lastValidMonth: int, word: seq<Byte>)
    ensures var t := WordStep(lastValidMonth, word);
      && (t.outcome.Ack? <==> IsHandshake(word))
      && (word == ID_FRAME ==> t == Transition(Ack(ID_ACK), lastValidMonth))
      && (word == WAIT_FRAME ==> t == Transition(Ack(WAIT_ACK), lastValidMonth))
  {
  }

  /** The two word errors: a bad type byte is reported before the checksum
      is looked at, a checksum mismatch only for a known type byte.  Neither
      changes the month state. */
  lemma WordErrors(lastValidMonth: int, word: seq<Byte>)
    ensures var t := WordStep(lastValidMonth, word);
      && (t.outcome.InvalidType? <==> !IsHandshake(word) && !HasTypeCode(word))
      && (t.outcome.InvalidType? ==> t.outcome.typeByte == At(word, 0))
      && (t.outcome.BadChecksum? <==> HasTypeCode(word) && !ChecksumMatches(word))
      && (t.outcome.BadChecksum? ==> t.outcome.expected == At(word, 10) && t.outcome.got == WordChecksum(word))
      && (t.outcome.InvalidType? || t.outcome.BadChecksum? ==> t.lastValidMonth == lastValidMonth)
  {
  }

  /** A record is emitted exactly for an accepted data word, on the `live`
      channel for the live type byte and on `db` for the other, and all its
      fields but the month are the raw decode of the word. */
  lemma RecordsFromDataWords(lastValidMonth: int, word: seq<Byte>)
    ensures var t := WordStep(lastValidMonth, word);
      && (t.outcome.IsRecord() <==> IsDataWord(word))
      && (t.outcome.Live? <==> IsDataWord(word) && word[0] == LIVE_CODE)
      && (t.outcome.Db? <==> IsDataWord(word) && word[0] == DB_CODE)
      && (t.outcome.IsRecord() ==> t.outcome.rec == DecodeWord(word).(month := t.outcome.rec.month))
  {
  }

  /** Month correction: an in-range month byte is kept and becomes the new
      state; an out-of-range one is replaced by the state, which stays.  The
      state changes only through an accepted word with an in-range month. */
  lemma MonthCorrection(lastValidMonth: int, word: seq<Byte>)
    ensures var t := WordStep(lastValidMonth, word);
      && (t.outcome.IsRecord() && MonthInRange(word[2]) ==>
            t.outcome.rec.month == word[2] && t.lastValidMonth == word[2])
      && (t.outcome.IsRecord() && !MonthInRange(word[2]) ==>
            t.outcome.rec.month == lastValidMonth && t.lastValidMonth == lastValidMonth)
      && (t.lastValidMonth != lastValidMonth ==> IsDataWord(word) && t.lastValidMonth == word[2])
  {
  }

  /** The month invariant: from an in-range state the state stays in range
      and every emitted record has an in-range month. */
  lemma MonthStaysInRange(lastValidMonth: int, word: seq<Byte>)
    requires MonthInRange(lastValidMonth)
    ensures var t := WordStep(lastValidMonth, word);
      && MonthInRange(t.lastValidMonth)
      && (t.outcome.IsRecord() ==> MonthInRange(t.outcome.rec.month))
  {
  }

  /** Decoding undoes encoding. */
  lemma DecodeEncode(rec: Record)
    requires WireRepresentable(rec)
    ensures DecodeWord(EncodeWord(rec)) == rec
  {
  }

  /** Encoding undoes decoding: an accepted 11-byte data word is determined
      by its raw record. */
  lemma EncodeDecode(word: seq<Byte>)
    requires |word| == WORD_LENGTH && IsDataWord(word)
    ensures EncodeWord(DecodeWord(word)) == word
  {
    var rec := DecodeWord(word);
    var encoded := EncodeWord(rec);
    LittleEndian16(word[6], word[7]);
    LittleEndian16(word[8], word[9]);
    assert encoded[..10] == word[..10];
    assert encoded == encoded[..10] + [encoded[10]];
    assert word == word[..10] + [word[10]];
  }

  lemma LittleEndian16(lo: Byte, hi: Byte)
    ensures (lo + hi * 256) % 256 == lo && (lo + hi * 256) / 256 == hi
  {
  }

  /** A record sent by the device comes out unchanged on its channel; its
      month is corrected to `lastValidMonth` only when it is out of range. */
  lemma EncodedWordAccepted(lastValidMonth: int, rec: Record)
    requires WireRepresentable(rec)
    ensures var t := WordStep(lastValidMonth, EncodeWord(rec));
      var expected := if MonthInRange(rec.month) then rec else rec.(month := lastValidMonth);
      && t.outcome == (if rec.isLiveData then Live(expected) else Db(expected))
      && t.lastValidMonth == (if MonthInRange(rec.month) then rec.month else lastValidMonth)
  {
    DecodeEncode(rec);
    RecordsFromDataWords(lastValidMonth, EncodeWord(rec));
  }

  /** Replacing one byte changes the sum by exactly the difference. */
  lemma {:induction false} SumUpdate(s: seq<Byte>, i: nat, b: Byte)
    requires i < |s|
    ensures Sum(s[i := b]) == Sum(s) - s[i] + b
  {
    var n := |s| - 1;
    assert s[i := b][..n] == if i < n then s[..n][i := b] else s[..n];
    if i < n {
      SumUpdate(s[..n], i, b);
    }
  }

  /** Both handshake frames carry a valid checksum, so only their type byte
      (0xA9) keeps them from being taken for data. */
  lemma HandshakesCarryChecksums()
    ensures ChecksumMatches(ID_FRAME) && ID_FRAME[0] == 0xA9
    ensures ChecksumMatches(WAIT_FRAME) && WAIT_FRAME[0] == 0xA9
  {
    var id := ID_FRAME[..10];
    SumOfPrefixes(id);
    assert id[..0] == [];
    assert Sum(id[..10]) == 769 by {
      assert Sum(id[..1]) == 0xA9;
      assert Sum(id[..2]) == 0xA9 + 0x49;
      assert Sum(id[..3]) == 0xA9 + 0x49 + 0x44;
      assert Sum(id[..4]) == 0xA9 + 0x49 + 0x44 + 0x54;
      assert Sum(id[..5]) == 0xA9 + 0x49 + 0x44 + 0x54 + 0x43;
      assert Sum(id[..6]) == 0xA9 + 0x49 + 0x44 + 0x54 + 0x43 + 0x4D;
      assert Sum(id[..7]) == 0xA9 + 0x49 + 0x44 + 0x54 + 0x43 + 0x4D + 0x56;
      assert Sum(id[..8]) == 0xA9 + 0x49 + 0x44 + 0x54 + 0x43 + 0x4D + 0x56 + 0x30;
      assert Sum(id[..9]) == 0xA9 + 0x49 + 0x44 + 0x54 + 0x43 + 0x4D + 0x56 + 0x30 + 0x30;
      assert Sum(id[..10]) == 0xA9 + 0x49 + 0x44 + 0x54 + 0x43 + 0x4D + 0x56 + 0x30 + 0x30 + 0x31;
    }
    assert id[..10] == id;
    var wait := WAIT_FRAME[..10];
    SumOfPrefixes(wait);
    assert wait[..0] == [];
    assert Sum(wait[..10]) == 850 by {
      assert Sum(wait[..1]) == 0xA9;
      assert Sum(wait[..2]) == 0xA9 + 0x49;
      assert Sum(wait[..3]) == 0xA9 + 0x49 + 0x44;
      assert Sum(wait[..4]) == 0xA9 + 0x49 + 0x44 + 0x54;
      assert Sum(wait[..5]) == 0xA9 + 0x49 + 0x44 + 0x54 + 0x57;
      assert Sum(wait[..6]) == 0xA9 + 0x49 + 0x44 + 0x54 + 0x57 + 0x41;
      assert Sum(wait[..7]) == 0xA9 + 0x49 + 0x44 + 0x54 + 0x57 + 0x41 + 0x49;
      assert Sum(wait[..8]) == 0xA9 + 0x49 + 0x44 + 0x54 + 0x57 + 0x41 + 0x49 + 0x54;
      assert Sum(wait[..9]) == 0xA9 + 0x49 + 0x44 + 0x54 + 0x57 + 0x41 + 0x49 + 0x54 + 0x50;
      assert Sum(wait[..10]) == 0xA9 + 0x49 + 0x44 + 0x54 + 0x57 + 0x41 + 0x49 + 0x54 + 0x50 + 0x43;
    }
    assert wait[..10] == wait;
  }

  /** Adding one more byte of a sequence to a prefix sum. */
  lemma SumOfPrefixes(s: seq<Byte>)
    ensures forall k :: 0 < k <= |s| ==> Sum(s[..k]) == Sum(s[..k - 1]) + s[k - 1]
  {
    forall k | 0 < k <= |s|
      ensures Sum(s[..k]) == Sum(s[..k - 1]) + s[k - 1]
    {
      assert s[..k][..k - 1] == s[..k - 1];
    }
  }

  /** The checksum detects every change of a single byte among bytes 0..9:
      the changed word is never acknowledged and never yields a record; it is
      one of the two word errors and leaves the month state alone. */
  lemma PayloadCorruptionDetected(lastValidMonth: int, word: seq<Byte>, i: nat, b: Byte)
    requires IsDataWord(word) && i < 10 && b != word[i]
    ensures var t := WordStep(lastValidMonth, word[i := b]);
      && (t.outcome.InvalidType? || t.outcome.BadChecksum?)
      && t.lastValidMonth == lastValidMonth
  {
    var w := word[i := b];
    assert w[..10] == word[..10][i := b];
    SumUpdate(word[..10], i, b);
    assert w[10] == word[10];
    assert !ChecksumMatches(w);
    HandshakesCarryChecksums();
    assert !IsHandshake(w);
    HandshakeAcknowledged(lastValidMonth, w);
    RecordsFromDataWords(lastValidMonth, w);
    WordErrors(lastValidMonth, w);
  }

  /** A word whose trailing byte is not the checksum of bytes 0..9 is reported
      as a checksum mismatch carrying that byte and the computed sum. */
  lemma TrailerCorruptionDetected(lastValidMonth: int, word: seq<Byte>, b: Byte)
    requires IsDataWord(word) && |word| == WORD_LENGTH && b != word[10]
    ensures WordStep(lastValidMonth, word[10 := b])
      == Transition(BadChecksum(Some(b), word[10]), lastValidMonth)
  {
    assert word[10 := b][..10] == word[..10];
  }

  /** A slice shorter than a word is never a handshake and never accepted:
      byte 10 is missing, so at best it fails the checksum. */
  lemma ShortWordRejected(lastValidMonth: int, word: seq<Byte>)
    requires |word| < WORD_LENGTH
    ensures var t := WordStep(lastValidMonth, word);
      && (t.outcome.InvalidType? || t.outcome.BadChecksum?)
      && t.lastValidMonth == lastValidMonth
  {
    WordErrors(lastValidMonth, word);
  }
}
