# OWL CM160 protocol core in Dafny

This project models the protocol core of the `node-owlusb` driver for the OWL CM160
home energy monitor. The driver receives byte chunks from a USB-to-serial bridge and
cuts each chunk into 11-byte words. A word that equals the `ID` or `WAIT` handshake
frame is answered with one acknowledgement byte (`0x5A` or `0xA5`). Any other word is
treated as a data word and passes through two checks: the type byte must be LIVE
(`0x51`) or DB (`0x59`), and the trailing byte must equal the sum of bytes 0..9
modulo 256. An accepted word is decoded into an energy-usage record. Its month is
corrected using the decoder's one piece of mutable state, `last_valid_month`, and the
record is emitted on the `live` or `db` channel.

Files and modules:

- `owl_protocol.dfy` (module `OwlProtocol`) holds the value-level parts: the frame
  constants, `Record`, and `Outcome`, which replaces the side effects with values:
  an ack write, a record on `live`/`db`, an invalid type byte, or a checksum mismatch.
  It also holds the checksum specification `Sum`/`WordChecksum`, the integer fields of
  `decodeWord` (`DecodeWord`) and its inverse `EncodeWord` (the device side).
  `WordStep` is the meaning of one `processWord` call as a function of
  `last_valid_month` and the word. The lemmas after it state what that means.
- `owl_chunk.dfy` (module `OwlChunk`) holds `RunChunk`, the meaning of the `'data'`
  handler. Its lemmas cover: how many words a chunk yields, the order they are processed
  in, where records can come from, the trailing short slice, and the month invariant
  over a whole chunk.
- `owl_usb.dfy` (module `OwlUsb`) holds the imperative part: the class `OwlDecoder`
  with field `lastValidMonth`, and its methods `ProcessWord` and `ProcessChunk`,
  proved against `WordStep` and `RunChunk`. It also holds the checksum loop
  `ComputeChecksum`.

Bytes are `int`s in `0..255` (the subset type `Byte`). A word or chunk is a
`seq<Byte>`. A JavaScript `Buffer` read past its end gives `undefined`; this is
modelled by `At`, which returns an `Option`. Two consequences follow the code exactly:

- If a word has fewer than ten bytes, the checksum loop adds `undefined`, so the sum
  becomes `NaN`. `NaN & 0xff` is 0, so the computed checksum is 0.
- If byte 10 is missing, it never equals the computed checksum, so the word is reported
  as a checksum mismatch.

The sum of ten bytes is at most 2550. So `processWord`'s `checksum &= 0xff` is the same
as the remainder modulo 256 used here (`Sum` carries that bound).

The word count `frame.length / wordLength` is real division in JavaScript, not integer
division, so the `'data'` loop runs ceil(L / 11) times for a chunk of L bytes.
`Buffer.slice` clamps the last slice to the end of the chunk, so a chunk whose length is
not a multiple of 11 passes a 1- to 10-byte slice to `processWord`.
`TrailingSliceRejected` proves that this pass is always a word error: it emits no
record and leaves `last_valid_month` unchanged.

`modules/owlusb.js` is an older copy of `src/modules/owlusb.ts`, and the same model
covers both. Its lines match the TypeScript ones as follows:

- frame codes: 9-14 (TypeScript 10-15)
- `last_valid_month` initialisation: 66 (TypeScript 69)
- `'data'` handler: 67-73 (TypeScript 70-76)
- `processWord`: 77-121 (TypeScript 80-124)
- integer fields of `decodeWord`: 123-133 (TypeScript 126-138)

The two copies differ only in how the floating-point fields are computed and
formatted, and those fields are left out.

## Model

| member | source | states |
|---|---|---|
| `OwlProtocol.Sum` | src/modules/owlusb.ts:100-104 | the byte sum is at most 255 per byte, so masking it to 8 bits equals taking it modulo 256 |
| `OwlProtocol.DecodeWord` | src/modules/owlusb.ts:126-138 | every decoded integer field fits the wire layout (addr 0, year 2000..2255, bytes for month/day/hour/min, 16-bit cost and amps); `isLiveData` holds exactly when the type byte is LIVE |
| `OwlProtocol.EncodeWord` | src/modules/owlusb.ts:94-109 | the device-side word for a record is 11 bytes long, has a known type byte and a matching checksum, so `processWord` accepts it as data |
| `OwlProtocol.HandshakeAcknowledged` | src/modules/owlusb.ts:81-92 | exactly the `ID` and `WAIT` frames are acknowledged; `ID` gets `0x5A` and `WAIT` gets `0xA5`; neither emits a record or changes `last_valid_month` |
| `OwlProtocol.WordErrors` | src/modules/owlusb.ts:94-108 | a non-handshake word without a LIVE/DB type byte is an invalid-type error carrying byte 0; a typed word whose trailing byte is not the sum of bytes 0..9 mod 256 is a checksum error carrying byte 10 and the computed sum; neither changes `last_valid_month` |
| `OwlProtocol.RecordsFromDataWords` | src/modules/owlusb.ts:109-121 | a record is emitted exactly for an accepted data word; it goes to `live` iff the type byte is `0x51` and to `db` iff it is `0x59`; every field except the month is the raw decode of the word |
| `OwlProtocol.MonthCorrection` | src/modules/owlusb.ts:110-114 | an in-range month byte (0..12) is kept and becomes the new `last_valid_month`; an out-of-range byte is replaced by `last_valid_month`, which stays; the state changes only through an accepted word |
| `OwlProtocol.MonthStaysInRange` | src/modules/owlusb.ts:111-114 | starting from a state in [0,12], the state stays in [0,12] and every emitted record's month is in [0,12] |
| `OwlProtocol.DecodeEncode` | src/modules/owlusb.ts:126-138 | decoding the word that encodes a representable record gives back that record |
| `OwlProtocol.EncodeDecode` | src/modules/owlusb.ts:126-138 | an accepted 11-byte data word is re-encoded byte for byte from its raw decode: the decode loses nothing |
| `OwlProtocol.EncodedWordAccepted` | src/modules/owlusb.ts:94-121 | a record sent by the device comes out on its own channel, unchanged except that an out-of-range month becomes `last_valid_month`; the new state is the record's month when in range, else unchanged |
| `OwlProtocol.SumUpdate` | src/modules/owlusb.ts:100-104 | replacing one byte changes the byte sum by exactly the difference |
| `OwlProtocol.HandshakesCarryChecksums` | src/modules/owlusb.ts:11-12 | the `ID` and `WAIT` frames start with `0xA9` and end with the sum of their bytes 0..9 mod 256, so only their full contents tell them apart from a data word |
| `OwlProtocol.PayloadCorruptionDetected` | src/modules/owlusb.ts:81-108 | changing any single byte among bytes 0..9 of an accepted data word makes it neither an acknowledged handshake nor a record: it becomes an invalid-type or checksum error, with `last_valid_month` unchanged |
| `OwlProtocol.TrailerCorruptionDetected` | src/modules/owlusb.ts:105-108 | a data word with a wrong trailing byte is a checksum error carrying that byte and the true sum, with the state unchanged |
| `OwlProtocol.ShortWordRejected` | src/modules/owlusb.ts:81-108 | a slice shorter than 11 bytes is never a handshake and never accepted: it is an invalid-type or checksum error and leaves the state unchanged |
| `OwlChunk.Slice` | src/modules/owlusb.ts:73 | the slice at offset 11·i of a chunk is non-empty and at most 11 bytes long |
| `OwlChunk.RunChunkLength` | src/modules/owlusb.ts:71-72 | a chunk of L bytes yields exactly ceil(L / 11) outcomes, one per loop pass: a rejected word never stops the loop |
| `OwlChunk.RunChunkMonthInRange` | src/modules/owlusb.ts:70-76 | over a whole chunk, the month state stays in [0,12] and every emitted record's month is in [0,12] |
| `OwlChunk.RunChunkFrom` | src/modules/owlusb.ts:72-74 | one loop pass processes the slice at the current offset and continues from the end of that slice with the state it leaves |
| `OwlChunk.RunChunkAppend` | src/modules/owlusb.ts:70-76 | when the first chunk is whole words, processing two chunks back to back equals processing their concatenation: its outcomes come first, and the second chunk starts from the state it leaves |
| `OwlChunk.RunChunkSplit` | src/modules/owlusb.ts:72-75 | cutting a chunk after j whole words: the first j words are processed first, and the rest continues from the state they leave |
| `OwlChunk.RunChunkAt` | src/modules/owlusb.ts:72-75 | outcome i of a chunk is `processWord` applied to the slice at offset 11·i, in the state left by words 0..i-1, whatever became of them |
| `OwlChunk.ChunkRecordsAreDataWords` | src/modules/owlusb.ts:72-75 | every record emitted for a chunk comes from a complete 11-byte slice that is an accepted data word |
| `OwlChunk.TrailingSliceRejected` | src/modules/owlusb.ts:71-74 | when L is not a multiple of 11, the outcomes are those of the whole words plus one more, which is a word error, and the final state is what the whole words left |
| `OwlUsb.ComputeChecksum` | src/modules/owlusb.ts:100-104 | the checksum loop computes the sum of bytes 0..9 modulo 256, or 0 when a missing byte makes the sum NaN |
| `OwlUsb.OwlDecoder.constructor` | src/modules/owlusb.ts:69 | a new decoder starts with `last_valid_month` 0, which is in range |
| `OwlUsb.OwlDecoder.ProcessWord` | src/modules/owlusb.ts:80-124 | returns the outcome of `WordStep` for the current state, sets `last_valid_month` to the state it leaves, and keeps it in [0,12] |
| `OwlUsb.OwlDecoder.ProcessChunk` | src/modules/owlusb.ts:70-76 | loops while 11·i < L over the clamped slices, returns the outcomes of `RunChunk` in order, and leaves its final state in `last_valid_month` |

## Left out

- USB and CP2102 bridge setup is not modelled: the vendor and device ids, the baud rate, the endpoint options, the vendor control-transfer table, the baud-rate buffer, and the construction of `connection` (src/modules/owlusb.ts:5-6, 8, 17-59, 68); the word length on line 7 is kept as `WORD_LENGTH`. They belong to an external driver whose code is not part of this model.
- `src/decs.d.ts` is not part of this model. It only declares the types of the external `cp2102` library.
- Acknowledgement writes are returned as `Ack` outcomes. The asynchronous `connection.write` and its error callback, which logs a failed write, are left out.
- `EventEmitter.emit` is not modelled. The `live` and `db` emissions are returned as `Live` and `Db` outcomes.
- The `'ready'` handler is left out.
- `console` logging is left out, including the byte dump for an invalid type byte. Instead, the `InvalidType` and `BadChecksum` outcomes carry the values the log lines print.
- `processWord` returns -1 on a word error and nothing otherwise. That return value is not modelled separately: the kind of outcome already carries it.
- The floating-point fields of `decodeWord` are left out because they are floating point: cost divided by 100 and rounded, amps times 0.07, watts, amp-hours and watt-hours, and the `toFixed` strings in modules/owlusb.js. `Record` keeps the exact integers they are computed from: cost in cents (`costCents`) and the raw amps reading (`ampsRaw`).
- The `async` keyword on the data handler is not modelled. Its body runs synchronously, word after word, which `ProcessChunk` models.
- `Buffer.slice` returns a view that shares memory with the chunk. Words are modelled as values because `processWord` never writes to a word.
