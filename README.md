# Pikmin 2 conductor file decoder, modelled in Dafny

This project models the decoder of Pikmin 2 "conductor" (`.cnd`) files in `src/conductor.rs`.
A conductor file holds a tempo header and a list of track records for the game's music
sequencer. The decoder turns its bytes into a `Conductor` (`louie_swing`, `bpm`, `track_count`
and the `Track`s).

The file layout:

- bytes 0, 1 and 2 are `louie_swing`, `bpm` and `track_count`;
- 21 reserved bytes follow;
- from offset 24 there is one 60-byte entry per track: a 36-byte record body and then a
  24-byte trailer. The body of track `i` starts at `24 + 60 * i` (`Conductors.BodyOffset`).

The project has these modules:

- `Bytes` (`bytes.dfy`) holds Rust's `u8` and `i8` and the casts between them. It also has
  checked `u8` addition and `i8` subtraction.
- `Outcomes` (`bytes.dfy`) says how a call ends: a value, an error returned through `Result`,
  or a panic. The I/O errors are kept abstract. The bank error carries its 1-based track number.
- `Utf8` (`utf8.dfy`) defines well-formed UTF-8 with the byte grammar of section 4 of RFC 3629.
  That is the set of byte strings `std::str::from_utf8` accepts. Beside the grammar sits the
  encoder of section 3 of the RFC. Lemmas prove that the grammar accepts exactly the encodings
  of the Unicode scalar values.
- `Streams` (`stream.dfy`) is the byte source. It is a class with the bytes, a read position and
  a seek mode, and its methods are `read_exact`, `seek(SeekFrom::Current(k))` and
  `Cursor::set_position`. Rust's `File` and `Cursor` let a seek go past the end
  (`PastEndAllowed`); a short file then shows up only at the next read. The mode
  `PastEndFails` describes a source that refuses such a seek. That mode is the only way the
  `break` at `src/conductor.rs:35-38` can run.
- `Tracks` (`track.dfy`) holds `Bank`, `Track`, the record layout `DecodeRecord` and
  `FromBytes`. `FromBytes` is `Track::from_bytes` as written, with a cursor, and it is proved
  equal to `DecodeRecord`. The module also has `Description` (`Track::description`), built on a
  model of `slice::split`.
- `Conductors` (`conductor.dfy`) holds `Decode`, the whole decode as a function, and
  `FromFile`. `FromFile` is `Conductor::from_file` as written, with its loop, and it is proved
  equal to `Decode`. The lemmas about `Decode` state the layout, the file order, the bound on
  the number of tracks, the tolerated trailer truncation and every error and panic.

Arithmetic overflow follows a Rust debug build. Overflow panics, and the model gives it as a
`Panic` outcome.

Three behaviours of the code are worth stating outright:

- Panning is `(raw as i8) - 64` (`src/conductor.rs:121`), not an add-64 wrap-around reading of
  the byte. The `i8` subtraction overflows for raw bytes 128..191.
  `Tracks.PanningDiffersFromWrapping` proves that the two readings never agree.
- A zero `track_count` is not an error. The loop runs no times, and
  `NonZeroU8::new(0).unwrap()` panics (`src/conductor.rs:44`).
- The track count is not checked before the 21-byte skip. A short header skip on a
  `PastEndFails` stream therefore fails first, whatever the count is.

## Model

| member | source | states |
|---|---|---|
| `Bytes.AsI8` | src/conductor.rs:119 | `x as i8` is the unique `i8` congruent to the byte modulo 256, and it is negative exactly when the byte is at least 128 |
| `Bytes.AsU8` | src/conductor.rs:119 | `y as u8` is the unique `u8` congruent to `y` modulo 256 |
| `Bytes.ReinterpretRoundTrip` | src/conductor.rs:119 | the two reinterpretations are inverse bijections between `u8` and `i8` |
| `Bytes.CheckedAddU8` | src/conductor.rs:102 | `track_nr + 1` in a debug build gives the true sum exactly when it fits in a `u8`, and overflows otherwise |
| `Bytes.CheckedSubI8` | src/conductor.rs:121 | `- 64` on an `i8` gives the true difference exactly when it fits in an `i8`, and overflows otherwise |
| `Utf8.CharWidth` | src/conductor.rs:130 | the width of the leading UTF-8 character is at most 4 and fits in the input, and it is 1 exactly for an ASCII lead byte |
| `Utf8.AsciiIsValid` | src/conductor.rs:130 | every ASCII byte string is accepted by `from_utf8` |
| `Utf8.ValidConcat` | src/conductor.rs:130 | well-formed UTF-8 is closed under concatenation |
| `Utf8.LeadingTailIsInvalid` | src/conductor.rs:130 | a string that starts with a continuation byte is rejected |
| `Utf8.ValidExcludesNeverInUtf8` | src/conductor.rs:130 | well-formed UTF-8 contains no byte C0, C1 or F5-FF at any position |
| `Utf8.EncodeIsOneChar` | src/conductor.rs:130 | the encoding of every scalar value is read as one character of its own length, whatever follows |
| `Utf8.CharIsEncoding` | src/conductor.rs:130 | every character the grammar accepts is the encoding of a scalar value, `DecodeChar` of it, and of no other |
| `Utf8.DecodeEncode` | src/conductor.rs:130 | decoding the encoding of a scalar value gives it back, so the encoder is one to one |
| `Utf8.EncodingsAreValid` | src/conductor.rs:130 | `ValidUtf8`, the acceptance test of `from_utf8`, holds of every string of encoded scalar values |
| `Utf8.ValidIsEncodings` | src/conductor.rs:130 | every string `ValidUtf8` accepts is the encoding of the scalar values it decodes to, so with `EncodingsAreValid` it accepts exactly the strings of encoded scalar values |
| `Streams.Reader.constructor` | src/conductor.rs:19-20 | a new reader over the file's bytes starts at position 0 |
| `Streams.Reader.ReadExact` | src/conductor.rs:22 | `read_exact(n)` returns the next `n` bytes and advances by `n`, or fails with `UnexpectedEof` when fewer remain |
| `Streams.Reader.SeekCurrent` | src/conductor.rs:26 | `seek(Current(k))` advances by `k`, or fails and stays put when the stream refuses a position past its end |
| `Streams.Reader.SetPosition` | src/conductor.rs:88 | `set_position` moves the cursor to any position |
| `Tracks.BankBijection` | src/conductor.rs:95-103 | the `match bank_byte` (`Tracks.BankFromByte`) maps bytes 0-5 one to one onto the six banks in declaration order, and refuses every byte of 6 or more |
| `Tracks.FromBytes` | src/conductor.rs:71-123 | the cursor-based decode equals the fixed-offset record layout `DecodeRecord` for every record and track number |
| `Tracks.RecordOutcomes` | src/conductor.rs:95-103 | a record decode never fails on a read; it is an error exactly when the bank byte is 6 or more and `track_nr < 255`, naming track `track_nr + 1`; it panics exactly on that addition's overflow or on a panning byte in 128..191 |
| `Tracks.RecordFields` | src/conductor.rs:105-122 | each field comes from its fixed offset; the three flags are true only for the exact byte 1; the bank's index is byte 22; the signed fields are the `i8` readings of bytes 31 and 33, the latter less 64 and within -128..63 |
| `Tracks.IgnoredBytesDoNotMatter` | src/conductor.rs:77-93 | records that differ only at offsets 0, 13-20, 24, 26, 30 and 35 decode alike |
| `Tracks.PanningRange` | src/conductor.rs:121 | `(raw as i8) - 64` overflows exactly for raw 128..191 and otherwise lies in -128..63 |
| `Tracks.PanningDiffersFromWrapping` | src/conductor.rs:121 | wherever it is defined, the code's panning is 128 apart (mod 256) from the wrap-around add-64 reading, so the two never agree |
| `Tracks.Split` | src/conductor.rs:127 | `split` always yields at least one run, so `next()` is never `None` |
| `Tracks.SplitJoin` | src/conductor.rs:127 | joining the runs of `split` with the separator gives back the buffer, and no run contains the separator |
| `Tracks.SplitFirst` | src/conductor.rs:127 | the first run of `split` is the bytes before the first separator, or the whole buffer if there is none |
| `Tracks.DescriptionSpec` | src/conductor.rs:125-133 | `Track::description` (`Tracks.Description`) is the bytes before the first 205 (or all eight) when they are well-formed UTF-8, and the placeholder otherwise; the `None` arm is never taken |
| `Tracks.DescriptionShape` | src/conductor.rs:125-133 | a description is the 35-byte placeholder or well-formed text of at most 8 bytes, free of 205, taken from the front of the buffer |
| `Tracks.AsciiDescription` | src/conductor.rs:130 | an ASCII text part is returned unchanged |
| `Tracks.CorruptDescription` | src/conductor.rs:126-130 | a byte that occurs in no UTF-8 text, before the first 205, gives the placeholder |
| `Tracks.DescriptionExamples` | src/conductor.rs:125-133 | worked cases: "ABC" before a 205 gives "ABC", eight ASCII letters give themselves, and a buffer with 0xFF gives the placeholder |
| `Tracks.PanningExamples` | src/conductor.rs:121 | worked cases: panning bytes 0x00 and 0x40 give -64 and 0, 0x80 overflows, and 0xFF gives -65 |
| `Conductors.ReadEntry` | src/conductor.rs:31-38 | one loop iteration reads the body of track `i`, decodes it with its index and skips the trailer, ending the loop exactly as the decode's step for track `i` does; the loop goes on only after a decoded track, at the next body |
| `Conductors.ReadTracks` | src/conductor.rs:27-39 | the `for` loop, with its early returns and its `break`, collects exactly what `DecodeTracks` gives from track 0 |
| `Conductors.FromFile` | src/conductor.rs:18-47 | the header read, the 21-byte skip, the loop and the `unwrap` compute exactly `Decode`, the decode as a function |
| `Conductors.TracksInFileOrder` | src/conductor.rs:29-39 | the loop's tracks are the records at `24 + 60 * i` in file order, each decoded with its own index, and there are at most as many as the remaining iterations |
| `Conductors.DecodeLayout` | src/conductor.rs:22-45 | a decoded conductor has bytes 0, 1 and 2 as `louie_swing`, `bpm` and `track_count`, and between 1 and `track_count` tracks, which are the file's records in order |
| `Conductors.TrackListComplete` | src/conductor.rs:29-39 | when no trailer skip can fail, a successful loop yields one track per iteration |
| `Conductors.CompleteTrackList` | src/conductor.rs:29-46 | a successful decode of a stream that holds every entry, or that allows seeking past its end, has exactly `track_count` tracks |
| `Conductors.CompleteDecodeSucceeds` | src/conductor.rs:18-47 | a stream that holds every record body, each decodable, and that allows seeking past its end or holds every trailer, decodes `Ok` to exactly `track_count` tracks |
| `Conductors.ShortListMeansCutTrailer` | src/conductor.rs:35-38 | the loop stops short only on a stream that refuses to seek past its end and that ends inside the last decoded track's trailer |
| `Conductors.TruncatedOnlyInTrailer` | src/conductor.rs:35-46 | a successful decode with fewer than `track_count` tracks comes only from a stream that ends inside the trailer of its last track |
| `Conductors.GoodRunThenRest` | src/conductor.rs:29-38 | after a run of good tracks the loop ends as it does from the first other track: the same error or panic, or that many more tracks |
| `Conductors.FirstBadTrackDecides` | src/conductor.rs:31-34 | the first bad track decides the decode: a short body gives `UnexpectedEof`, a bank byte of 6 or more gives the bank error naming track `k + 1`, and a panning byte in 128..191 panics |
| `Conductors.TrailerCutTolerated` | src/conductor.rs:35-38 | a stream that refuses to seek past its end and ends inside track `k - 1`'s trailer decodes successfully to `k` tracks |
| `Conductors.ZeroTrackCountPanics` | src/conductor.rs:44 | a zero track count panics at `unwrap` once the header has been read and skipped |
| `Conductors.HeaderFailures` | src/conductor.rs:22-26 | fewer than 3 bytes give `UnexpectedEof`; on a stream that refuses to seek past its end, fewer than 24 give `SeekFailed` |
| `Conductors.LoopErrors` | src/conductor.rs:29-34 | inside the loop (`Conductors.DecodeTracks`) `track_nr + 1` never overflows: a bank error names a track between `i + 1` and `track_count`, and the only panic is the panning one |
| `Conductors.DecodeErrors` | src/conductor.rs:18-47 | a bank error names an existing track, and the only panics of a decode are the panning overflow and the zero track count |

## Left out

- `src/main.rs` is not part of this model. It holds the egui interface, the file dialog,
  drag and drop, the worker thread and its channel, and window start-up. The label tables for
  louie swing and banks there are presentation only.
- `File::open` and the buffering of `BufReader` (`src/conductor.rs:19-20`) are left out. The
  opened file is its sequence of bytes, and a failure to open it is not modelled.
- I/O errors other than a short read and a refused seek are left out, and so is the text of
  the `std::io` error messages. The bank error keeps only its track number, not its wording.
- Overflow follows a debug build and panics. A release build wraps instead, and panning bytes
  128..191 would then decode to values that the model does not give.
- Positions are unbounded. The `u64` range of stream positions is not modelled.
- `Streams.Reader.ReadExact`: after a failed read the position is at the end of the stream.
  The standard library leaves this unspecified. The decoder aborts after any failed read, so
  this choice never shows in a result.
- `description()` returns a `&str` that borrows the buffer. The model returns its bytes. The
  buffer is a field of an immutable datatype value, so it cannot change.
- Decoding twice gives the same result because `Decode` is a function and `FromFile` is proved
  equal to it. No separate lemma states this.
