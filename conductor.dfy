/** A conductor file and `Conductor::from_file`: a 3-byte header, 21 reserved bytes, then one
    60-byte entry per track (a 36-byte record body and a 24-byte trailer). */
module Conductors {
  import opened Bytes
  import opened Outcomes
  import opened Streams
  import opened Tracks

  /** Rust `NonZeroU8`. */
  type NonZeroU8 = x: int | 1 <= x < 256 witness 1

  datatype Conductor = Conductor(
    louieSwing: U8,
    bpm: U8,
    trackCount: NonZeroU8,
    tracks: seq<Track>)

  const HeaderSize: nat := 3
  const ReservedSize: nat := 21
  const TrailerSize: nat := 24

  /** Where the body of track `i` starts. */
  function BodyOffset(i: nat): nat {
    HeaderSize + ReservedSize + (RecordSize + TrailerSize) * i
  }

  /** The body of track `i`. */
  function Body(data: seq<U8>, i: nat): seq<U8>
    requires BodyOffset(i) + RecordSize <= |data|
  {
    data[BodyOffset(i)..BodyOffset(i) + RecordSize]
  }

  /** `r` with `prefix` put in front of its track list, if it has one. */
  function Prepend(prefix: seq<Track>, r: Outcome<seq<Track>>): Outcome<seq<Track>> {
    match r
    case Ok(ts) => Ok(prefix + ts)
    case Err(e) => Err(e)
    case Panic(p) => Panic(p)
  }

  lemma PrependNothing(r: Outcome<seq<Track>>)
    ensures Prepend([], r) == r
  {
    if r.Ok? {
      assert [] + r.value == r.value;
    }
  }

  lemma PrependTwice(a: seq<Track>, b: seq<Track>, r: Outcome<seq<Track>>)
    ensures Prepend(a, Prepend(b, r)) == Prepend(a + b, r)
  {
    if r.Ok? {
      assert a + (b + r.value) == (a + b) + r.value;
    }
  }

  /** How one iteration ends the loop, given the outcome of its record, whether its trailer
      skip succeeds, and what the later iterations give: a record that does not decode stops
      the loop with its error or panic; one that decodes is put in front of the rest, or is the
      last track when the skip fails. */
  function Step(rec: Outcome<Track>, more: bool, rest: Outcome<seq<Track>>): Outcome<seq<Track>> {
    match rec
    case Ok(t) => if more then Prepend([t], rest) else Ok([t])
    case Err(e) => Err(e)
    case Panic(p) => Panic(p)
  }

  /** Iterations `i` to `count - 1` of the track loop, with the reader at the body of track `i`:
      read the body, decode it, then skip the trailer, stopping with what was decoded when that
      skip fails. */
  function DecodeTracks(data: seq<U8>, mode: SeekMode, count: U8, i: nat): Outcome<seq<Track>>
    requires i <= count
    decreases count - i
  {
    if i == count then Ok([])
    else if BodyOffset(i) + RecordSize > |data| then Err(UnexpectedEof)
    else
      Step(DecodeRecord(Body(data, i), i),
           SeekSucceeds(mode, |data|, BodyOffset(i) + RecordSize, TrailerSize),
           DecodeTracks(data, mode, count, i + 1))
  }

  /** The whole decode of the bytes of a file: the header read, the 21-byte skip, the loop. */
  function Decode(data: seq<U8>, mode: SeekMode): Outcome<Conductor> {
    if |data| < HeaderSize then Err(UnexpectedEof)
    else if !SeekSucceeds(mode, |data|, HeaderSize, ReservedSize) then Err(SeekFailed)
    else Finish(data, DecodeTracks(data, mode, data[2], 0))
  }

  /** What follows the loop: a zero track count gets through the loop, which then runs no
      times, and panics at `NonZeroU8::new(0).unwrap()`. */
  function Finish(data: seq<U8>, loop: Outcome<seq<Track>>): Outcome<Conductor>
    requires |data| >= HeaderSize
  {
    match loop
    case Ok(tracks) =>
      if data[2] == 0 then Panic(UnwrapNone)
      else Ok(Conductor(data[0], data[1], data[2], tracks))
    case Err(e) => Err(e)
    case Panic(p) => Panic(p)
  }

  /** One pass of the loop body of `Conductor::from_file`: read the body of track `i`, decode it
      with `Track::from_bytes`, and skip its trailer; `more` says whether the loop goes on. */
  method ReadEntry(reader: Reader, count: U8, i: nat) returns (r: Outcome<Track>, more: bool)
    requires i < count && reader.pos == BodyOffset(i)
    modifies reader
    ensures DecodeTracks(reader.data, reader.mode, count, i) ==
      Step(r, more, DecodeTracks(reader.data, reader.mode, count, i + 1))
    ensures more ==> r.Ok? && reader.pos == BodyOffset(i + 1)
    ensures BodyOffset(i) + RecordSize > |reader.data| ==> r == Err(UnexpectedEof)
    ensures BodyOffset(i) + RecordSize <= |reader.data| ==> r == DecodeRecord(Body(reader.data, i), i)
    ensures more <==> r.Ok? && SeekSucceeds(reader.mode, |reader.data|, BodyOffset(i) + RecordSize, TrailerSize)
  {
    var body := reader.ReadExact(RecordSize);
    if body.Err? {
      return Err(body.error), false;
    }
    assert body.value == Body(reader.data, i);
    r := FromBytes(body.value, i);
    if !r.Ok? {
      return r, false;
    }
    var trailer := reader.SeekCurrent(TrailerSize);
    more := trailer.Ok?;
  }

  /** `Conductor::from_file`, on the bytes of the opened file. */
  method FromFile(data: seq<U8>, mode: SeekMode) returns (r: Outcome<Conductor>)
    ensures r == Decode(data, mode)
  {
    var reader := new Reader(data, mode);
    var metadata := reader.ReadExact(HeaderSize);
    if metadata.Err? {
      return Err(metadata.error);
    }
    var louieSwing, bpm, trackCount := metadata.value[0], metadata.value[1], metadata.value[2];

    var skip := reader.SeekCurrent(ReservedSize);
    if skip.Err? {
      return Err(skip.error);
    }
    assert trackCount == data[2];
    var tracks := ReadTracks(reader, trackCount);
    if !tracks.Ok? {
      return if tracks.Err? then Err(tracks.error) else Panic(tracks.reason);
    }
    if trackCount == 0 {
      return Panic(UnwrapNone);
    }
    r := Ok(Conductor(louieSwing, bpm, trackCount, tracks.value));
  }

  /** The `for` loop of `Conductor::from_file`, with the reader at the body of track 0: the
      tracks it collects, or the error or panic that ends it early. */
  method ReadTracks(reader: Reader, count: U8) returns (r: Outcome<seq<Track>>)
    requires reader.pos == BodyOffset(0)
    modifies reader
    ensures r == DecodeTracks(reader.data, reader.mode, count, 0)
  {
    ghost var all := DecodeTracks(reader.data, reader.mode, count, 0);
    var tracks: seq<Track> := [];
    var i: nat := 0;
    PrependNothing(all);
    while i < count
      invariant i <= count
      invariant reader.pos == BodyOffset(i)
      invariant all == Prepend(tracks, DecodeTracks(reader.data, reader.mode, count, i))
    {
      var track, more := ReadEntry(reader, count, i);
      if !track.Ok? {
        return if track.Err? then Err(track.error) else Panic(track.reason);
      }
      ghost var before := tracks;
      tracks := tracks + [track.value];
      if !more {
        break;
      }
      PrependTwice(before, [track.value], DecodeTracks(reader.data, reader.mode, count, i + 1));
      i := i + 1;
    }
    assert tracks + [] == tracks;
    return Ok(tracks);
  }

  /** `ts` are the records of tracks `i`, `i + 1`, ..., each read at its own offset and decoded
      with its own index. */
  predicate RecordsAt(data: seq<U8>, ts: seq<Track>, i: nat)
    decreases |ts|
  {
    && i + |ts| <= 256
    && (ts != [] ==>
          && BodyOffset(i) + RecordSize <= |data|
          && DecodeRecord(Body(data, i), i) == Ok(ts[0])
          && RecordsAt(data, ts[1..], i + 1))
  }

  /** Element by element: the `k`-th of the records read from track `i` on is the record of
      track `i + k`, read at its own offset. */
  lemma {:induction false} RecordsAtElem(data: seq<U8>, ts: seq<Track>, i: nat, k: nat)
    requires RecordsAt(data, ts, i) && k < |ts|
    ensures BodyOffset(i + k) + RecordSize <= |data| && DecodeRecord(Body(data, i + k), i + k) == Ok(ts[k])
    decreases k
  {
    if k > 0 {
      RecordsAtElem(data, ts[1..], i + 1, k - 1);
      assert ts[1..][k - 1] == ts[k] && (i + 1) + (k - 1) == i + k;
    }
  }

  /** The tracks the loop collects from iteration `i` on are the records of tracks `i`, `i + 1`,
      ... in file order, each read at its own offset and decoded with its own index, and there
      are at most `count - i` of them (at least one if the loop runs at all). */
  lemma {:induction false} TracksInFileOrder(data: seq<U8>, mode: SeekMode, count: U8, i: nat)
    requires i <= count
    ensures var r := DecodeTracks(data, mode, count, i);
      r.Ok? ==>
        && |r.value| <= count - i
        && (i < count ==> |r.value| >= 1)
        && RecordsAt(data, r.value, i)
    decreases count - i
  {
    if i < count && BodyOffset(i) + RecordSize <= |data| {
      var rec := DecodeRecord(Body(data, i), i);
      if rec.Ok? && SeekSucceeds(mode, |data|, BodyOffset(i) + RecordSize, TrailerSize) {
        TracksInFileOrder(data, mode, count, i + 1);
        var rest := DecodeTracks(data, mode, count, i + 1);
        if rest.Ok? {
          assert DecodeTracks(data, mode, count, i) == Ok([rec.value] + rest.value);
          assert ([rec.value] + rest.value)[1..] == rest.value;
        }
      }
    }
  }

  /** A decoded conductor: `louie_swing`, `bpm` and `track_count` are bytes 0, 1 and 2, and the
      tracks are the records at offsets 24, 84, 144, ... in file order, between one and
      `track_count` of them. */
  lemma DecodeLayout(data: seq<U8>, mode: SeekMode)
    ensures var r := Decode(data, mode);
      r.Ok? ==>
        && |data| >= HeaderSize
        && r.value.louieSwing == data[0] && r.value.bpm == data[1] && r.value.trackCount == data[2]
        && 1 <= |r.value.tracks| <= r.value.trackCount
        && RecordsAt(data, r.value.tracks, 0)
  {
    if |data| >= HeaderSize {
      TracksInFileOrder(data, mode, data[2], 0);
    }
  }

  /** When no trailer skip can fail (the stream allows seeking past its end, or holds all
      `count` entries), a loop that succeeds yields one track per remaining iteration. */
  lemma {:induction false} TrackListComplete(data: seq<U8>, mode: SeekMode, count: U8, i: nat)
    requires i <= count
    requires mode == PastEndAllowed || BodyOffset(count) <= |data|
    ensures DecodeTracks(data, mode, count, i).Ok? ==> |DecodeTracks(data, mode, count, i).value| == count - i
    decreases count - i
  {
    if i < count && BodyOffset(i) + RecordSize <= |data| {
      assert BodyOffset(i + 1) <= BodyOffset(count);
      TrackListComplete(data, mode, count, i + 1);
    }
  }

  /** A successful decode of a stream that holds every entry, or that allows seeking past its
      end as Rust's `File` does, has exactly `track_count` tracks. */
  lemma CompleteTrackList(data: seq<U8>, mode: SeekMode)
    requires |data| >= HeaderSize
    requires mode == PastEndAllowed || BodyOffset(data[2]) <= |data|
    ensures Decode(data, mode).Ok? ==> |Decode(data, mode).value.tracks| == data[2]
  {
    TrackListComplete(data, mode, data[2], 0);
  }

  /** The happy path: a stream that holds every record body, each of which decodes, and that
      either allows seeking past its end or holds every trailer too, decodes successfully to
      exactly `track_count` tracks. */
  lemma CompleteDecodeSucceeds(data: seq<U8>, mode: SeekMode)
    requires |data| >= HeaderSize && data[2] >= 1
    requires BodyOffset(data[2] - 1) + RecordSize <= |data|
    requires mode == PastEndAllowed || BodyOffset(data[2]) <= |data|
    requires forall j :: 0 <= j < data[2] ==> DecodeRecord(Body(data, j), j).Ok?
    ensures Decode(data, mode).Ok? && |Decode(data, mode).value.tracks| == data[2]
  {
    forall j | 0 <= j < data[2]
      ensures GoodTrack(data, mode, j)
    {
      assert BodyOffset(j) + RecordSize <= BodyOffset(data[2] - 1) + RecordSize;
      assert BodyOffset(j) + RecordSize + TrailerSize <= BodyOffset(data[2]);
    }
    GoodRunThenRest(data, mode, data[2], 0, data[2]);
  }

  /** The loop stops short only when the stream refuses to seek past its end and ends inside
      the trailer of the last track decoded. */
  lemma {:induction false} ShortListMeansCutTrailer(data: seq<U8>, mode: SeekMode, count: U8, i: nat)
    requires i <= count
    ensures var r := DecodeTracks(data, mode, count, i);
      r.Ok? && |r.value| < count - i ==>
        && mode == PastEndFails
        && BodyOffset(i + |r.value|) - TrailerSize <= |data| < BodyOffset(i + |r.value|)
    decreases count - i
  {
    if i < count && BodyOffset(i) + RecordSize <= |data| {
      var rec := DecodeRecord(Body(data, i), i);
      if rec.Ok? && SeekSucceeds(mode, |data|, BodyOffset(i) + RecordSize, TrailerSize) {
        ShortListMeansCutTrailer(data, mode, count, i + 1);
        var rest := DecodeTracks(data, mode, count, i + 1);
        if rest.Ok? {
          assert i + |[rec.value] + rest.value| == (i + 1) + |rest.value|;
        }
      }
    }
  }

  /** A successful decode with fewer than `track_count` tracks comes only from a stream that
      refuses to seek past its end and ends inside the trailer of the last track returned. */
  lemma TruncatedOnlyInTrailer(data: seq<U8>, mode: SeekMode)
    ensures var r := Decode(data, mode);
      r.Ok? && |r.value.tracks| < r.value.trackCount ==>
        && mode == PastEndFails
        && BodyOffset(|r.value.tracks|) - TrailerSize <= |data| < BodyOffset(|r.value.tracks|)
  {
    if |data| >= HeaderSize {
      ShortListMeansCutTrailer(data, mode, data[2], 0);
    }
  }

  /** Track `j` is present, decodes, and has its trailer skipped. */
  predicate GoodTrack(data: seq<U8>, mode: SeekMode, j: nat)
    requires j < 256
  {
    && BodyOffset(j) + RecordSize <= |data|
    && DecodeRecord(Body(data, j), j).Ok?
    && SeekSucceeds(mode, |data|, BodyOffset(j) + RecordSize, TrailerSize)
  }

  /** Tracks `i` to `k - 1` are all good. */
  predicate GoodThrough(data: seq<U8>, mode: SeekMode, i: nat, k: nat)
    requires k <= 256
  {
    forall j :: i <= j < k ==> GoodTrack(data, mode, j)
  }

  /** Past a run of good tracks, the loop ends as the loop from the first other track does:
      with the same error or panic, or with that many more tracks. */
  lemma {:induction false} GoodRunThenRest(data: seq<U8>, mode: SeekMode, count: U8, i: nat, k: nat)
    requires i <= k <= count
    requires GoodThrough(data, mode, i, k)
    ensures var r, rest := DecodeTracks(data, mode, count, i), DecodeTracks(data, mode, count, k);
      && (!rest.Ok? ==> r == rest)
      && (rest.Ok? ==> r.Ok? && |r.value| == (k - i) + |rest.value|)
    decreases k - i
  {
    if i < k {
      assert GoodTrack(data, mode, i);
      GoodRunThenRest(data, mode, count, i + 1, k);
      assert DecodeTracks(data, mode, count, i) ==
        Prepend([DecodeRecord(Body(data, i), i).value], DecodeTracks(data, mode, count, i + 1));
    }
  }

  /** The first track that goes wrong decides the outcome of the whole decode: a body cut short
      is `UnexpectedEof`, a bank byte above 5 is the bank error naming track `k + 1`, and a
      panning byte in 128..191 panics. */
  lemma FirstBadTrackDecides(data: seq<U8>, mode: SeekMode, k: nat)
    requires |data| >= HeaderSize && SeekSucceeds(mode, |data|, HeaderSize, ReservedSize)
    requires k < data[2] && GoodThrough(data, mode, 0, k)
    ensures BodyOffset(k) + RecordSize > |data| ==> Decode(data, mode) == Err(UnexpectedEof)
    ensures BodyOffset(k) + RecordSize <= |data| && data[BodyOffset(k) + 22] >= 6 ==>
      Decode(data, mode) == Err(InvalidBank(k + 1))
    ensures BodyOffset(k) + RecordSize <= |data| && data[BodyOffset(k) + 22] < 6 && 128 <= data[BodyOffset(k) + 33] <= 191 ==>
      Decode(data, mode) == Panic(SubtractOverflow)
  {
    GoodRunThenRest(data, mode, data[2], 0, k);
    if BodyOffset(k) + RecordSize <= |data| {
      RecordOutcomes(Body(data, k), k);
    }
  }

  /** The tolerated truncation: a stream that refuses to seek past its end, whose track `k - 1`
      is complete but whose trailer is cut short, decodes to the first `k` tracks. */
  lemma TrailerCutTolerated(data: seq<U8>, k: nat)
    requires |data| >= HeaderSize && 1 <= k <= data[2]
    requires BodyOffset(k) - TrailerSize <= |data| < BodyOffset(k)
    requires forall j :: 0 <= j < k ==> DecodeRecord(Body(data, j), j).Ok?
    ensures Decode(data, PastEndFails).Ok?
    ensures |Decode(data, PastEndFails).value.tracks| == k
  {
    assert BodyOffset(k - 1) + RecordSize <= |data|;
    forall j | 0 <= j < k - 1
      ensures GoodTrack(data, PastEndFails, j)
    {
      assert BodyOffset(j) + RecordSize + TrailerSize <= BodyOffset(k - 1);
    }
    GoodRunThenRest(data, PastEndFails, data[2], 0, k - 1);
    assert DecodeTracks(data, PastEndFails, data[2], k - 1).Ok?;
  }

  /** A zero track count is not an error: it panics, once the header has been read and
      skipped. */
  lemma ZeroTrackCountPanics(data: seq<U8>, mode: SeekMode)
    requires |data| >= HeaderSize && data[2] == 0
    requires SeekSucceeds(mode, |data|, HeaderSize, ReservedSize)
    ensures Decode(data, mode) == Panic(UnwrapNone)
  {
  }

  /** The header fails with `UnexpectedEof` below three bytes, and with `SeekFailed` below 24
      bytes on a stream that refuses to seek past its end. */
  lemma HeaderFailures(data: seq<U8>, mode: SeekMode)
    ensures |data| < HeaderSize ==> Decode(data, mode) == Err(UnexpectedEof)
    ensures HeaderSize <= |data| < BodyOffset(0) && mode == PastEndFails ==> Decode(data, mode) == Err(SeekFailed)
  {
  }

  /** Inside the loop `track_nr + 1` cannot overflow, because `track_nr < track_count <= 255`:
      a bank error names a track between 1 and `count`, and the only panic is the panning one. */
  lemma {:induction false} LoopErrors(data: seq<U8>, mode: SeekMode, count: U8, i: nat)
    requires i <= count
    ensures var r := DecodeTracks(data, mode, count, i);
      && (r.Err? && r.error.InvalidBank? ==> i < r.error.trackNumber <= count)
      && (r.Panic? ==> r.reason == SubtractOverflow)
    decreases count - i
  {
    if i < count && BodyOffset(i) + RecordSize <= |data| {
      RecordOutcomes(Body(data, i), i);
      var rec := DecodeRecord(Body(data, i), i);
      if rec.Ok? && SeekSucceeds(mode, |data|, BodyOffset(i) + RecordSize, TrailerSize) {
        LoopErrors(data, mode, count, i + 1);
      }
    }
  }

  /** The errors and panics of a whole decode: the bank error names a track that exists, and
      the only panics are the zero track count and the panning overflow. */
  lemma DecodeErrors(data: seq<U8>, mode: SeekMode)
    ensures var r := Decode(data, mode);
      && (r.Err? && r.error.InvalidBank? ==> |data| >= HeaderSize && 1 <= r.error.trackNumber <= data[2])
      && (r.Panic? ==> r.reason == SubtractOverflow || (r.reason == UnwrapNone && data[2] == 0))
  {
    if |data| >= HeaderSize {
      LoopErrors(data, mode, data[2], 0);
    }
  }
}
