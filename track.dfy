/** One track record of a conductor file: the `Bank` enum, the `Track` value, the decoding of
    a 36-byte record (`Track::from_bytes`) and the description text (`Track::description`). */
module Tracks {
  import opened Bytes
  import opened Outcomes
  import opened Utf8
  import opened Streams

  /** The sound bank a track plays from. */
  datatype Bank =
    | Pikmin1SFX
    | WatanabeSFX
    | TotakaSFX
    | HikinoSFX
    | WakaiInstruments
    | TotakaInstruments

  /** The discriminant of a variant (`bank as u8`): its place in the declaration. */
  function BankIndex(bank: Bank): U8 {
    match bank
    case Pikmin1SFX => 0
    case WatanabeSFX => 1
    case TotakaSFX => 2
    case HikinoSFX => 3
    case WakaiInstruments => 4
    case TotakaInstruments => 5
  }

  /** The bank whose discriminant is `x`. */
  function BankOf(x: U8): Bank
    requires x < 6
  {
    match x
    case 0 => Pikmin1SFX
    case 1 => WatanabeSFX
    case 2 => TotakaSFX
    case 3 => HikinoSFX
    case 4 => WakaiInstruments
    case 5 => TotakaInstruments
  }

  /** The `match bank_byte` of `Track::from_bytes`: the arms for 0 to 5, and `None` for the
      `_` arm that reports the error. */
  function BankFromByte(x: U8): Option<Bank> {
    if x < 6 then Some(BankOf(x)) else None
  }

  /** Bytes 0-5 and the six banks correspond one to one, in declaration order, and every
      other byte is refused. */
  lemma BankBijection(x: U8, bank: Bank)
    ensures BankFromByte(BankIndex(bank)) == Some(bank)
    ensures BankFromByte(x) == Some(bank) <==> x == BankIndex(bank)
    ensures BankFromByte(x).None? <==> x >= 6
  {
  }

  /** The fixed-size description buffer. */
  type DescriptionBuffer = s: seq<U8> | |s| == 8 witness [0, 0, 0, 0, 0, 0, 0, 0]

  datatype Track = Track(
    initDelay: U8,
    bOffsetFlag: bool,
    qOffsetFlag: bool,
    description: DescriptionBuffer,
    trackCopy: U8,
    echo: U8,
    ordered: bool,
    bank: Bank,
    program: U8,
    gestureSet: U8,
    timing: U8,
    gestureCount: U8,
    silentCount: U8,
    transposition: I8,
    volume: U8,
    panning: I8)

  /** The size of a track record's body. */
  const RecordSize: nat := 36

  /** The offsets of a record that no field is read from. */
  predicate IsIgnoredOffset(k: int) {
    k == 0 || 13 <= k <= 20 || k == 24 || k == 26 || k == 30 || k == 35
  }

  /** The outcome of decoding a record, stated by conditions on its bytes rather than by the
      operations of `Track::from_bytes`: a bank byte of 6 or more is the error naming track
      `trackNr + 1` (a panic if that number does not fit in a `u8`); otherwise a panning byte in
      128..191 panics; otherwise the record decodes to `RecordTrack(b)`. */
  function DecodeRecord(b: seq<U8>, trackNr: U8): Outcome<Track>
    requires |b| == RecordSize
  {
    if b[22] >= 6 then
      if trackNr == 255 then Panic(AddOverflow) else Err(InvalidBank(trackNr + 1))
    else if 128 <= b[33] <= 191 then Panic(SubtractOverflow)
    else Ok(RecordTrack(b))
  }

  /** The record layout, one field per offset. */
  function RecordTrack(b: seq<U8>): Track
    requires |b| == RecordSize && b[22] < 6 && !(128 <= b[33] <= 191)
  {
    Track(
      initDelay := b[1],
      bOffsetFlag := b[2] == 1,
      qOffsetFlag := b[34] == 1,
      description := b[3..11],
      trackCopy := b[11],
      echo := b[12],
      ordered := b[21] == 1,
      bank := BankOf(b[22]),
      program := b[23],
      gestureSet := b[25],
      timing := b[27],
      gestureCount := b[28],
      silentCount := b[29],
      transposition := AsI8(b[31]),
      volume := b[32],
      panning := AsI8(b[33]) - 64)
  }

  /** `Track::from_bytes`: reads the record through a cursor, three bytes, the eight
      description bytes, two bytes, a jump of eight, then fourteen bytes. */
  method FromBytes(byteBuffer: seq<U8>, trackNr: U8) returns (r: Outcome<Track>)
    requires |byteBuffer| == RecordSize
    ensures r == DecodeRecord(byteBuffer, trackNr)
  {
    var cursor := new Reader(byteBuffer, PastEndAllowed);
    // 3 + 8 + 2 bytes, a jump of 8 and 14 more end at offset 35, inside the 36-byte record:
    // none of these reads can fail, so their `?` never returns.
    var head := cursor.ReadExact(3);
    assert head.Ok?;
    var description := cursor.ReadExact(8);
    assert description.Ok?;
    var copyEcho := cursor.ReadExact(2);
    assert copyEcho.Ok?;
    cursor.SetPosition(cursor.pos + 8);
    var tail := cursor.ReadExact(14);
    assert tail.Ok?;
    var h, d, c, t := head.value, description.value, copyEcho.value, tail.value;
    assert t == byteBuffer[21..35];

    var bank: Bank;
    match BankFromByte(t[1]) {
      case None =>
        var n := CheckedAddU8(trackNr, 1);
        if n.None? {
          return Panic(AddOverflow);
        }
        return Err(InvalidBank(n.value));
      case Some(b) =>
        bank := b;
    }
    var panning := CheckedSubI8(AsI8(t[12]), 64);
    PanningRange(t[12]);
    if panning.None? {
      assert 128 <= byteBuffer[33] <= 191;
      return Panic(SubtractOverflow);
    }
    r := Ok(Track(
      initDelay := h[1],
      bOffsetFlag := h[2] == 1,
      qOffsetFlag := t[13] == 1,
      description := d,
      trackCopy := c[0],
      echo := c[1],
      ordered := t[0] == 1,
      bank := bank,
      program := t[2],
      gestureSet := t[4],
      timing := t[6],
      gestureCount := t[7],
      silentCount := t[8],
      transposition := AsI8(t[10]),
      volume := t[11],
      panning := panning.value));
  }

  /** What decoding a record can end in. It never reports a short read: the only error is the
      bank error, naming track `trackNr + 1`; it panics only when that addition overflows or
      when the panning byte lies in 128..191. */
  lemma RecordOutcomes(b: seq<U8>, trackNr: U8)
    requires |b| == RecordSize
    ensures var r := DecodeRecord(b, trackNr);
      && (r.Err? <==> b[22] >= 6 && trackNr < 255)
      && (r.Err? ==> r.error == InvalidBank(trackNr + 1))
      && (r.Panic? <==> (b[22] >= 6 && trackNr == 255) || (b[22] < 6 && 128 <= b[33] < 192))
      && (r.Ok? <==> b[22] < 6 && !(128 <= b[33] < 192))
  {
  }

  /** The fields of a decoded record in terms of its bytes: flags are set only by the exact byte
      1, the bank is the one whose index is byte 22, the signed fields are the `i8` readings of
      bytes 31 and 33 (the latter less 64, so within -128..63). */
  lemma RecordFields(b: seq<U8>, trackNr: U8)
    requires |b| == RecordSize
    requires DecodeRecord(b, trackNr).Ok?
    ensures var t := DecodeRecord(b, trackNr).value;
      && t.initDelay == b[1] && t.description == b[3..11]
      && t.trackCopy == b[11] && t.echo == b[12]
      && t.program == b[23] && t.gestureSet == b[25] && t.timing == b[27]
      && t.gestureCount == b[28] && t.silentCount == b[29] && t.volume == b[32]
      && (t.bOffsetFlag <==> b[2] == 1) && (t.ordered <==> b[21] == 1) && (t.qOffsetFlag <==> b[34] == 1)
      && BankIndex(t.bank) == b[22]
      && AsU8(t.transposition) == b[31]
      && AsU8(t.panning + 64) == b[33] && -128 <= t.panning <= 63
  {
  }

  /** Two records that differ only at the offsets 0, 13-20, 24, 26, 30 and 35 decode alike. */
  lemma IgnoredBytesDoNotMatter(b: seq<U8>, b': seq<U8>, trackNr: U8)
    requires |b| == RecordSize && |b'| == RecordSize
    requires forall k :: 0 <= k < RecordSize && !IsIgnoredOffset(k) ==> b[k] == b'[k]
    ensures DecodeRecord(b, trackNr) == DecodeRecord(b', trackNr)
  {
    assert b[3..11] == b'[3..11];
  }

  /** The panning formula `(raw as i8) - 64`: it overflows exactly for raw bytes 128..191 and
      otherwise lands in -128..63. */
  lemma PanningRange(raw: U8)
    ensures CheckedSubI8(AsI8(raw), 64).None? <==> 128 <= raw <= 191
    ensures CheckedSubI8(AsI8(raw), 64).Some? ==>
      var p := CheckedSubI8(AsI8(raw), 64).value;
      -128 <= p <= 63 && p == if raw < 128 then raw - 64 else raw - 320
  {
  }

  /** The alternative "widen, add 64 with wrap-around, truncate to `i8`" reading of the panning
      byte. */
  function WrappingPanning(raw: U8): I8 {
    AsI8((raw + 64) % 256)
  }

  /** Wherever `(raw as i8) - 64` is defined, it is 128 apart (modulo 256) from the wrap-around
      reading, so the two never agree. */
  lemma PanningDiffersFromWrapping(raw: U8)
    requires CheckedSubI8(AsI8(raw), 64).Some?
    ensures var p := CheckedSubI8(AsI8(raw), 64).value;
      AsU8(p) == (AsU8(WrappingPanning(raw)) + 128) % 256 && p != WrappingPanning(raw)
  {
  }

  /** The byte that ends the description text. */
  const Sentinel: U8 := 205

  /** The text `description()` returns for a corrupted buffer,
      "!!Description string is corrupted!!" in ASCII. */
  const Placeholder: seq<U8> := [
    33, 33, 68, 101, 115, 99, 114, 105, 112, 116, 105, 111, 110, 32, 115, 116, 114, 105,
    110, 103, 32, 105, 115, 32, 99, 111, 114, 114, 117, 112, 116, 101, 100, 33, 33]

  /** `slice::split(|n| *n == sep)`: the runs of bytes between separators, in order; `k`
      separators give `k + 1` runs, some possibly empty. */
  function Split(b: seq<U8>, sep: U8): (parts: seq<seq<U8>>)
    ensures |parts| >= 1
  {
    if b == [] then [[]]
    else
      var rest := Split(b[1..], sep);
      if b[0] == sep then [[]] + rest
      else [[b[0]] + rest[0]] + rest[1..]
  }

  /** `join` with a one-byte separator, the inverse of `Split`. */
  function Join(parts: seq<seq<U8>>, sep: U8): seq<U8>
    requires |parts| >= 1
  {
    if |parts| == 1 then parts[0] else parts[0] + [sep] + Join(parts[1..], sep)
  }

  /** Splitting loses nothing and leaves no separator in any run. */
  lemma {:induction false} SplitJoin(b: seq<U8>, sep: U8)
    ensures Join(Split(b, sep), sep) == b
    ensures forall i :: 0 <= i < |Split(b, sep)| ==> sep !in Split(b, sep)[i]
  {
    if b != [] {
      SplitJoin(b[1..], sep);
      var rest := Split(b[1..], sep);
      if b[0] == sep {
        assert Split(b, sep)[1..] == rest;
      } else {
        var parts := Split(b, sep);
        assert parts[1..] == rest[1..];
        if |rest| == 1 {
          assert Join(parts, sep) == [b[0]] + rest[0];
        } else {
          assert Join(rest, sep) == rest[0] + [sep] + Join(rest[1..], sep);
        }
        assert [b[0]] + b[1..] == b;
      }
    }
  }

  /** The first run of `Split` is the prefix before the first separator, or all of `b` if it
      has none. */
  lemma {:induction false} SplitFirst(b: seq<U8>, sep: U8, k: nat)
    requires k <= |b| && sep !in b[..k] && (k == |b| || b[k] == sep)
    ensures Split(b, sep)[0] == b[..k]
  {
    if b != [] {
      if b[0] == sep {
        assert k == 0;
      } else {
        assert k > 0 && b[..k][0] == b[0];
        assert b[1..][..k - 1] == b[..k][1..];
        SplitFirst(b[1..], sep, k - 1);
      }
    }
  }

  /** `split(..).next()`: the first run, if the split yields any. */
  function FirstRun(b: seq<U8>, sep: U8): Option<seq<U8>> {
    var parts := Split(b, sep);
    if |parts| > 0 then Some(parts[0]) else None
  }

  /** `Track::description`: the bytes before the first 205, or all eight if there is none, when
      they are well-formed UTF-8; the placeholder otherwise. */
  function Description(t: Track): seq<U8> {
    match FirstRun(t.description, Sentinel)
    case Some(bytes) => if ValidUtf8(bytes) then bytes else Placeholder
    case None => Placeholder
  }

  /** The description against an independent statement of "the bytes before the first 205":
      `k` is the index of the first sentinel, or 8. The `None` arm of `description()` is never
      taken. */
  lemma DescriptionSpec(t: Track, k: nat)
    requires k <= 8 && Sentinel !in t.description[..k] && (k == 8 || t.description[k] == Sentinel)
    ensures FirstRun(t.description, Sentinel).Some?
    ensures Description(t) == if ValidUtf8(t.description[..k]) then t.description[..k] else Placeholder
  {
    SplitFirst(t.description, Sentinel, k);
  }

  /** A description is either the placeholder, which is too long to be mistaken for one, or
      well-formed text of at most eight bytes without a sentinel, taken from the front of the
      buffer. */
  lemma DescriptionShape(t: Track)
    ensures |Placeholder| == 35
    ensures var s := Description(t);
      s == Placeholder || (|s| <= 8 && s == t.description[..|s|] && Sentinel !in s && ValidUtf8(s))
  {
    var b := t.description;
    SplitJoin(b, Sentinel);
    var parts := Split(b, Sentinel);
    if |parts| > 1 {
      assert Join(parts, Sentinel) == parts[0] + ([Sentinel] + Join(parts[1..], Sentinel));
    }
    assert b[..|parts[0]|] == parts[0];
  }

  /** A description whose text part is plain ASCII is returned as it is. */
  lemma AsciiDescription(t: Track, k: nat)
    requires k <= 8 && Sentinel !in t.description[..k] && (k == 8 || t.description[k] == Sentinel)
    requires forall i :: 0 <= i < k ==> t.description[i] < 0x80
    ensures Description(t) == t.description[..k]
  {
    AsciiIsValid(t.description[..k]);
    DescriptionSpec(t, k);
  }

  /** A byte that occurs in no UTF-8 text, before the first sentinel, makes the description
      the placeholder. */
  lemma CorruptDescription(t: Track, k: nat, i: nat)
    requires k <= 8 && Sentinel !in t.description[..k] && (k == 8 || t.description[k] == Sentinel)
    requires i < k && NeverInUtf8(t.description[i])
    ensures Description(t) == Placeholder
  {
    if ValidUtf8(t.description[..k]) {
      ValidExcludesNeverInUtf8(t.description[..k], i);
    }
    DescriptionSpec(t, k);
  }

  /** Worked examples of descriptions: "ABC" before a sentinel, eight ASCII letters without
      one, and a buffer with the byte 0xFF. */
  lemma DescriptionExamples(t: Track)
    ensures t.description == [0x41, 0x42, 0x43, 0xCD, 0, 0, 0, 0] ==> Description(t) == [0x41, 0x42, 0x43]
    ensures t.description == [0x41, 0x42, 0x43, 0x44, 0x45, 0x46, 0x47, 0x48] ==> Description(t) == t.description
    ensures t.description == [0x41, 0xFF, 0x43, 0x44, 0x45, 0x46, 0x47, 0x48] ==> Description(t) == Placeholder
  {
    var b := t.description;
    if b == [0x41, 0x42, 0x43, 0xCD, 0, 0, 0, 0] {
      AsciiDescription(t, 3);
      assert b[..3] == [0x41, 0x42, 0x43];
    } else if b == [0x41, 0x42, 0x43, 0x44, 0x45, 0x46, 0x47, 0x48] {
      assert b[..8] == b;
      AsciiDescription(t, 8);
    } else if b == [0x41, 0xFF, 0x43, 0x44, 0x45, 0x46, 0x47, 0x48] {
      assert b[..8] == b;
      CorruptDescription(t, 8, 1);
    }
  }

  /** Worked examples of panning bytes: 0x00, 0x40, 0x80 and 0xFF. */
  lemma PanningExamples()
    ensures CheckedSubI8(AsI8(0x00), 64) == Some(-64) && CheckedSubI8(AsI8(0x40), 64) == Some(0)
    ensures CheckedSubI8(AsI8(0x80), 64) == None && CheckedSubI8(AsI8(0xFF), 64) == Some(-65)
  {
  }
}
