/** The byte source the decoder reads from: a `BufReader<File>` in `Conductor::from_file` and a
    `Cursor<&[u8; 36]>` in `Track::from_bytes`. Both are modelled as the bytes of the stream and
    a read position; opening the file is not part of the model. */
module Streams {
  import opened Bytes
  import opened Outcomes

  /** How the stream answers a relative seek that lands beyond its last byte. Rust's `File` and
      `Cursor` accept it (`PastEndAllowed`), and the short stream only shows up at the next
      read; a source that refuses it (`PastEndFails`) makes the seek itself fail. */
  datatype SeekMode = PastEndAllowed | PastEndFails

  /** Whether `seek(SeekFrom::Current(k))` from position `pos` succeeds on a stream of `len`
      bytes. */
  predicate SeekSucceeds(mode: SeekMode, len: nat, pos: nat, k: nat) {
    mode == PastEndAllowed || pos + k <= len
  }

  class Reader {
    const data: seq<U8>
    const mode: SeekMode
    /** The offset of the next byte to be read; it may lie beyond the end after a seek. */
    var pos: nat

    constructor (data: seq<U8>, mode: SeekMode)
      ensures this.data == data && this.mode == mode && pos == 0
    {
      this.data := data;
      this.mode := mode;
      pos := 0;
    }

    /** `read_exact` of `n` bytes: the next `n` bytes, or `UnexpectedEof` if fewer remain, in
        which case what was left has been consumed. */
    method ReadExact(n: nat) returns (r: Outcome<seq<U8>>)
      modifies this
      ensures old(pos) + n <= |data| ==> r == Ok(data[old(pos)..old(pos) + n]) && pos == old(pos) + n
      ensures old(pos) + n > |data| ==> r == Err(UnexpectedEof) && pos == if old(pos) < |data| then |data| else old(pos)
    {
      if pos + n <= |data| {
        r := Ok(data[pos..pos + n]);
        pos := pos + n;
      } else {
        r := Err(UnexpectedEof);
        if pos < |data| {
          pos := |data|;
        }
      }
    }

    /** `seek(SeekFrom::Current(k))` for `k >= 0`: moves `k` bytes forward unless the mode
        refuses a position beyond the end, in which case nothing moves. */
    method SeekCurrent(k: nat) returns (r: Outcome<()>)
      modifies this
      ensures SeekSucceeds(mode, |data|, old(pos), k) ==> r == Ok(()) && pos == old(pos) + k
      ensures !SeekSucceeds(mode, |data|, old(pos), k) ==> r == Err(SeekFailed) && pos == old(pos)
    {
      if SeekSucceeds(mode, |data|, pos, k) {
        pos := pos + k;
        r := Ok(());
      } else {
        r := Err(SeekFailed);
      }
    }

    /** `Cursor::set_position`, which accepts any position. */
    method SetPosition(p: nat)
      modifies this
      ensures pos == p
    {
      pos := p;
    }
  }
}
