/**
 * Message framing in the connection reader: every read lands in a freshly
 * zeroed 2048-byte buffer, and the message is the C string at its start,
 * that is, the bytes before the first zero byte.
 */
module Framing {
  import opened Common

  /** The size of the reader's buffer. */
  const BufferSize: nat := 2048

  function Zeros(n: nat): (z: seq<byte>)
    ensures |z| == n && forall i :: 0 <= i < n ==> z[i] == 0
  {
    seq(n, _ => 0)
  }

  /** The buffer after one read of `data` into a zeroed buffer: the read overwrites a prefix, the rest stays zero. */
  function AfterRead(data: seq<byte>): (buf: seq<byte>)
    requires |data| <= BufferSize
    ensures |buf| == BufferSize && buf[..|data|] == data
    ensures forall i :: |data| <= i < BufferSize ==> buf[i] == 0
  {
    data + Zeros(BufferSize - |data|)
  }

  /**
   * The C string at the start of `buf`: the bytes before its first zero byte.
   * None when `buf` holds no zero byte at all, where the relay's unbounded
   * `CStr::from_ptr` scan in `recv` would run past the end of the array.
   */
  function CString(buf: seq<byte>): (r: Option<seq<byte>>)
    ensures r.Some? ==> |r.value| < |buf| && r.value == buf[..|r.value|] && buf[|r.value|] == 0 && 0 !in r.value
    ensures r.None? <==> 0 !in buf
  {
    match FirstIndex(buf, 0)
    case None => None
    case Some(k) => Some(buf[..k])
  }

  /**
   * The framed payload of one read: the read bytes up to their first zero
   * byte, all of them when they hold none and the buffer has room for the
   * terminator, and nothing when all 2048 bytes are non-zero.
   */
  lemma FrameOfRead(data: seq<byte>)
    requires |data| <= BufferSize
    ensures 0 in data ==> CString(AfterRead(data)) == Some(data[..FirstIndex(data, 0).value])
    ensures 0 !in data && |data| < BufferSize ==> CString(AfterRead(data)) == Some(data)
    ensures 0 !in data && |data| == BufferSize ==> CString(AfterRead(data)).None?
    ensures CString(AfterRead(data)).Some? ==> |CString(AfterRead(data)).value| <= |data|
  {
    var buf := AfterRead(data);
    if 0 in data {
      var k := FirstIndex(data, 0).value;
      assert buf[..k] == data[..k];
      FirstIndexAt(buf, 0, k);
    } else if |data| < BufferSize {
      assert buf[..|data|] == data;
      FirstIndexAt(buf, 0, |data|);
    } else {
      assert buf == data;
    }
  }

  /** A read of zero bytes leaves the buffer all zero, which frames as the empty payload. */
  lemma EmptyReadFramesEmpty()
    ensures CString(AfterRead([])) == Some([])
  {
    FrameOfRead([]);
  }
}
