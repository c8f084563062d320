/**
 * The connection reader, `recv`: one loop iteration per read. Each
 * iteration zeroes a fresh buffer, reads into it, frames the C string at its
 * start, checks that it is UTF-8 and forwards one envelope; it stops at the
 * first read whose payload is not UTF-8.
 *
 * The socket is replaced by the list of byte strings (chunks) its successive reads
 * return, each at most one buffer long, as a read into the buffer guarantees.
 */
module Reader {
  import opened Common
  import opened Framing
  import Utf8
  import opened Envelope

  /** Why a reader stopped forwarding. */
  datatype Stop =
    | BadUtf8        // the framed payload is not UTF-8: the reader leaves its loop
    | Overread       // all 2048 bytes are non-zero: the relay reads past the buffer
    | InputEnded     // the modelled list of chunks is used up (the loop in `recv` has no such end)

  /** What one read leads to: an envelope to forward, or the end of the loop. */
  datatype Outcome = Forward(msg: string) | Halt(why: Stop)

  predicate ChunksFit(chunks: seq<seq<byte>>)
  {
    forall i :: 0 <= i < |chunks| ==> |chunks[i]| <= BufferSize
  }

  /** One loop iteration of the reader on the bytes `data` that a read returned. */
  function Step(sender: string, data: seq<byte>): (r: Outcome)
    requires |data| <= BufferSize
    ensures r.Forward? ==> exists text :: r.msg == Format(sender, text)
    ensures r.Halt? ==> r.why != InputEnded
  {
    match CString(AfterRead(data))
    case None => Halt(Overread)
    case Some(payload) =>
      match Utf8.Decode(payload)
      case None => Halt(BadUtf8)
      case Some(text) => Forward(Format(sender, text))
  }

  /** The envelopes a reader forwards for a list of chunks, and why it stops. */
  datatype Log = Log(sent: seq<string>, stop: Stop)

  function Run(sender: string, chunks: seq<seq<byte>>): (r: Log)
    requires ChunksFit(chunks)
    ensures |r.sent| <= |chunks|
    ensures r.stop == InputEnded <==> |r.sent| == |chunks|
  {
    if |chunks| == 0 then Log([], InputEnded)
    else
      match Step(sender, chunks[0])
      case Halt(why) => Log([], why)
      case Forward(msg) =>
        var rest := Run(sender, chunks[1..]);
        Log([msg] + rest.sent, rest.stop)
  }

  /** The envelopes forwarded so far followed by the log of the remaining chunks. */
  function LogAfter(sent: seq<string>, rest: Log): Log
  {
    Log(sent + rest.sent, rest.stop)
  }

  /** `stream.read` into the buffer: the bytes read overwrite its prefix and the rest is left alone. */
  method ReadInto(buf: array<byte>, data: seq<byte>)
    requires |data| <= buf.Length
    modifies buf
    ensures buf[..] == data + old(buf[..])[|data|..]
  {
    ghost var before := buf[..];
    var j := 0;
    while j < |data|
      invariant 0 <= j <= |data|
      invariant forall k :: 0 <= k < j ==> buf[k] == data[k]
      invariant forall k :: j <= k < buf.Length ==> buf[k] == before[k]
    {
      buf[j] := data[j];
      j := j + 1;
    }
    assert forall k :: 0 <= k < buf.Length ==> buf[..][k] == (data + before[|data|..])[k];
  }

  /** One read off the front of the remaining chunks. */
  lemma RunStep(sender: string, chunks: seq<seq<byte>>, i: nat)
    requires ChunksFit(chunks) && i < |chunks|
    ensures ChunksFit(chunks[i..]) && ChunksFit(chunks[i + 1..])
    ensures Step(sender, chunks[i]).Halt? ==> Run(sender, chunks[i..]) == Log([], Step(sender, chunks[i]).why)
    ensures Step(sender, chunks[i]).Forward? ==>
              Run(sender, chunks[i..]) == LogAfter([Step(sender, chunks[i]).msg], Run(sender, chunks[i + 1..]))
  {
    assert chunks[i..][0] == chunks[i] && chunks[i..][1..] == chunks[i + 1..];
  }

  /** One read into a fresh zeroed buffer, and the C string it frames. */
  method ReadFrame(data: seq<byte>) returns (frame: Option<seq<byte>>)
    requires |data| <= BufferSize
    ensures frame == CString(AfterRead(data))
  {
    var buf := new byte[BufferSize](_ => 0);
    assert buf[..] == Zeros(BufferSize);
    ReadInto(buf, data);
    assert buf[..] == AfterRead(data);
    frame := CString(buf[..]);
  }

  /** The reader loop over the successive chunks of one connection. */
  method Recv(sender: string, chunks: seq<seq<byte>>) returns (sent: seq<string>, stop: Stop)
    requires ChunksFit(chunks)
    ensures Log(sent, stop) == Run(sender, chunks)
  {
    sent := [];
    var i := 0;
    while i < |chunks|
      invariant 0 <= i <= |chunks|
      invariant Run(sender, chunks) == LogAfter(sent, Run(sender, chunks[i..]))
    {
      RunStep(sender, chunks, i);
      var frame := ReadFrame(chunks[i]);
      if frame.None? {
        assert sent + [] == sent;
        stop := Overread;
        return;
      }
      var text := Utf8.Decode(frame.value);
      if text.None? {
        assert sent + [] == sent;
        stop := BadUtf8;
        return;
      }
      var msg := Format(sender, text.value);
      ghost var rest := Run(sender, chunks[i + 1..]);
      assert sent + ([msg] + rest.sent) == (sent + [msg]) + rest.sent;
      sent := sent + [msg];
      i := i + 1;
    }
    assert chunks[i..] == [];
    assert sent + [] == sent;
    stop := InputEnded;
  }

  /** A read of zero bytes is not a disconnect: it forwards an envelope with empty text. */
  lemma EmptyReadForwardsEmptyText(sender: string)
    ensures Step(sender, []) == Forward(Format(sender, []))
  {
    EmptyReadFramesEmpty();
  }

  /**
   * One read forwards exactly one envelope when its framed payload is UTF-8,
   * and that envelope carries the sender and the text whose encoding is the
   * framed payload (so the text holds no NUL); otherwise it forwards nothing
   * and says why.
   */
  lemma StepMeaning(sender: string, data: seq<byte>)
    requires |data| <= BufferSize
    ensures Step(sender, data).Forward? <==>
              CString(AfterRead(data)).Some? && Utf8.Decode(CString(AfterRead(data)).value).Some?
    ensures Step(sender, data).Forward? ==>
              exists text :: Step(sender, data).msg == Format(sender, text)
                          && Utf8.Encode(text) == CString(AfterRead(data)).value && '\0' !in text
    ensures Step(sender, data) == Halt(Overread) <==> 0 !in data && |data| == BufferSize
  {
    FrameOfRead(data);
    var frame := CString(AfterRead(data));
    if frame.Some? && Utf8.Decode(frame.value).Some? {
      Utf8.EncodeDecode(frame.value);
      Utf8.DecodeNoNul(frame.value);
    }
  }

  /**
   * The reader forwards one envelope per read, in read order, as long as the
   * chunks frame to UTF-8, and stops at the first one that does not.
   */
  lemma {:induction false} RunMeaning(sender: string, chunks: seq<seq<byte>>)
    requires ChunksFit(chunks)
    ensures |Run(sender, chunks).sent| <= |chunks|
    ensures forall i :: 0 <= i < |Run(sender, chunks).sent| ==> Step(sender, chunks[i]) == Forward(Run(sender, chunks).sent[i])
    ensures Run(sender, chunks).stop == InputEnded <==> |Run(sender, chunks).sent| == |chunks|
    ensures Run(sender, chunks).stop != InputEnded ==>
              Step(sender, chunks[|Run(sender, chunks).sent|]) == Halt(Run(sender, chunks).stop)
  {
    if |chunks| > 0 && Step(sender, chunks[0]).Forward? {
      RunMeaning(sender, chunks[1..]);
      var rest := Run(sender, chunks[1..]);
      forall i | 0 < i <= |rest.sent|
        ensures chunks[i] == chunks[1..][i - 1]
      {
      }
    }
  }

  /**
   * Every envelope a reader forwards names its own sender and splits back
   * into it, so the broadcaster's index of the second part is in range.
   */
  lemma {:induction false} RunEnvelopesRoute(sender: string, chunks: seq<seq<byte>>)
    requires ChunksFit(chunks) && Delimiter !in sender
    ensures forall m :: m in Run(sender, chunks).sent ==> Route(m).Some? && Route(m).value.0 == sender
  {
    if |chunks| > 0 && Step(sender, chunks[0]).Forward? {
      RunEnvelopesRoute(sender, chunks[1..]);
      var text := Utf8.Decode(CString(AfterRead(chunks[0])).value).value;
      SplitFormat(sender, text);
    }
  }
}
