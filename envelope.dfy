/**
 * The envelope a reader hands to the broadcaster: the sender's formatted
 * address, a `;`, and the text. The broadcaster splits it at the first `;`
 * into at most two parts.
 */
module Envelope {
  import opened Common

  const Delimiter: char := ';'

  /** The envelope built by a reader for one message; its first delimiter is the one after a plain sender. */
  function Format(sender: string, text: string): (r: string)
    ensures |r| == |sender| + 1 + |text|
    ensures Delimiter !in sender ==> FirstIndex(r, Delimiter) == Some(|sender|)
  {
    var r := sender + [Delimiter] + text;
    if Delimiter !in sender then
      assert r[..|sender|] == sender && r[|sender|] == Delimiter;
      FirstIndexAt(r, Delimiter, |sender|);
      r
    else r
  }

  /**
   * Splitting into at most two parts at the first delimiter: one part, the
   * whole message, when there is no delimiter; otherwise the text before it
   * (which holds no delimiter) and everything after it.
   */
  function SplitN2(msg: string): (parts: seq<string>)
    ensures 1 <= |parts| <= 2
    ensures |parts| == 1 <==> Delimiter !in msg
    ensures |parts| == 1 ==> parts[0] == msg
    ensures |parts| == 2 ==> Delimiter !in parts[0] && Format(parts[0], parts[1]) == msg
  {
    match FirstIndex(msg, Delimiter)
    case None => [msg]
    case Some(i) =>
      assert msg == msg[..i] + [Delimiter] + msg[i + 1..];
      [msg[..i], msg[i + 1..]]
  }

  /** The sender key and the payload of an envelope; None where the broadcaster would index past its one part. */
  function Route(msg: string): (r: Option<(string, string)>)
    ensures r.Some? <==> Delimiter in msg
    ensures r.Some? ==> Delimiter !in r.value.0 && Format(r.value.0, r.value.1) == msg
  {
    var parts := SplitN2(msg);
    if |parts| == 2 then Some((parts[0], parts[1])) else None
  }

  /** Round trip: an envelope splits back into its sender and its text, even when the text holds delimiters. */
  lemma SplitFormat(sender: string, text: string)
    requires Delimiter !in sender
    ensures SplitN2(Format(sender, text)) == [sender, text]
    ensures Route(Format(sender, text)) == Some((sender, text))
  {
    var msg := Format(sender, text);
    assert msg[|sender|] == Delimiter && msg[..|sender|] == sender;
    FirstIndexAt(msg, Delimiter, |sender|);
    assert msg[|sender| + 1..] == text;
  }

  /** A sender that holds a delimiter does not survive the round trip: its key comes back cut at that delimiter. */
  lemma SplitFormatNeedsPlainSender(sender: string, text: string)
    requires Delimiter in sender
    ensures SplitN2(Format(sender, text))[0] == sender[..FirstIndex(sender, Delimiter).value] != sender
  {
    var k := FirstIndex(sender, Delimiter).value;
    var msg := Format(sender, text);
    assert msg[..k] == sender[..k] && msg[k] == Delimiter;
    FirstIndexAt(msg, Delimiter, k);
    assert |sender[..k]| < |sender|;
  }
}
