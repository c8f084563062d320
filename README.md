# TCP chat relay: a verified model of its sequential core

The relay listens on TCP, runs one reader per accepted connection and one
broadcaster thread. Each reader frames what a read returns, checks that it
is UTF-8 and queues the envelope `address;text`. The broadcaster takes the
envelopes off the queue in order. It splits each one at its first `;` and
writes the text to every registered client whose formatted address differs
from the sender part. This project models that core once the threads are
taken away. It has six modules:

- `Framing` (`framing.dfy`): the zeroed 2048-byte buffer after a read
  (`AfterRead`), and the C string at its start (`CString`), i.e. the bytes
  before the first zero byte.
- `Utf8` (`utf8.dfy`): the `to_str` check as a well-formed UTF-8 decoder
  (`Decode`). Its partner `Encode` is what `as_bytes` returns when the
  broadcaster writes. Both round trips are proved.
- `Envelope` (`envelope.dfy`): `format!("{:?};{}", …)` as `Format`, and
  `splitn(2, ";")` as `SplitN2`. `Route` picks the sender key and the
  payload, and fails where `split[1]` would panic.
- `Reader` (`reader.dfy`): the `recv` loop. `Recv` is a method over a fresh
  `array<byte>` per read. It is proved equal to the function `Run` over the
  list of chunks the reads return. `Step` is one iteration.
- `Relay` (`relay.dfy`): the `Registry` class. It holds the `seq` of client
  keys, in accept order, that the acceptor appends to. `Broadcast` is the
  inner loop over the clients. `DrainQueue` is the outer loop over the
  queue. `Deliveries` and `Drain` are their specification functions, and
  lemmas about them prove the delivery properties.
- `Common` (`common.dfy`): `Option`, the `byte` newtype, and `FirstIndex`.
  `FirstIndex` is the first-occurrence search that both the zero-byte scan
  and the `;` split use.

Addresses are opaque strings: the formatted `peer_addr()` of a stream. The
only assumption made about them is that they contain no `;`, and only the
lemmas that need it state it.

## Source behaviour the model keeps

- A read of 0 bytes is not a disconnect. The buffer stays all zero, so it
  frames as the empty payload, and an envelope with empty text is queued
  (`Reader.EmptyReadForwardsEmptyText`). At end of stream every later read
  returns 0 bytes, so the reader keeps queueing empty envelopes. The model's
  list of reads is finite, so it shows this only for as many reads as the
  list holds.
- The byte count a read returns is ignored. The payload is the buffer
  prefix before the first zero byte (`Framing.FrameOfRead`). A read of 2048
  non-zero bytes leaves no terminator, and the source then reads past the
  array. The model makes that an explicit stop, `Reader.Overread`.
- Clients are never removed from the registry. The sender is picked out by
  comparing formatted address strings, not by a structural client id.

## Model

| member | source | states |
|---|---|---|
| `Common.FirstIndex` | src/main.rs:27 | the first occurrence search (of the zero byte at line 27, of `;` at line 77): a found index holds `x` and no earlier position does; None exactly when `x` does not occur |
| `Framing.AfterRead` | src/main.rs:23-24 | after one read of `data` into the fresh buffer: 2048 bytes, its prefix is `data`, all the rest are zero |
| `Framing.CString` | src/main.rs:27 | when the buffer has a zero byte, the C string is the prefix before the first zero byte: it is followed by a zero and holds no zero itself; the result is None exactly when the buffer has no zero byte |
| `Framing.FrameOfRead` | src/main.rs:23-27 | the framed payload of a read: the bytes read, up to their first zero byte; all of them when they hold no zero and number fewer than 2048; None when all 2048 are non-zero; never longer than the read |
| `Framing.EmptyReadFramesEmpty` | src/main.rs:23-27 | a read of zero bytes frames as the empty payload |
| `Utf8.DecodeOne` | src/main.rs:28 | one well-formed UTF-8 sequence is 1 to 4 bytes long and fits inside the input |
| `Utf8.EncodeChar` | src/main.rs:50 | a character's encoding is 1 to 4 bytes long |
| `Utf8.Decode` | src/main.rs:28 | `to_str`: the text decoded from well-formed UTF-8 is at most as long as the bytes and at least a quarter of their length; `Utf8.DecodeEncode` and `Utf8.EncodeDecode` make it the exact inverse of `Encode` on the bytes it accepts |
| `Utf8.Encode` | src/main.rs:50 | `as_bytes`: a text encodes to 1 to 4 bytes per character; `Utf8.DecodeEncode` shows `Decode` accepts its output and gives the text back |
| `Utf8.DecodeOneEncodeChar` | src/main.rs:28 | decoding the front of an encoded character gives back that character and how many bytes it took |
| `Utf8.DecodeOneIsEncoding` | src/main.rs:28 | the bytes `DecodeOne` accepts are exactly the encoding of the character it returns (no overlong or second form) |
| `Utf8.DecodeEncode` | src/main.rs:28 | decoding an encoded text gives the text back |
| `Utf8.EncodeDecode` | src/main.rs:50 | re-encoding decoded text gives back the exact bytes, so the bytes written match the bytes accepted |
| `Utf8.DecodeNoNul` | src/main.rs:27-28 | text decoded from a zero-free payload holds no NUL character |
| `Envelope.Format` | src/main.rs:29 | the envelope is the sender, one `;`, and the text; when the sender holds no `;` its first `;` is right after the sender. `Envelope.SplitFormat` shows `SplitN2` takes it apart again |
| `Envelope.SplitN2` | src/main.rs:77 | `splitn(2, ";")` gives one part, the whole message, exactly when there is no `;`; otherwise two parts: the first holds no `;`, and rejoining the two with `;` gives the message back |
| `Envelope.Route` | src/main.rs:77-78 | a sender key and a payload exist exactly when the message holds a `;`; the key holds no `;` and the two rejoin to the message |
| `Envelope.SplitFormat` | src/main.rs:77-78 | round trip: for a sender without `;` and any text, even one holding `;`, the envelope `sender;text` built for line 29 splits back into exactly `[sender, text]` |
| `Envelope.SplitFormatNeedsPlainSender` | src/main.rs:77 | for every address holding `;` and every text, the key split back out of the envelope is the address cut at its first `;`, so it differs from the address |
| `Reader.Step` | src/main.rs:23-37 | one loop iteration: it forwards an envelope of the form `sender;text`, or stops for a bad payload or an overread, never for the end of input; `Reader.StepMeaning` gives both directions of when it forwards |
| `Reader.Run` | src/main.rs:22-37 | the loop over the reads: at most one envelope per read, and it stops with `InputEnded` exactly when every read forwarded one; `Reader.RunMeaning` ties each envelope to its read |
| `Reader.ReadFrame` | src/main.rs:23-27 | reading into a fresh zero-filled 2048-byte array and taking its C string gives exactly the frame `CString(AfterRead(data))` |
| `Reader.ReadInto` | src/main.rs:24 | a read overwrites the buffer's prefix with the bytes read and leaves the rest as it was |
| `Reader.Recv` | src/main.rs:22-37 | the reader loop on a fresh zeroed array per read forwards exactly the envelopes of `Run` and stops for the same reason |
| `Reader.EmptyReadForwardsEmptyText` | src/main.rs:23-30 | a zero-byte read forwards the envelope `sender;` with empty text; it is not a disconnect |
| `Reader.StepMeaning` | src/main.rs:27-37 | one read forwards an envelope exactly when its framed payload is UTF-8. That envelope is `sender;text`, the text encodes to the framed payload and holds no NUL. The reader stops on an overread exactly when all 2048 bytes are non-zero |
| `Reader.RunMeaning` | src/main.rs:22-37 | envelope `i` is read `i`'s envelope, in read order; it forwards at most one per read, all of them when the input is used up, and otherwise stops at the first read that forwards nothing, for that read's reason |
| `Reader.RunEnvelopesRoute` | src/main.rs:29 | every envelope a reader with a `;`-free address forwards splits into two parts with that address as the key, so `split[1]` is in range |
| `Relay.Deliveries` | src/main.rs:83-86 | a broadcast pass holds at most one write per registered client; every write carries the payload, goes to a registered client, and never to the sender's key |
| `Relay.DeliveriesAppend` | src/main.rs:83 | a pass over `a + b` is the pass over `a` followed by the pass over `b`: writes follow registry order, i.e. accept order |
| `Relay.DeliveriesReachAll` | src/main.rs:83-86 | every registered client whose key differs from the sender's is written the payload |
| `Relay.DeliveriesNone` | src/main.rs:83-87 | a broadcast writes nothing exactly when every registered client is the sender, the empty registry included |
| `Relay.InboxOfDeliveries` | src/main.rs:83-86 | one broadcast gives client `who` the payload once per time it is registered, and nothing if `who` is the sender |
| `Relay.Deliver` | src/main.rs:77-87 | the writes for one envelope exist exactly when it holds a `;`; each carries the encoded payload and none goes to the sender key. `Relay.DeliveriesReachAll` and `Relay.InboxOfDeliveries` say every other client gets it |
| `Relay.Drain` | src/main.rs:75-88 | the broadcaster's pass over the queue handles at most all envelopes, and when it stops early the envelope it stopped at has no `;`; `Relay.DrainMeaning` gives the converse, and `Relay.DrainFifo` what each client receives |
| `Relay.DrainMeaning` | src/main.rs:75-78 | the broadcaster handles envelopes in queue order; it handles all of them exactly when each holds a `;`, and otherwise stops at the first that does not, where `split[1]` panics: every envelope before the stop holds a `;` and the one at the stop does not |
| `Relay.DrainHandledRoute` | src/main.rs:75-78 | every envelope the broadcaster handled, i.e. every one before the stop, splits into a sender key and a payload |
| `Relay.DrainPrefix` | src/main.rs:75-88 | the writes and the handled count depend only on the envelopes handled: draining just the prefix before the stop gives the same result as draining the whole queue |
| `Relay.DrainFifo` | src/main.rs:75-87 | FIFO: a client receives, in queue order, the payload bytes of every envelope from others, once per time it is registered (so exactly once when registered once), and nothing else |
| `Relay.DrainFifoUntilStop` | src/main.rs:75-88 | FIFO up to a stop, for any queue: the envelopes before the stop all route, and each client has received, in queue order, the payload bytes of each of them from others, once per registration, and nothing else |
| `Relay.RelayRead` | src/main.rs:77-85 | end to end: the envelope a reader forwards for a read makes the broadcaster write that read's framed bytes, the prefix before the first zero, to every other client |
| `Relay.ReadersNeverStopDrain` | src/main.rs:77-78 | in any interleaving of several readers' envelopes in the queue, every envelope splits in two and the whole queue is delivered |
| `Relay.Registry.constructor` | src/main.rs:66 | the registry starts empty |
| `Relay.Registry.Add` | src/main.rs:97 | accept appends the new client at the end; nothing registered moves or is removed |
| `Relay.Registry.Broadcast` | src/main.rs:77-87 | the loop over the registry writes exactly the `Deliveries` of the envelope's key and encoded payload, and fails with no write when the envelope has no `;` |
| `Relay.Registry.DrainQueue` | src/main.rs:75-88 | the loop over the queue produces exactly the writes of `Drain` and the number of envelopes it handled |

## Left out

- Sockets (`bind`, `accept`, `read`, `write`, `try_clone`, `peer_addr`). They are network I/O. A read is a chunk of at most 2048 bytes, a write is a `Write` record, and a stream is its formatted address.
- Threads, the `crossbeam` scope, the `mpsc` channel and the `Mutex`. Their point is concurrency. The single broadcaster is a sequential drain of a queue, and the registry does not change during a drain; `Relay.ReadersNeverStopDrain` covers any interleaving of readers' envelopes in the queue.
- The `"pipe broken"` exit of the reader (src/main.rs:30-33). The receiver is moved into the broadcaster thread (src/main.rs:74-75), so a send fails only once that thread has died and dropped it. It dies from the `split[1]` panic (src/main.rs:78), which the model represents as the drain stopping (`Relay.DrainMeaning`), or from the `unwrap` of a write (src/main.rs:50, reached from :85, e.g. to a client that disconnected and is never removed) or of the lock (src/main.rs:82), which the model does not represent. `Reader.Run` reads on its own, without the broadcaster's state, so it never takes this exit.
- `panic!` on a read error, `unwrap` on write and lock failures, and short writes from `write` instead of `write_all`. These are error paths of foreign calls.
- Logging (`println!`, `print!`, `flush`) and the `sleep` after the drain loop.
- The overread when all 2048 bytes are non-zero. This is undefined behaviour; the model stops the reader with `Overread` instead.
- Reader.Recv: the source loops forever, while the model reads a finite list of chunks and then stops with `InputEnded`.
- The exact text of `format!("{:?}", peer_addr())`. Addresses are opaque strings without `;`. A stream's key is taken as fixed, though after a disconnect `peer_addr` would format as an error instead.
