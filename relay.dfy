/**
 * The client registry and the broadcaster. The registry is the list of
 * client streams the acceptor has pushed, in accept order, never shrunk; a
 * stream is represented by its formatted peer address, the key the
 * broadcaster compares with an envelope's sender part. The broadcaster takes
 * envelopes from the queue in order, splits each at its first `;`, and
 * writes the text to every registered client whose key differs from the
 * sender part.
 */
module Relay {
  import opened Common
  import Utf8
  import opened Envelope
  import opened Framing
  import Reader

  /** One `write` on a client's stream: to whom, and which bytes. */
  datatype Write = Write(recipient: string, data: seq<byte>)

  /** The writes of one broadcast pass over `clients`, in registry order. */
  function Deliveries(clients: seq<string>, key: string, data: seq<byte>): (r: seq<Write>)
    ensures |r| <= |clients|
    ensures forall i :: 0 <= i < |r| ==> r[i].recipient != key && r[i].data == data && r[i].recipient in clients
  {
    if |clients| == 0 then []
    else (if clients[0] != key then [Write(clients[0], data)] else []) + Deliveries(clients[1..], key, data)
  }

  /**
   * A broadcast pass visits the registry in order: passing over `a + b` is
   * passing over `a` and then over `b`.
   */
  lemma {:induction false} DeliveriesAppend(a: seq<string>, b: seq<string>, key: string, data: seq<byte>)
    ensures Deliveries(a + b, key, data) == Deliveries(a, key, data) + Deliveries(b, key, data)
  {
    if |a| == 0 {
      assert a + b == b;
    } else {
      assert (a + b)[0] == a[0] && (a + b)[1..] == a[1..] + b;
      DeliveriesAppend(a[1..], b, key, data);
    }
  }

  /** Every registered client other than the sender gets the payload. */
  lemma {:induction false} DeliveriesReachAll(clients: seq<string>, key: string, data: seq<byte>)
    ensures forall c :: c in clients && c != key ==> Write(c, data) in Deliveries(clients, key, data)
  {
    if |clients| > 0 {
      DeliveriesReachAll(clients[1..], key, data);
      assert forall c :: c in clients && c != clients[0] ==> c in clients[1..];
    }
  }

  /** A broadcast writes nothing exactly when no registered client but the sender exists, the empty registry included. */
  lemma DeliveriesNone(clients: seq<string>, key: string, data: seq<byte>)
    ensures Deliveries(clients, key, data) == [] <==> forall c :: c in clients ==> c == key
  {
    DeliveriesReachAll(clients, key, data);
    var r := Deliveries(clients, key, data);
    if r != [] {
      assert r[0].recipient in clients && r[0].recipient != key;
    }
  }

  /** How often `x` is registered. */
  function Count(s: seq<string>, x: string): nat
  {
    if |s| == 0 then 0 else (if s[0] == x then 1 else 0) + Count(s[1..], x)
  }

  /** What client `who` receives from a list of writes, in write order. */
  function Inbox(writes: seq<Write>, who: string): seq<seq<byte>>
  {
    if |writes| == 0 then []
    else (if writes[0].recipient == who then [writes[0].data] else []) + Inbox(writes[1..], who)
  }

  lemma {:induction false} InboxAppend(v: seq<Write>, w: seq<Write>, who: string)
    ensures Inbox(v + w, who) == Inbox(v, who) + Inbox(w, who)
  {
    if |v| == 0 {
      assert v + w == w;
    } else {
      assert (v + w)[0] == v[0] && (v + w)[1..] == v[1..] + w;
      InboxAppend(v[1..], w, who);
    }
  }

  /** One broadcast writes the payload to `who` once per registration, and never to the sender. */
  lemma {:induction false} InboxOfDeliveries(clients: seq<string>, key: string, data: seq<byte>, who: string)
    ensures Inbox(Deliveries(clients, key, data), who) == if who == key then [] else seq(Count(clients, who), _ => data)
  {
    if |clients| > 0 {
      var head := if clients[0] != key then [Write(clients[0], data)] else [];
      InboxAppend(head, Deliveries(clients[1..], key, data), who);
      InboxOfDeliveries(clients[1..], key, data, who);
      if who != key && clients[0] == who {
        assert seq(Count(clients, who), _ => data) == [data] + seq(Count(clients[1..], who), _ => data);
      }
    }
  }

  /** The writes for one envelope taken from the queue; None where the broadcaster's `split[1]` would panic. */
  function Deliver(clients: seq<string>, msg: string): (r: Option<seq<Write>>)
    ensures r.Some? <==> Delimiter in msg
    ensures r.Some? ==> forall i :: 0 <= i < |r.value| ==>
              r.value[i].recipient != Route(msg).value.0 && r.value[i].data == Utf8.Encode(Route(msg).value.1)
  {
    match Route(msg)
    case None => None
    case Some((key, text)) => Some(Deliveries(clients, key, Utf8.Encode(text)))
  }

  /** The writes of draining a queue, and how many envelopes were handled before the broadcaster stopped. */
  datatype Drained = Drained(writes: seq<Write>, delivered: nat)

  function Drain(clients: seq<string>, queue: seq<string>): (r: Drained)
    ensures r.delivered <= |queue|
    ensures r.delivered < |queue| ==> Route(queue[r.delivered]).None?
  {
    if |queue| == 0 then Drained([], 0)
    else
      match Deliver(clients, queue[0])
      case None => Drained([], 0)
      case Some(w) =>
        var rest := Drain(clients, queue[1..]);
        Drained(w + rest.writes, 1 + rest.delivered)
  }

  /** The writes done so far followed by the drain of the rest of the queue. */
  function DrainedAfter(writes: seq<Write>, delivered: nat, rest: Drained): Drained
  {
    Drained(writes + rest.writes, delivered + rest.delivered)
  }

  /** Draining a queue whose first envelope routes: that envelope's writes, then the drain of the rest. */
  lemma DrainCons(clients: seq<string>, q: seq<string>, w: seq<Write>)
    requires |q| > 0 && Deliver(clients, q[0]) == Some(w)
    ensures Drain(clients, q) == Drained(w + Drain(clients, q[1..]).writes, 1 + Drain(clients, q[1..]).delivered)
  {
  }

  /** Handling one more envelope keeps the drain so far followed by the drain of the rest equal to the whole drain. */
  lemma DrainAdvance(clients: seq<string>, queue: seq<string>, writes: seq<Write>, i: nat, w: seq<Write>)
    requires i < |queue| && Deliver(clients, queue[i]) == Some(w)
    requires Drain(clients, queue) == DrainedAfter(writes, i, Drain(clients, queue[i..]))
    ensures Drain(clients, queue) == DrainedAfter(writes + w, i + 1, Drain(clients, queue[i + 1..]))
  {
    var q := queue[i..];
    assert q[0] == queue[i] && q[1..] == queue[i + 1..];
    DrainCons(clients, q, w);
    AfterCons(writes, i, w, Drain(clients, q[1..]));
  }

  /** Regrouping: one envelope's writes move from the rest to what is done. */
  lemma AfterCons(writes: seq<Write>, i: nat, w: seq<Write>, rest: Drained)
    ensures DrainedAfter(writes, i, Drained(w + rest.writes, 1 + rest.delivered)) == DrainedAfter(writes + w, i + 1, rest)
  {
    assert writes + (w + rest.writes) == (writes + w) + rest.writes;
  }

  /** An envelope without a sender part ends the drain where it stands. */
  lemma DrainHalt(clients: seq<string>, queue: seq<string>, writes: seq<Write>, i: nat)
    requires i < |queue| && Deliver(clients, queue[i]).None?
    requires Drain(clients, queue) == DrainedAfter(writes, i, Drain(clients, queue[i..]))
    ensures Drain(clients, queue) == Drained(writes, i)
  {
    assert queue[i..][0] == queue[i];
    assert writes + [] == writes;
  }

  /** Nothing left to drain. */
  lemma DrainDone(clients: seq<string>, queue: seq<string>, writes: seq<Write>)
    requires Drain(clients, queue) == DrainedAfter(writes, |queue|, Drain(clients, queue[|queue|..]))
    ensures Drain(clients, queue) == Drained(writes, |queue|)
  {
    assert queue[|queue|..] == [];
    assert writes + [] == writes;
  }

  predicate AllRoutable(queue: seq<string>)
  {
    forall i :: 0 <= i < |queue| ==> Route(queue[i]).Some?
  }

  /**
   * The payloads a client with key `who`, registered `copies` times, should
   * see from a queue: `copies` writes of each envelope from others, in queue order.
   */
  function Expected(queue: seq<string>, who: string, copies: nat): seq<seq<byte>>
    requires AllRoutable(queue)
  {
    if |queue| == 0 then []
    else
      var (key, text) := Route(queue[0]).value;
      (if key != who then seq(copies, _ => Utf8.Encode(text)) else []) + Expected(queue[1..], who, copies)
  }

  /** A queue routes throughout exactly when its first envelope does and the rest of it does. */
  lemma AllRoutableCons(queue: seq<string>)
    requires |queue| > 0
    ensures AllRoutable(queue) <==> Route(queue[0]).Some? && AllRoutable(queue[1..])
  {
    assert forall i :: 0 < i < |queue| ==> queue[i] == queue[1..][i - 1];
  }

  /**
   * The broadcaster handles envelopes in order and stops at the first one with
   * no sender part: every envelope before the stop routes, the one at the stop does not.
   */
  lemma {:induction false} DrainMeaning(clients: seq<string>, queue: seq<string>)
    ensures Drain(clients, queue).delivered <= |queue|
    ensures Drain(clients, queue).delivered == |queue| <==> AllRoutable(queue)
    ensures Drain(clients, queue).delivered < |queue| ==> Route(queue[Drain(clients, queue).delivered]).None?
    ensures forall i :: 0 <= i < Drain(clients, queue).delivered ==> Route(queue[i]).Some?
  {
    if |queue| > 0 {
      AllRoutableCons(queue);
      match Deliver(clients, queue[0])
      case None =>
        assert Drain(clients, queue).delivered == 0;
      case Some(w) =>
        DrainCons(clients, queue, w);
        DrainMeaning(clients, queue[1..]);
    }
    DrainHandledRoute(clients, queue);
  }

  /** Every envelope the broadcaster handled has a sender part. */
  lemma {:induction false} DrainHandledRoute(clients: seq<string>, queue: seq<string>)
    ensures forall i :: 0 <= i < Drain(clients, queue).delivered ==> Route(queue[i]).Some?
  {
    if |queue| > 0 {
      match Deliver(clients, queue[0])
      case None =>
      case Some(w) =>
        DrainCons(clients, queue, w);
        DrainHandledRoute(clients, queue[1..]);
        var d := Drain(clients, queue).delivered;
        forall i | 0 < i < d
          ensures Route(queue[i]).Some?
        {
          assert queue[i] == queue[1..][i - 1];
        }
    }
  }

  /** What the broadcaster writes is decided by the envelopes it handles: draining only those gives the same result. */
  lemma {:induction false} DrainPrefix(clients: seq<string>, queue: seq<string>)
    ensures Drain(clients, queue[..Drain(clients, queue).delivered]) == Drain(clients, queue)
  {
    if |queue| > 0 {
      match Deliver(clients, queue[0])
      case None =>
        assert queue[..0] == [];
      case Some(w) =>
        DrainCons(clients, queue, w);
        DrainPrefix(clients, queue[1..]);
        var d := Drain(clients, queue).delivered;
        var p := queue[..d];
        assert p[0] == queue[0] && p[1..] == queue[1..][..d - 1];
        DrainCons(clients, p, w);
    }
  }

  /**
   * FIFO delivery: a client receives, in queue order, the payload of every
   * envelope not sent by itself, once per time it is registered, and nothing else.
   */
  lemma {:induction false} DrainFifo(clients: seq<string>, queue: seq<string>, who: string)
    requires AllRoutable(queue)
    ensures Inbox(Drain(clients, queue).writes, who) == Expected(queue, who, Count(clients, who))
  {
    if |queue| > 0 {
      var (key, text) := Route(queue[0]).value;
      var w := Deliveries(clients, key, Utf8.Encode(text));
      assert AllRoutable(queue[1..]) by {
        assert forall i :: 0 <= i < |queue| - 1 ==> queue[1..][i] == queue[i + 1];
      }
      var rest := Drain(clients, queue[1..]).writes;
      assert Drain(clients, queue).writes == w + rest;
      InboxAppend(w, rest, who);
      InboxOfDeliveries(clients, key, Utf8.Encode(text), who);
      DrainFifo(clients, queue[1..], who);
      assert Expected(queue, who, Count(clients, who)) == Inbox(w, who) + Expected(queue[1..], who, Count(clients, who));
    }
  }

  /**
   * FIFO delivery up to a stop: when the broadcaster halts at an envelope
   * without a sender part, each client has received, in queue order, the
   * payloads of the envelopes before it from others, once per registration.
   */
  lemma DrainFifoUntilStop(clients: seq<string>, queue: seq<string>, who: string)
    ensures AllRoutable(queue[..Drain(clients, queue).delivered])
    ensures Inbox(Drain(clients, queue).writes, who) ==
            Expected(queue[..Drain(clients, queue).delivered], who, Count(clients, who))
  {
    DrainHandledRoute(clients, queue);
    var d := Drain(clients, queue).delivered;
    assert forall i :: 0 <= i < d ==> queue[..d][i] == queue[i];
    DrainPrefix(clients, queue);
    DrainFifo(clients, queue[..Drain(clients, queue).delivered], who);
  }

  /**
   * One read relayed end to end: the envelope a reader forwards for it makes
   * the broadcaster write exactly the framed bytes of the read, the buffer's
   * prefix before its first zero byte, to every other registered client.
   */
  lemma RelayRead(clients: seq<string>, sender: string, data: seq<byte>)
    requires Delimiter !in sender && |data| <= BufferSize
    requires Reader.Step(sender, data).Forward?
    ensures Deliver(clients, Reader.Step(sender, data).msg) == Some(Deliveries(clients, sender, CString(AfterRead(data)).value))
  {
    var frame := CString(AfterRead(data)).value;
    var text := Utf8.Decode(frame).value;
    SplitFormat(sender, text);
    Utf8.EncodeDecode(frame);
  }

  /**
   * However the envelopes of several readers interleave in the queue, the
   * broadcaster never meets one without a sender part, as long as the
   * formatted addresses hold no `;`.
   */
  lemma ReadersNeverStopDrain(clients: seq<string>, queue: seq<string>,
                              senders: seq<string>, chunks: seq<seq<seq<byte>>>)
    requires |senders| == |chunks|
    requires forall j :: 0 <= j < |senders| ==> Delimiter !in senders[j] && Reader.ChunksFit(chunks[j])
    requires forall m :: m in queue ==> exists j :: 0 <= j < |senders| && m in Reader.Run(senders[j], chunks[j]).sent
    ensures AllRoutable(queue) && Drain(clients, queue).delivered == |queue|
  {
    forall i | 0 <= i < |queue|
      ensures Route(queue[i]).Some?
    {
      assert queue[i] in queue;
      var j :| 0 <= j < |senders| && queue[i] in Reader.Run(senders[j], chunks[j]).sent;
      Reader.RunEnvelopesRoute(senders[j], chunks[j]);
    }
    DrainMeaning(clients, queue);
  }

  /** The shared list of client streams. */
  class Registry {
    var clients: seq<string>

    constructor ()
      ensures clients == []
    {
      clients := [];
    }

    /** The acceptor's push: the new client goes to the end, nothing already registered moves or goes. */
    method Add(addr: string)
      modifies this
      ensures clients == old(clients) + [addr]
    {
      clients := clients + [addr];
    }

    /** One envelope through the broadcaster's inner loop. */
    method Broadcast(msg: string) returns (writes: seq<Write>, ok: bool)
      ensures ok <==> Deliver(clients, msg).Some?
      ensures ok ==> writes == Deliver(clients, msg).value
      ensures !ok ==> writes == []
    {
      var parts := SplitN2(msg);
      if |parts| < 2 {
        return [], false;
      }
      var key, payload := parts[0], Utf8.Encode(parts[1]);
      writes := [];
      var i := 0;
      while i < |clients|
        invariant 0 <= i <= |clients|
        invariant writes == Deliveries(clients[..i], key, payload)
      {
        DeliveriesAppend(clients[..i], [clients[i]], key, payload);
        assert clients[..i + 1] == clients[..i] + [clients[i]];
        if clients[i] != key {
          writes := writes + [Write(clients[i], payload)];
        }
        i := i + 1;
      }
      assert clients[..i] == clients;
      ok := true;
    }

    /** The broadcaster's outer loop over the queue, in FIFO order. */
    method DrainQueue(queue: seq<string>) returns (writes: seq<Write>, delivered: nat)
      ensures Drained(writes, delivered) == Drain(clients, queue)
    {
      writes, delivered := [], 0;
      while delivered < |queue|
        invariant 0 <= delivered <= |queue|
        invariant Drain(clients, queue) == DrainedAfter(writes, delivered, Drain(clients, queue[delivered..]))
      {
        var w, ok := Broadcast(queue[delivered]);
        if !ok {
          DrainHalt(clients, queue, writes, delivered);
          return;
        }
        DrainAdvance(clients, queue, writes, delivered, w);
        writes, delivered := writes + w, delivered + 1;
      }
      DrainDone(clients, queue, writes);
    }
  }
}
