/** The fragmented-MJPEG branch of `startClientUDP`: strip the tag, append, emit on END_TAG. */
module Reassembly {
  import opened Sequences
  import opened Fragments

  /** Bytes collected for the current group, and everything written to stdout. */
  datatype Receiver = Receiver(partial: seq<byte>, output: seq<byte>)

  const START := Receiver([], [])

  function Deliver(r: Receiver, d: Datagram): Receiver {
    var group := r.partial + d.payload;
    if d.tag == END_TAG then Receiver([], r.output + group) else Receiver(group, r.output)
  }

  function DeliverAll(r: Receiver, ds: seq<Datagram>): Receiver {
    if ds == [] then r else Deliver(DeliverAll(r, Front(ds)), Last(ds))
  }

  class Reassembler {
    const local: array<byte>        // cRTP_Payload_local
    var localSize: nat              // iRTP_PacketSize_local
    var stdout: seq<byte>

    ghost predicate Valid()
      reads this
    {
      localSize <= local.Length
    }

    ghost function State(): Receiver
      requires Valid()
      reads this, local
    {
      Receiver(local[..localSize], stdout)
    }

    /** BUFFSIZE bytes of local storage. */
    constructor (buffsize: nat)
      ensures Valid() && fresh(local) && local.Length == buffsize && State() == START
    {
      local := new byte[buffsize](_ => 0);
      localSize, stdout := 0, [];
    }

    /** One received datagram of `received` bytes, of which the first is the tag. */
    method Receive(packet: array<byte>, received: nat)
      requires Valid() && packet != local && 0 < received <= packet.Length
      requires localSize + received - 1 <= local.Length
      modifies this`localSize, this`stdout, local
      ensures Valid()
      ensures State() == Deliver(old(State()), Datagram(packet[0], packet[1..received]))
    {
      ghost var was := local[..localSize];
      var i := 1;
      while i < received
        modifies local
        invariant 1 <= i <= received
        invariant packet[..] == old(packet[..])
        invariant local[..localSize + i - 1] == was + packet[1..i]
      {
        local[i - 1 + localSize] := packet[i];
        i := i + 1;
      }
      localSize := localSize + received - 1;
      if packet[0] == 127 {
        i := 0;
        while i < localSize
          modifies this`stdout
          invariant 0 <= i <= localSize
          invariant stdout == old(stdout) + local[..i]
        {
          stdout := stdout + [local[i]];
          i := i + 1;
        }
        localSize := 0;
      }
    }
  }

  // ---------------------------------------------------------------- any stream

  lemma {:induction false} DeliverAppend(r: Receiver, a: seq<Datagram>, b: seq<Datagram>)
    ensures DeliverAll(r, a + b) == DeliverAll(DeliverAll(r, a), b)
    decreases |b|
  {
    if b == [] {
      assert a + b == a;
    } else {
      DeliverAppend(r, a, Front(b));
      assert Front(a + b) == a + Front(b);
    }
  }

  /** The receiver neither loses, invents nor reorders a payload byte. */
  lemma {:induction false} NothingLost(r: Receiver, ds: seq<Datagram>)
    ensures var after := DeliverAll(r, ds);
      after.output + after.partial == r.output + r.partial + Payload(ds)
    decreases |ds|
  {
    if ds != [] {
      NothingLost(r, Front(ds));
      var before := DeliverAll(r, Front(ds));
      var d := Last(ds).payload;
      assert before.output + (before.partial + d) == (before.output + before.partial) + d;
    }
  }

  /** Output before a point does not influence what is written after it. */
  lemma {:induction false} OutputOnlyGrows(partial: seq<byte>, output: seq<byte>, ds: seq<Datagram>)
    ensures var clean := DeliverAll(Receiver(partial, []), ds);
      DeliverAll(Receiver(partial, output), ds) == Receiver(clean.partial, output + clean.output)
    decreases |ds|
  {
    if ds != [] {
      OutputOnlyGrows(partial, output, Front(ds));
      var clean := DeliverAll(Receiver(partial, []), Front(ds));
      var group := clean.partial + Last(ds).payload;
      assert output + (clean.output + group) == output + clean.output + group;
    }
  }

  /** A delivered END_TAG datagram wipes out the effect of every earlier loss: from there on the
      receiver behaves like a freshly started one. */
  lemma ResyncAfterEnd(r: Receiver, lossy: seq<Datagram>, end: Datagram, rest: seq<Datagram>)
    requires end.tag == END_TAG
    ensures var before := DeliverAll(r, lossy + [end]);
      var clean := DeliverAll(START, rest);
      DeliverAll(r, lossy + [end] + rest) == Receiver(clean.partial, before.output + clean.output)
  {
    var head := lossy + [end];
    assert Front(head) == lossy;
    DeliverAppend(r, head, rest);
    OutputOnlyGrows([], DeliverAll(r, head).output, rest);
  }

  /** Whatever subset of the datagrams arrives, without reordering, the client's output followed
      by its partial buffer is a subsequence of the payload bytes sent. */
  lemma LossKeepsOrder(ds: seq<Datagram>, arrives: seq<bool>)
    requires |ds| == |arrives|
    ensures var after := DeliverAll(START, Keep(ds, arrives));
      Subsequence(after.output + after.partial, Payload(ds))
  {
    KeptPayload(ds, arrives);
    NothingLost(START, Keep(ds, arrives));
    assert START.output + START.partial + Payload(Keep(ds, arrives)) == Payload(Keep(ds, arrives));
  }

  lemma {:induction false} KeptPayload(ds: seq<Datagram>, arrives: seq<bool>)
    requires |ds| == |arrives|
    ensures Subsequence(Payload(Keep(ds, arrives)), Payload(ds))
    decreases |ds|
  {
    if ds != [] {
      var kept := Keep(Front(ds), Front(arrives));
      KeptPayload(Front(ds), Front(arrives));
      var tail := if Last(arrives) then [Last(ds)] else [];
      PayloadAppend(kept, tail);
      assert Front([Last(ds)]) == [];
      assert Payload(tail) == if Last(arrives) then Last(ds).payload else [];
      SubsequenceRefl(Last(ds).payload);
      SubsequenceEmpty(Last(ds).payload);
      SubsequenceAppend(Payload(kept), Payload(Front(ds)), Payload(tail), Last(ds).payload);
    }
  }

  lemma {:induction false} SubsequenceEmpty(b: seq<byte>)
    ensures Subsequence([], b)
    decreases |b|
  {
    if b != [] { SubsequenceEmpty(Front(b)); }
  }
}
