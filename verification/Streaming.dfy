/** Server and client together: what the client writes to stdout, for whole runs of frames. */
module Streaming {
  import opened Sequences
  import opened Fragments
  import opened VideoSending
  import opened Reassembly

  /** The client after every datagram of a run has arrived in order. */
  function Lossless(cfg: Config, frames: seq<seq<byte>>): Receiver
    requires cfg.Valid()
  {
    DeliverAll(START, SendAll(cfg, frames).sent)
  }

  /** No datagram of `ds` overruns a client buffer of `buffsize` bytes. */
  predicate Room(buffsize: nat, r: Receiver, ds: seq<Datagram>) {
    ds == [] ||
    (Room(buffsize, r, Front(ds)) && |DeliverAll(r, Front(ds)).partial| + |Last(ds).payload| <= buffsize)
  }

  // ---------------------------------------------------------------- one flush at the client

  /** A group: datagrams of which at most the last is tagged END_TAG. */
  predicate Group(ds: seq<Datagram>) {
    ds != [] && forall i :: 0 <= i < |ds| - 1 ==> ds[i].tag != END_TAG
  }

  lemma {:induction false} UnfinishedGroup(buffsize: nat, r: Receiver, ds: seq<Datagram>)
    requires forall i :: 0 <= i < |ds| ==> ds[i].tag != END_TAG
    ensures DeliverAll(r, ds) == Receiver(r.partial + Payload(ds), r.output)
    ensures |r.partial| + |Payload(ds)| <= buffsize ==> Room(buffsize, r, ds)
    decreases |ds|
  {
    if ds == [] {
      assert r.partial + [] == r.partial;
    } else {
      UnfinishedGroup(buffsize, r, Front(ds));
      var d := Last(ds).payload;
      assert (r.partial + Payload(Front(ds))) + d == r.partial + (Payload(Front(ds)) + d);
    }
  }

  /** A group is written out whole when its last datagram is tagged END_TAG and kept whole
      otherwise; the buffer it needs is exactly what was kept before plus its payload. */
  lemma GroupDelivered(buffsize: nat, r: Receiver, ds: seq<Datagram>)
    requires Group(ds)
    ensures var group := r.partial + Payload(ds);
      DeliverAll(r, ds) ==
      if Last(ds).tag == END_TAG then Receiver([], r.output + group) else Receiver(group, r.output)
    ensures Room(buffsize, r, ds) <==> |r.partial| + |Payload(ds)| <= buffsize
  {
    UnfinishedGroup(buffsize, r, Front(ds));
    var d := Last(ds).payload;
    assert (r.partial + Payload(Front(ds))) + d == r.partial + (Payload(Front(ds)) + d);
  }

  lemma FlushDelivered(cfg: Config, p: seq<byte>, r: Receiver, buffsize: nat)
    requires cfg.Valid() && |p| + 1 <= cfg.capacity
    ensures var group := r.partial + p;
      DeliverAll(r, FlushDatagrams(cfg.max, p)) ==
      if |p| + 1 > cfg.max && (|p| + 1) % cfg.max == 0 then Receiver(group, r.output)
      else Receiver([], r.output + group)
    ensures Room(buffsize, r, FlushDatagrams(cfg.max, p)) <==> |r.partial| + |p| <= buffsize
  {
    FlushTiles(cfg, p);
    FlushTags(cfg, p);
    var ds := FlushDatagrams(cfg.max, p);
    forall i | 0 <= i < |ds| - 1
      ensures ds[i].tag != END_TAG
    {
      assert NumberedAt(cfg.max, ds, i);
    }
    GroupDelivered(buffsize, r, ds);
  }

  lemma {:induction false} RoomAppend(buffsize: nat, r: Receiver, a: seq<Datagram>, b: seq<Datagram>)
    ensures Room(buffsize, r, a + b) <==> Room(buffsize, r, a) && Room(buffsize, DeliverAll(r, a), b)
    decreases |b|
  {
    if b == [] {
      assert a + b == a;
    } else {
      RoomAppend(buffsize, r, a, Front(b));
      DeliverAppend(r, a, Front(b));
      assert Front(a + b) == a + Front(b);
    }
  }

  /** How one more frame moves the client. */
  lemma FrameDelivered(cfg: Config, frames: seq<seq<byte>>)
    requires cfg.Valid() && frames != [] && Fits(cfg, frames)
    ensures var size, n := Size(cfg, Front(frames)), |Last(frames)|;
      var before := Lossless(cfg, Front(frames));
      var p := SendAll(cfg, Front(frames)).pending + Last(frames);
      && cfg.Fill(size, n) == BufferSize(p)
      && |p| <= cfg.capacity
      && Lossless(cfg, frames) == (
           if !cfg.Flushes(size, n) then before
           else if cfg.Corner(size, n) then Receiver(before.partial + p, before.output)
           else Receiver([], before.output + (before.partial + p)))
  {
    var size, n := Size(cfg, Front(frames)), |Last(frames)|;
    var s := SendAll(cfg, Front(frames));
    var p := s.pending + Last(frames);
    SizeIsBufferSize(cfg, Front(frames));
    if cfg.Flushes(size, n) {
      DeliverAppend(START, s.sent, FlushDatagrams(cfg.max, p));
      FlushDelivered(cfg, p, Lossless(cfg, Front(frames)), 0);
    }
  }

  /** How much client buffer one more frame needs. */
  lemma FrameRoom(cfg: Config, frames: seq<seq<byte>>, buffsize: nat)
    requires cfg.Valid() && frames != [] && Fits(cfg, frames)
    ensures var size, n := Size(cfg, Front(frames)), |Last(frames)|;
      Room(buffsize, START, SendAll(cfg, frames).sent) <==>
        Room(buffsize, START, SendAll(cfg, Front(frames)).sent)
        && (cfg.Flushes(size, n) ==>
              |Lossless(cfg, Front(frames)).partial| + |SendAll(cfg, Front(frames)).pending| + n <= buffsize)
  {
    var s := SendAll(cfg, Front(frames));
    var p := s.pending + Last(frames);
    SizeIsBufferSize(cfg, Front(frames));
    if cfg.Flushes(Size(cfg, Front(frames)), |Last(frames)|) {
      RoomAppend(buffsize, START, s.sent, FlushDatagrams(cfg.max, p));
      FlushDelivered(cfg, p, Lossless(cfg, Front(frames)), buffsize);
    }
  }

  // ---------------------------------------------------------------- round trip

  /** Outside the corner every frame byte is written out once, in order, except what still waits
      in the server, and the client holds nothing back between frames. */
  lemma {:induction false} RoundTrip(cfg: Config, frames: seq<seq<byte>>)
    requires cfg.Valid() && Fits(cfg, frames) && CornerFree(cfg, frames)
    ensures Lossless(cfg, frames).partial == []
    ensures Lossless(cfg, frames).output + SendAll(cfg, frames).pending == Flatten(frames)
    decreases |frames|
  {
    if frames != [] {
      RoundTrip(cfg, Front(frames));
      FrameDelivered(cfg, frames);
      SizeIsBufferSize(cfg, Front(frames));
      var before, waiting := Lossless(cfg, Front(frames)), SendAll(cfg, Front(frames)).pending;
      assert before.output + (waiting + Last(frames)) == (before.output + waiting) + Last(frames);
    }
  }

  /** Outside the corner a client buffer as long as the server's is never overrun. */
  lemma {:induction false} ClientBufferSuffices(cfg: Config, frames: seq<seq<byte>>)
    requires cfg.Valid() && Fits(cfg, frames) && CornerFree(cfg, frames)
    ensures Room(cfg.capacity, START, SendAll(cfg, frames).sent)
    decreases |frames|
  {
    if frames != [] {
      ClientBufferSuffices(cfg, Front(frames));
      RoundTrip(cfg, Front(frames));
      FrameDelivered(cfg, frames);
      FrameRoom(cfg, frames, cfg.capacity);
    }
  }

  /** Bytes that corner flushes send without dropping them from the buffer. */
  function Repeated(cfg: Config, frames: seq<seq<byte>>): nat
    requires cfg.Valid()
  {
    if frames == [] then 0
    else
      var size, n := Size(cfg, Front(frames)), |Last(frames)|;
      Repeated(cfg, Front(frames)) + if cfg.Corner(size, n) then cfg.Fill(size, n) else 0
  }

  /** Byte count over any run: each corner flush adds the bytes it leaves in the buffer. */
  lemma {:induction false} ByteCount(cfg: Config, frames: seq<seq<byte>>)
    requires cfg.Valid() && Fits(cfg, frames)
    ensures var r, s := Lossless(cfg, frames), SendAll(cfg, frames);
      Repeated(cfg, frames) == 0 || |r.output| + |r.partial| + |s.pending| > |Flatten(frames)|
    ensures Repeated(cfg, frames) == 0 <==> CornerFree(cfg, frames)
    ensures |Lossless(cfg, frames).output| + |Lossless(cfg, frames).partial| + |SendAll(cfg, frames).pending|
              >= |Flatten(frames)|
    decreases |frames|
  {
    if frames != [] {
      ByteCount(cfg, Front(frames));
      FrameDelivered(cfg, frames);
      SizeIsBufferSize(cfg, Front(frames));
      assert |Flatten(frames)| == |Flatten(Front(frames))| + |Last(frames)|;
    }
  }

  /** The end-to-end law holds for a run if and only if none of its flushes hits the corner. */
  lemma RoundTripExactly(cfg: Config, frames: seq<seq<byte>>)
    requires cfg.Valid() && Fits(cfg, frames)
    ensures (Lossless(cfg, frames).partial == [] &&
             Lossless(cfg, frames).output + SendAll(cfg, frames).pending == Flatten(frames))
            <==> CornerFree(cfg, frames)
  {
    ByteCount(cfg, frames);
    if CornerFree(cfg, frames) {
      RoundTrip(cfg, frames);
    }
  }

  /** With the shipped thresholds a single frame of 39999 bytes breaks the law: nothing at all
      reaches stdout and the frame stays in the buffer. */
  lemma ShippedCorner(frame: seq<byte>)
    requires |frame| == 39999
    ensures SHIPPED.Valid() && Fits(SHIPPED, [frame]) && !CornerFree(SHIPPED, [frame])
    ensures Lossless(SHIPPED, [frame]) == Receiver(frame, [])
    ensures |SendAll(SHIPPED, [frame]).pending| == 39999
  {
    assert Front([frame]) == [];
    assert [] + [frame] == [frame] && [] + frame == frame;
    CornerFlush(SHIPPED, [], frame);
  }

  // ---------------------------------------------------------------- the corner, exactly

  /** Index among the waiting bytes of the slot that holds the tag of chunk `i`. */
  function Slot(max: nat, i: nat): int {
    i * max - 2
  }

  lemma ScarsExactly(max: nat, p: seq<byte>)
    requires 0 < max && Whole(max, p) <= 127
    ensures var k, q := Whole(max, p), Scarred(max, p);
      && |q| == |p|
      && (forall i :: 1 <= i < k && 0 <= Slot(max, i) ==> Slot(max, i) < |p| && q[Slot(max, i)] == i)
      && (forall j :: 0 <= j < |p| && (forall i :: 1 <= i < k ==> j != Slot(max, i)) ==> q[j] == p[j])
  {
    var k, q := Whole(max, p), Scarred(max, p);
    WholeFits(max, |p| + 1);
    forall i | 1 <= i < k && 0 <= Slot(max, i)
      ensures Slot(max, i) < |p| && q[Slot(max, i)] == i
    {
      MultiplyMonotone(i, k, max);
      QuotientUnique(max, i);
    }
    forall j | 0 <= j < |p| && forall i :: 1 <= i < k ==> j != Slot(max, i)
      ensures q[j] == p[j]
    {
      WholeFits(max, j + 2);
      MultiplyMonotone(1, (j + 2) / max, max);
      assert j == Slot(max, (j + 2) / max) || (j + 2) % max != 0;
    }
  }

  /** A corner flush delivers its payload D and emits nothing; D stays in the server's buffer with
      the tag slots overwritten by the chunk numbers. */
  lemma CornerFlush(cfg: Config, frames: seq<seq<byte>>, f: seq<byte>)
    requires cfg.Valid() && Fits(cfg, frames + [f]) && CornerFree(cfg, frames)
    requires cfg.Corner(Size(cfg, frames), |f|)
    ensures var d := SendAll(cfg, frames).pending + f;
      && Lossless(cfg, frames + [f]) == Receiver(d, Lossless(cfg, frames).output)
      && SendAll(cfg, frames + [f]).pending == Scarred(cfg.max, d) && Whole(cfg.max, d) <= 127
  {
    var d := SendAll(cfg, frames).pending + f;
    assert Front(frames + [f]) == frames;
    RoundTrip(cfg, frames);
    FrameDelivered(cfg, frames + [f]);
    SizeIsBufferSize(cfg, frames);
    WholeBelowEndTag(cfg, d);
    assert [] + d == d;
  }

  /** When the next frame F ends in an ordinary flush, the client emits D, then D again with the
      tag slots spoilt, then F. */
  lemma CornerThenFlush(cfg: Config, frames: seq<seq<byte>>, f1: seq<byte>, f2: seq<byte>)
    requires cfg.Valid() && Fits(cfg, frames + [f1] + [f2]) && CornerFree(cfg, frames)
    requires cfg.Corner(Size(cfg, frames), |f1|)
    requires var size := Size(cfg, frames + [f1]); cfg.Flushes(size, |f2|) && !cfg.Corner(size, |f2|)
    ensures var d := SendAll(cfg, frames).pending + f1;
      Lossless(cfg, frames + [f1] + [f2]) ==
      Receiver([], Lossless(cfg, frames).output + d + Scarred(cfg.max, d) + f2)
  {
    var once, twice := frames + [f1], frames + [f1] + [f2];
    assert Front(twice) == once;
    CornerFlush(cfg, frames, f1);
    FrameDelivered(cfg, twice);
    var d := SendAll(cfg, frames).pending + f1;
    Regroup(Lossless(cfg, frames).output, d, Scarred(cfg.max, d), f2);
  }

  lemma Regroup<T>(a: seq<T>, b: seq<T>, c: seq<T>, d: seq<T>)
    ensures a + (b + (c + d)) == a + b + c + d
  {}

  /** The client buffer survives a corner flush and the flush after it exactly if it holds
      2|D| + |F| bytes, about twice what the server's buffer has to hold. */
  lemma CornerNeedsRoom(cfg: Config, frames: seq<seq<byte>>, f1: seq<byte>, f2: seq<byte>, buffsize: nat)
    requires cfg.Valid() && Fits(cfg, frames + [f1] + [f2]) && CornerFree(cfg, frames)
    requires cfg.Corner(Size(cfg, frames), |f1|)
    requires cfg.Flushes(Size(cfg, frames + [f1]), |f2|)
    ensures Room(buffsize, START, SendAll(cfg, frames + [f1] + [f2]).sent) <==>
      Room(buffsize, START, SendAll(cfg, frames).sent)
      && 2 * (|SendAll(cfg, frames).pending| + |f1|) + |f2| <= buffsize
  {
    var once, twice := frames + [f1], frames + [f1] + [f2];
    assert Front(twice) == once && Front(once) == frames;
    CornerFlush(cfg, frames, f1);
    RoundTrip(cfg, frames);
    FrameRoom(cfg, once, buffsize);
    FrameRoom(cfg, twice, buffsize);
  }

  // ---------------------------------------------------------------- size of the buffer

  /** Between frames the buffer is empty or holds the tag slot and some bytes up to `min`;
      the only other sizes are those a corner flush leaves behind. */
  lemma {:induction false} SizeBetweenFrames(cfg: Config, frames: seq<seq<byte>>)
    requires cfg.Valid()
    ensures var size := Size(cfg, frames);
      size == 0 || 2 <= size <= cfg.min || (size > cfg.max && size % cfg.max == 0 && !CornerFree(cfg, frames))
    decreases |frames|
  {
    if frames != [] {
      SizeBetweenFrames(cfg, Front(frames));
    }
  }

  // ---------------------------------------------------------------- recovery from loss

  lemma SentByFrame(cfg: Config, s: Sender, frame: seq<byte>) returns (more: seq<Datagram>)
    requires cfg.Valid()
    ensures SendFrame(cfg, s, frame).sent == s.sent + more
  {
    more := if cfg.Flushes(BufferSize(s.pending), |frame|) then FlushDatagrams(cfg.max, s.pending + frame) else [];
  }

  lemma {:induction false} PrefixRuns(cfg: Config, early: seq<seq<byte>>, late: seq<seq<byte>>)
    requires cfg.Valid() && Fits(cfg, early + late) && CornerFree(cfg, early + late)
    ensures Fits(cfg, early) && CornerFree(cfg, early)
    decreases |late|
  {
    if late == [] {
      assert early + late == early;
    } else {
      assert Front(early + late) == early + Front(late);
      PrefixRuns(cfg, early, Front(late));
    }
  }

  lemma {:induction false} SplitRun(cfg: Config, early: seq<seq<byte>>, late: seq<seq<byte>>)
      returns (rest: seq<Datagram>)
    requires cfg.Valid()
    ensures SendAll(cfg, early + late).sent == SendAll(cfg, early).sent + rest
    decreases |late|
  {
    if late == [] {
      assert early + late == early;
      rest := [];
    } else {
      assert Front(early + late) == early + Front(late);
      rest := SplitRun(cfg, early, Front(late));
      var more := SentByFrame(cfg, SendAll(cfg, early + Front(late)), Last(late));
      assert (SendAll(cfg, early).sent + rest) + more == SendAll(cfg, early).sent + (rest + more);
      rest := rest + more;
    }
  }

  lemma {:induction false} RunEndsWithEnd(cfg: Config, frames: seq<seq<byte>>)
    requires cfg.Valid() && Fits(cfg, frames) && CornerFree(cfg, frames)
    ensures SendAll(cfg, frames).sent == [] || Last(SendAll(cfg, frames).sent).tag == END_TAG
    decreases |frames|
  {
    if frames != [] {
      RunEndsWithEnd(cfg, Front(frames));
      SizeIsBufferSize(cfg, Front(frames));
      var s := SendAll(cfg, Front(frames));
      if cfg.Flushes(BufferSize(s.pending), |Last(frames)|) {
        FlushTags(cfg, s.pending + Last(frames));
      }
    }
  }

  lemma CancelPrefix<T>(o: seq<T>, a: seq<T>, b: seq<T>, c: seq<T>, d: seq<T>)
    requires (o + a) + b == (o + c) + d
    ensures a + b == c + d
  {
    assert (o + a) + b == o + (a + b) && (o + c) + d == o + (c + d);
    assert a + b == (o + (a + b))[|o|..] && c + d == (o + (c + d))[|o|..];
  }

  /** The second part of a run as a freshly started client sees it. */
  lemma LatePart(cfg: Config, early: seq<seq<byte>>, late: seq<seq<byte>>, rest: seq<Datagram>)
    requires cfg.Valid() && Fits(cfg, early + late) && CornerFree(cfg, early + late)
    requires Fits(cfg, early) && CornerFree(cfg, early)
    requires SendAll(cfg, early + late).sent == SendAll(cfg, early).sent + rest
    ensures DeliverAll(START, rest).partial == []
    ensures DeliverAll(START, rest).output + SendAll(cfg, early + late).pending ==
            SendAll(cfg, early).pending + Flatten(late)
  {
    RoundTrip(cfg, early);
    RoundTrip(cfg, early + late);
    DeliverAppend(START, SendAll(cfg, early).sent, rest);
    OutputOnlyGrows([], Lossless(cfg, early).output, rest);
    FlattenAppend(early, late);
    CancelPrefix(Lossless(cfg, early).output, DeliverAll(START, rest).output, SendAll(cfg, early + late).pending,
                 SendAll(cfg, early).pending, Flatten(late));
  }

  /** Lose any datagrams of the first part of a run except its very last one, and none of the
      second part: what the client writes during the second part is exact. It is the waiting bytes
      of the first part and the frames of the second, up to what still waits at the end. */
  lemma RecoversAfterLoss(cfg: Config, early: seq<seq<byte>>, late: seq<seq<byte>>, arrives: seq<bool>)
      returns (rest: seq<Datagram>, exact: seq<byte>)
    requires cfg.Valid() && Fits(cfg, early + late) && CornerFree(cfg, early + late)
    requires |arrives| == |SendAll(cfg, early).sent| > 0 && Last(arrives)
    ensures SendAll(cfg, early + late).sent == SendAll(cfg, early).sent + rest
    ensures exact + SendAll(cfg, early + late).pending == SendAll(cfg, early).pending + Flatten(late)
    ensures var lossy := Keep(SendAll(cfg, early).sent, arrives);
      DeliverAll(START, lossy + rest) == Receiver([], DeliverAll(START, lossy).output + exact)
  {
    PrefixRuns(cfg, early, late);
    rest := SplitRun(cfg, early, late);
    exact := DeliverAll(START, rest).output;
    LatePart(cfg, early, late, rest);
    var sent := SendAll(cfg, early).sent;
    RunEndsWithEnd(cfg, early);
    ResyncAfterEnd(START, Keep(Front(sent), Front(arrives)), Last(sent), rest);
  }

  // ---------------------------------------------------------------- both programs, run together

  /** A server object streams `encoded` and a client object with a buffer of the same length
      receives every datagram. */
  method Loopback(cfg: Config, encoded: seq<seq<byte>>) returns (stdout: seq<byte>, unsent: seq<byte>)
    requires cfg.Valid() && Fits(cfg, encoded) && CornerFree(cfg, encoded)
    ensures stdout + unsent == Flatten(encoded)
    ensures |unsent| < cfg.min || unsent == []
  {
    var server := new VideoSender(cfg, false);
    server.RunVideoLoop(encoded);
    var client := new Reassembler(cfg.capacity);
    RoundTrip(cfg, encoded);
    ClientBufferSuffices(cfg, encoded);
    ReceiveAll(client, server.sent);
    stdout := client.stdout;
    unsent := if server.size == 0 then [] else server.out[1..server.size];
    SizeIsBufferSize(cfg, encoded);
    SizeBetweenFrames(cfg, encoded);
  }

  /** The receive loop over a finite stream. */
  method ReceiveAll(client: Reassembler, ds: seq<Datagram>)
    requires client.Valid() && client.State() == START && Room(client.local.Length, START, ds)
    modifies client`localSize, client`stdout, client.local
    ensures client.Valid() && client.State() == DeliverAll(START, ds)
  {
    var i := 0;
    while i < |ds|
      invariant 0 <= i <= |ds|
      invariant client.Valid() && client.State() == DeliverAll(START, ds[..i])
    {
      RoomPrefix(client.local.Length, ds, i);
      var d := ds[i];
      var packet := new byte[1 + |d.payload|](k requires 0 <= k < 1 + |d.payload| =>
        if k == 0 then d.tag else d.payload[k - 1]);
      assert packet[1..packet.Length] == d.payload;
      client.Receive(packet, packet.Length);
      i := i + 1;
    }
    assert ds[..i] == ds;
  }

  lemma RoomPrefix(buffsize: nat, ds: seq<Datagram>, i: nat)
    requires Room(buffsize, START, ds) && i < |ds|
    ensures |DeliverAll(START, ds[..i]).partial| + |ds[i].payload| <= buffsize
    ensures DeliverAll(START, ds[..i + 1]) == Deliver(DeliverAll(START, ds[..i]), ds[i])
  {
    var next := ds[..i + 1];
    assert Front(next) == ds[..i];
    assert ds == next + ds[i + 1..];
    RoomAppend(buffsize, START, next, ds[i + 1..]);
  }
}
