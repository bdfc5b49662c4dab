/** The frame loop of `runVideoLoop` over its one flat output buffer. */
module VideoSending {
  import opened Sequences
  import opened Fragments

  class VideoSender {
    const cfg: Config
    const savevideo: bool
    const out: array<byte>          // pOutBufferVid
    var size: nat                   // pOutBufferVid_size
    var sent: seq<Datagram>         // handed to addFrame, oldest first
    var saved: seq<byte>            // written to pOutputVideo

    ghost predicate Valid()
      reads this
    {
      && cfg.Valid() && out.Length == cfg.capacity && size != 1 && size <= out.Length
      && (if savevideo then sent == [] else saved == [])
    }

    /** The bytes waiting behind the tag slot. */
    ghost function Pending(): seq<byte>
      requires Valid()
      reads this, out
    {
      if size == 0 then [] else out[1..size]
    }

    constructor (cfg: Config, savevideo: bool)
      requires cfg.Valid()
      ensures Valid() && fresh(out) && this.cfg == cfg && this.savevideo == savevideo
      ensures Pending() == [] && sent == [] && saved == []
    {
      this.cfg := cfg;
      this.savevideo := savevideo;
      out := new byte[cfg.capacity](_ => 0);
      size, sent, saved := 0, [], [];
    }

    /** addFrame: one datagram is `len` bytes of the buffer, its first byte being the tag. */
    method AddFrame(from: nat, len: nat)
      requires 0 < len && from + len <= out.Length
      modifies this`sent
      ensures sent == old(sent) + [Datagram(out[from], out[from + 1..from + len])]
    {
      sent := sent + [Datagram(out[from], out[from + 1..from + len])];
    }

    /** fwrite to pOutputVideo. */
    method Write(bytes: seq<byte>)
      modifies this`saved
      ensures saved == old(saved) + bytes
    {
      saved := saved + bytes;
    }

    /** One chunk of a long flush: its tag stands just before `from`, except that in file mode
        only the bytes themselves are written. */
    method Emit(from: nat, len: nat)
      requires 0 < from && from + len <= out.Length
      modifies this`sent, this`saved
      ensures sent == old(sent) + if savevideo then [] else [Datagram(out[from - 1], out[from..from + len])]
      ensures saved == old(saved) + if savevideo then out[from..from + len] else []
    {
      if !savevideo {
        AddFrame(from - 1, len + 1);
      } else {
        Write(out[from..from + len]);
      }
    }

    /** Copies an encoded frame behind what is waiting, leaving byte 0 free for the tag. */
    method Accumulate(packet: array<byte>, n: nat)
      requires Valid() && packet != out && 0 < n <= packet.Length && cfg.Fill(size, n) <= out.Length
      modifies out, this`size
      ensures Valid() && size == cfg.Fill(old(size), n)
      ensures Pending() == old(Pending()) + packet[..n]
    {
      ghost var was := out[..];
      var i := size;
      while i < size + n
        modifies out
        invariant size <= i <= size + n
        invariant packet[..] == old(packet[..])
        invariant size == 0 ==> out[1..i + 1] == packet[..i]
        invariant size > 0 ==> out[1..i] == was[1..size] + packet[..i - size]
      {
        if size == 0 {
          out[i + 1] := packet[i];
        } else {
          out[i] := packet[i - size];
        }
        i := i + 1;
      }
      if size == 0 {
        size := size + n + 1;
      } else {
        size := size + n;
      }
    }

    /** Chunks 0..i-1 of `p` have gone out since the logs were `sent0` and `saved0`. */
    ghost predicate Emitted(sent0: seq<Datagram>, saved0: seq<byte>, p: seq<byte>, i: nat)
      requires cfg.Valid()
      reads this
    {
      && Cut(cfg.max, i) <= |p|
      && sent == sent0 + (if savevideo then [] else DataChunks(cfg.max, p, i))
      && saved == saved0 + (if savevideo then p[..Cut(cfg.max, i)] else [])
    }

    /** Chunk 0, whose tag stands in the slot kept free for it. */
    method EmitFirst(ghost was: seq<byte>, ghost p: seq<byte>)
      requires Valid() && cfg.max < size && was == out[..] && p == was[1..size]
      modifies this`sent, this`saved, out
      ensures Valid() && Tagged(cfg.max, was, out[..], 1)
      ensures Emitted(old(sent), old(saved), p, 1)
    {
      FirstChunk(cfg.max, was, p);
      out[0] := 0;
      assert out[..] == was[0 := 0];
      Emit(1, cfg.max - 1);
      assert out[1..cfg.max] == was[1..cfg.max];
    }

    /** The tag of chunk `i`, written over the last byte of the chunk sent before it. */
    method TagChunk(i: nat, ghost was: seq<byte>, ghost p: seq<byte>)
      requires Valid() && 0 < i < size / cfg.max
      requires |was| == out.Length && p == was[1..size] && Tagged(cfg.max, was, out[..], i)
      modifies out
      ensures Tagged(cfg.max, was, out[..], i + 1)
      ensures 0 < i * cfg.max && i * cfg.max + cfg.max <= size && Cut(cfg.max, i) <= Cut(cfg.max, i + 1) <= |p|
      ensures out[i * cfg.max - 1] == ChunkTag(i)
      ensures out[i * cfg.max..i * cfg.max + cfg.max] == p[Cut(cfg.max, i)..Cut(cfg.max, i + 1)]
    {
      ChunkSlot(cfg.max, i, size);
      out[i * cfg.max - 1] := ChunkTag(i);
      assert out[..] == old(out[..])[i * cfg.max - 1 := ChunkTag(i)];
      TagWritten(cfg.max, was, old(out[..]), i);
      ChunkUntouched(cfg.max, was, out[..], p, i);
    }

    /** Chunk `i`: its tag replaces the last byte of the chunk sent before it. */
    method EmitChunk(i: nat, ghost was: seq<byte>, ghost p: seq<byte>, ghost sent0: seq<Datagram>, ghost saved0: seq<byte>)
      requires Valid() && 0 < i < size / cfg.max
      requires |was| == out.Length && p == was[1..size] && Tagged(cfg.max, was, out[..], i)
      requires Emitted(sent0, saved0, p, i)
      modifies this`sent, this`saved, out
      ensures Valid() && Tagged(cfg.max, was, out[..], i + 1)
      ensures Emitted(sent0, saved0, p, i + 1)
    {
      TagChunk(i, was, p);
      Emit(i * cfg.max, cfg.max);
      ghost var chunk := p[Cut(cfg.max, i)..Cut(cfg.max, i + 1)];
      Extend(p, Cut(cfg.max, i), Cut(cfg.max, i + 1));
      if savevideo {
        Regrouped(saved0, p[..Cut(cfg.max, i)], chunk);
      } else {
        Regrouped(sent0, DataChunks(cfg.max, p, i), [Datagram(ChunkTag(i), chunk)]);
      }
    }

    /** The chunks of full length, in order. */
    method EmitWhole(ghost was: seq<byte>, ghost p: seq<byte>)
      requires Valid() && cfg.max < size && was == out[..] && p == was[1..size]
      modifies this`sent, this`saved, out
      ensures Valid() && Tagged(cfg.max, was, out[..], Whole(cfg.max, p))
      ensures Emitted(old(sent), old(saved), p, Whole(cfg.max, p))
    {
      WholeIsPositive(cfg.max, p);
      EmitFirst(was, p);
      var i := 1;
      while i < size / cfg.max
        invariant 1 <= i <= size / cfg.max == Whole(cfg.max, p)
        invariant Valid() && Tagged(cfg.max, was, out[..], i)
        invariant Emitted(old(sent), old(saved), p, i)
      {
        EmitChunk(i, was, p, old(sent), old(saved));
        i := i + 1;
      }
    }

    /** The tag of the last, shorter chunk, which starts at `from`. */
    method TagRest(ghost was: seq<byte>, ghost p: seq<byte>) returns (from: nat)
      requires Valid() && cfg.max < size && size % cfg.max > 0
      requires |was| == out.Length && p == was[1..size] && Tagged(cfg.max, was, out[..], Whole(cfg.max, p))
      modifies out
      ensures 0 < from && from + size % cfg.max == size
      ensures out[from - 1] == END_TAG && out[from..size] == p[Cut(cfg.max, Whole(cfg.max, p))..]
    {
      ghost var now := out[..];
      RestSlot(cfg.max, size);
      from := (size / cfg.max) * cfg.max;
      out[from - 1] := 127;
      RestWritten(cfg.max, was, now, out[..], p);
      assert out[..][from..size] == out[from..size];
    }

    /** The last, shorter chunk; sending it completes the flush and empties the buffer. */
    method EmitRest(ghost was: seq<byte>, ghost p: seq<byte>, ghost sent0: seq<Datagram>, ghost saved0: seq<byte>)
      requires Valid() && cfg.max < size && size % cfg.max > 0
      requires |was| == out.Length && p == was[1..size] && Tagged(cfg.max, was, out[..], Whole(cfg.max, p))
      requires Emitted(sent0, saved0, p, Whole(cfg.max, p))
      modifies this`size, this`sent, this`saved, out
      ensures Valid() && size == 0
      ensures sent == sent0 + if savevideo then [] else FlushDatagrams(cfg.max, p)
      ensures saved == saved0 + if savevideo then p else []
    {
      FlushParts(cfg.max, p);
      var from := TagRest(was, p);
      Emit(from, size % cfg.max);
      if savevideo {
        Regrouped(saved0, p[..Cut(cfg.max, Whole(cfg.max, p))], p[Cut(cfg.max, Whole(cfg.max, p))..]);
      } else {
        Regrouped(sent0, DataChunks(cfg.max, p, Whole(cfg.max, p)),
                  [Datagram(END_TAG, p[Cut(cfg.max, Whole(cfg.max, p))..])]);
      }
      size := 0;
    }

    /** At a multiple of `max` the whole chunks are all there is. */
    ghost method NothingLeft(was: seq<byte>, p: seq<byte>)
      requires Valid() && cfg.max < size && size % cfg.max == 0
      requires |was| == out.Length && p == was[1..size] && Tagged(cfg.max, was, out[..], Whole(cfg.max, p))
      ensures DataChunks(cfg.max, p, Whole(cfg.max, p)) == FlushDatagrams(cfg.max, p)
      ensures p[..Cut(cfg.max, Whole(cfg.max, p))] == p
      ensures Pending() == Scarred(cfg.max, p)
    {
      FlushParts(cfg.max, p);
      ScarredBuffer(cfg.max, was, out[..], p);
      assert Pending() == out[..][1..|p| + 1];
    }

    /** Cuts a buffer longer than `max` into datagrams. */
    method FlushLarge()
      requires Valid() && size > cfg.max
      modifies this`size, this`sent, this`saved, out
      ensures Valid()
      ensures sent == old(sent) + if savevideo then [] else FlushDatagrams(cfg.max, old(Pending()))
      ensures saved == old(saved) + if savevideo then old(Pending()) else []
      ensures Pending() == if old(size) % cfg.max == 0 then Scarred(cfg.max, old(Pending())) else []
    {
      ghost var was := out[..];
      ghost var p := was[1..size];
      assert p == Pending();
      EmitWhole(was, p);
      if size % cfg.max > 0 {
        EmitRest(was, p, old(sent), old(saved));
      } else {
        NothingLeft(was, p);
      }
    }

    /** The state of this object as a value. */
    ghost function State(): Sender
      requires Valid()
      reads this, out
    {
      Sender(Pending(), sent, saved)
    }

    /** A buffer of at most `max` bytes goes out whole; file mode writes only the newest frame. */
    method FlushSmall(packet: array<byte>, n: nat)
      requires Valid() && packet != out && n <= packet.Length && 0 < size <= cfg.max
      modifies this`size, this`sent, this`saved, out
      ensures Valid() && size == 0
      ensures sent == old(sent) + if savevideo then [] else FlushDatagrams(cfg.max, old(Pending()))
      ensures saved == old(saved) + if savevideo then packet[..n] else []
    {
      out[0] := 127;
      assert out[1..size] == old(out[1..size]);
      if !savevideo {
        AddFrame(0, size);
      } else {
        Write(packet[..n]);
      }
      size := 0;
    }

    /** One iteration of the frame loop: accumulate, then flush what has grown long enough. */
    method HandleFrame(packet: array<byte>, n: nat)
      requires Valid() && packet != out && n <= packet.Length && cfg.Fill(size, n) <= out.Length
      modifies this`size, this`sent, this`saved, out
      ensures Valid()
      ensures State() == Visible(savevideo, SendFrame(cfg, old(State()), packet[..n]))
      ensures sent == old(sent) <==> savevideo || n == 0 || |old(Pending())| + n + 1 <= cfg.min
    {
      ghost var frame := packet[..n];
      SendsExactly(cfg, State(), frame);
      if n > 0 {
        Accumulate(packet, n);
        if size > cfg.min {
          if size > cfg.max {
            FlushLarge();
          } else {
            FlushSmall(packet, n);
          }
        }
      } else {
        assert Pending() + frame == Pending();
      }
    }

    /** Iteration `i` of the frame loop, after the encoder has returned. */
    method EncodeAndHandle(encoded: seq<seq<byte>>, i: nat, packet: array<byte>)
      requires Valid() && packet != out && packet.Length == cfg.capacity
      requires i < |encoded| && Fits(cfg, encoded) && State() == Upto(cfg, savevideo, encoded, i)
      modifies this`size, this`sent, this`saved, out, packet
      ensures Valid() && State() == Upto(cfg, savevideo, encoded, i + 1)
    {
      FrameFits(cfg, savevideo, encoded, i);
      Encode(encoded[i], packet);
      HandleFrame(packet, |encoded[i]|);
    }

    /** runVideoLoop: `encoded` is what the encoder returns, call by call. */
    method RunVideoLoop(encoded: seq<seq<byte>>)
      requires Valid() && State() == IDLE
      requires Fits(cfg, encoded)
      modifies this`size, this`sent, this`saved, out
      ensures Valid() && State() == Visible(savevideo, SendAll(cfg, encoded))
    {
      var packet := new byte[cfg.capacity](_ => 0);
      var i := 0;
      assert encoded[..0] == [];
      while i < |encoded|
        invariant 0 <= i <= |encoded|
        invariant Valid() && State() == Upto(cfg, savevideo, encoded, i)
      {
        EncodeAndHandle(encoded, i, packet);
        i := i + 1;
      }
      assert encoded[..i] == encoded;
    }
  }

  /** The savevideo option replaces addFrame by fwrite. */
  function Visible(savevideo: bool, s: Sender): Sender {
    if savevideo then s.(sent := []) else s.(saved := [])
  }

  /** What the loop has reached after `i` frames. */
  function Upto(cfg: Config, savevideo: bool, frames: seq<seq<byte>>, i: nat): Sender
    requires cfg.Valid() && i <= |frames|
  {
    Visible(savevideo, SendAll(cfg, frames[..i]))
  }

  lemma FrameFits(cfg: Config, savevideo: bool, frames: seq<seq<byte>>, i: nat)
    requires cfg.Valid() && Fits(cfg, frames) && i < |frames|
    ensures var s := Upto(cfg, savevideo, frames, i);
      && cfg.Fill(BufferSize(s.pending), |frames[i]|) <= cfg.capacity
      && Upto(cfg, savevideo, frames, i + 1) == Visible(savevideo, SendFrame(cfg, s, frames[i]))
  {
    FitsPrefix(cfg, frames, i + 1);
    SizeIsBufferSize(cfg, frames[..i]);
    assert Front(frames[..i + 1]) == frames[..i];
  }

  /** Stands for avcodec_encode_video: leaves the frame in the packet buffer. */
  method Encode(frame: seq<byte>, packet: array<byte>)
    requires |frame| <= packet.Length
    modifies packet
    ensures packet[..|frame|] == frame
  {
    var i := 0;
    while i < |frame|
      invariant 0 <= i <= |frame|
      invariant packet[..i] == frame[..i]
    {
      packet[i] := frame[i];
      i := i + 1;
    }
  }

  lemma {:induction false} FitsPrefix(cfg: Config, frames: seq<seq<byte>>, i: nat)
    requires cfg.Valid() && Fits(cfg, frames) && i <= |frames|
    ensures Fits(cfg, frames[..i])
    decreases |frames|
  {
    if i < |frames| {
      FitsPrefix(cfg, Front(frames), i);
      assert Front(frames)[..i] == frames[..i];
    } else {
      assert frames[..i] == frames;
    }
  }

  lemma FirstChunk(max: nat, was: seq<byte>, p: seq<byte>)
    requires 0 < max < |p| + 1 <= |was| && p == was[1..|p| + 1]
    ensures Cut(max, 1) == max - 1 && DataChunks(max, p, 1) == [Datagram(0, was[1..max])]
    ensures p[..Cut(max, 1)] == was[1..max]
    ensures Tagged(max, was, was[0 := 0], 1)
  {
    assert p[..max - 1] == was[1..max];
    assert DataChunks(max, p, 0) == [];
    forall j | 1 <= j < |was|
      ensures TaggedByte(max, was, 1, j) == was[j]
    {
      WholeFits(max, j + 1);
    }
  }

  /** Byte `j` of the buffer once tags 1..i-1 are in place. */
  function TaggedByte(max: nat, was: seq<byte>, i: nat, j: nat): byte
    requires 0 < max && j < |was|
  {
    if (j + 1) % max == 0 && (j + 1) / max < i then ChunkTag((j + 1) / max) else was[j]
  }

  /** A long flush is its whole chunks and, outside the corner, the rest. */
  lemma FlushParts(max: nat, p: seq<byte>)
    requires 0 < max < |p| + 1
    ensures var k := Whole(max, p);
      if (|p| + 1) % max > 0 then
        FlushDatagrams(max, p) == DataChunks(max, p, k) + [Datagram(END_TAG, p[Cut(max, k)..])]
        && p[..Cut(max, k)] + p[Cut(max, k)..] == p
      else FlushDatagrams(max, p) == DataChunks(max, p, k) && p[..Cut(max, k)] == p
  {
    WholeIsPositive(max, p);
  }

  lemma ScarredBuffer(max: nat, was: seq<byte>, now: seq<byte>, p: seq<byte>)
    requires 0 < max && |p| + 1 <= |was| && p == was[1..|p| + 1] && Tagged(max, was, now, Whole(max, p))
    ensures now[1..|p| + 1] == Scarred(max, p)
  {}

  /** `now` is `was` with tags 1..i-1 written into it; byte 0 is free. */
  ghost predicate Tagged(max: nat, was: seq<byte>, now: seq<byte>, i: nat) {
    0 < max && |now| == |was| && forall j :: 1 <= j < |was| ==> now[j] == TaggedByte(max, was, i, j)
  }

  lemma TagWritten(max: nat, was: seq<byte>, now: seq<byte>, i: nat)
    requires 0 < i && Tagged(max, was, now, i) && 0 <= i * max - 1 < |now|
    ensures Tagged(max, was, now[i * max - 1 := ChunkTag(i)], i + 1)
  {
    QuotientUnique(max, i);
    var after := now[i * max - 1 := ChunkTag(i)];
    forall j | 1 <= j < |was|
      ensures after[j] == TaggedByte(max, was, i + 1, j)
    {
      WholeFits(max, j + 1);
    }
  }

  /** Tags 1..i-1 lie below `from`, so the bytes from there on are as they were. */
  lemma Untouched(max: nat, was: seq<byte>, now: seq<byte>, i: nat, from: nat)
    requires 0 < i && Tagged(max, was, now, i) && 1 <= from <= |now| && (i - 1) * max <= from
    ensures now[from..] == was[from..]
  {
    assert forall j :: from <= j < |was| ==> now[j] == was[j] by {
      forall j | from <= j < |was|
        ensures now[j] == was[j]
      {
        WholeFits(max, j + 1);
        MultiplyMonotone((j + 1) / max, i - 1, max);
      }
    }
  }

  /** After tag `i` is written, chunk `i` still reads as it did before the flush. */
  lemma ChunkUntouched(max: nat, was: seq<byte>, now: seq<byte>, p: seq<byte>, i: nat)
    requires 0 < i && Tagged(max, was, now, i + 1) && 0 < i * max <= i * max + max <= |p| + 1 <= |was|
    requires p == was[1..|p| + 1]
    ensures Cut(max, i) <= Cut(max, i + 1) <= |p|
    ensures now[i * max..i * max + max] == p[Cut(max, i)..Cut(max, i + 1)]
  {
    CutValue(max, i);
    CutValue(max, i + 1);
    Untouched(max, was, now, i + 1, i * max);
    SameSlice(was, now, i * max, max, |p| + 1);
  }

  lemma SameSlice<T>(was: seq<T>, now: seq<T>, from: nat, len: nat, end: nat)
    requires |was| == |now| && 1 <= from && from + len <= end <= |was| && now[from..] == was[from..]
    ensures now[from..from + len] == was[1..end][from - 1..from - 1 + len]
  {
    var x, y := now[from..from + len], was[1..end][from - 1..from - 1 + len];
    forall k | 0 <= k < len
      ensures x[k] == y[k]
    {
      assert now[from..][k] == was[from..][k];
    }
  }

  /** Before the last tag is written, the last chunk reads as it did before the flush. */
  lemma RestUntouched(max: nat, was: seq<byte>, now: seq<byte>, p: seq<byte>)
    requires 0 < max < |p| + 1 <= |was| && Tagged(max, was, now, Whole(max, p))
    requires p == was[1..|p| + 1]
    ensures 0 < Whole(max, p) * max <= |p| + 1
    ensures now[Whole(max, p) * max..|p| + 1] == p[Cut(max, Whole(max, p))..]
  {
    var k := Whole(max, p);
    RestSlot(max, |p| + 1);
    WholeIsPositive(max, p);
    Untouched(max, was, now, k, k * max);
    assert now[k * max..][..|p| + 1 - k * max] == was[k * max..][..|p| + 1 - k * max];
  }

  /** The end tag stands just before the last chunk and spoils nothing of it. */
  lemma RestWritten(max: nat, was: seq<byte>, now: seq<byte>, after: seq<byte>, p: seq<byte>)
    requires 0 < max < |p| + 1 <= |was| && Tagged(max, was, now, Whole(max, p))
    requires p == was[1..|p| + 1]
    requires 0 < Whole(max, p) * max <= |p| + 1 && after == now[Whole(max, p) * max - 1 := END_TAG]
    ensures after[Whole(max, p) * max..|p| + 1] == p[Cut(max, Whole(max, p))..]
  {
    RestUntouched(max, was, now, p);
    var from := Whole(max, p) * max;
    assert after[from..|p| + 1] == now[from..|p| + 1];
  }

  lemma Regrouped<T>(a: seq<T>, b: seq<T>, c: seq<T>)
    ensures a + b + c == a + (b + c)
  {}

  lemma Extend<T>(s: seq<T>, i: nat, j: nat)
    requires i <= j <= |s|
    ensures s[..j] == s[..i] + s[i..j]
  {}

  lemma ChunkSlot(max: nat, i: nat, size: nat)
    requires 0 < max && 0 < i < size / max
    ensures 0 < i * max && i * max + max == (i + 1) * max <= size
  {
    WholeFits(max, size);
    MultiplyMonotone(1, i, max);
    MultiplyMonotone(i + 1, size / max, max);
  }

  lemma RestSlot(max: nat, size: nat)
    requires 0 < max < size
    ensures 0 < (size / max) * max <= size && (size / max) * max + size % max == size
    ensures (size / max - 1) * max <= (size / max) * max
  {
    WholeFits(max, size);
    MultiplyMonotone(1, size / max, max);
  }

  lemma QuotientUnique(max: nat, i: nat)
    requires 0 < max
    ensures (i * max) % max == 0 && (i * max) / max == i
  {
    var x := i * max;
    WholeFits(max, x);
    MultiplyMonotone(x / max + 1, i, max);
    MultiplyMonotone(i + 1, x / max, max);
  }
}
