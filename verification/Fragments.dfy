/** The datagrams that the MJPEG-over-UDP path of `runVideoLoop` produces, described on the
    bytes that are waiting to be sent rather than on the buffer that the code overwrites. */
module Fragments {
  import opened Sequences

  type byte = b: int | 0 <= b < 256

  /** One UDP datagram: its first byte and everything after it. */
  datatype Datagram = Datagram(tag: byte, payload: seq<byte>)

  /** Tag of the datagram that completes a group. */
  const END_TAG: byte := 127

  /** A chunk number stored into an unsigned char. */
  function ChunkTag(i: nat): byte {
    i % 256
  }

  /** The flush thresholds and the length of the output buffer. */
  datatype Config = Config(min: nat, max: nat, capacity: nat) {
    /** Chunk numbers stay below END_TAG because the buffer holds fewer than 128 whole chunks. */
    predicate Valid() {
      0 < max && capacity < 128 * max
    }

    /** Buffer size once `n` bytes are copied in; an empty buffer also gains the tag byte. */
    function Fill(size: nat, n: nat): nat {
      if n == 0 then size else if size == 0 then n + 1 else size + n
    }

    predicate Flushes(size: nat, n: nat) {
      n > 0 && Fill(size, n) > min
    }

    /** The flush that sends no END_TAG datagram and leaves the buffer size unchanged. */
    predicate Corner(size: nat, n: nat)
      requires Valid()
    {
      Flushes(size, n) && Fill(size, n) > max && Fill(size, n) % max == 0
    }
  }

  /** MIN_FLUSH_BUFF_SIZE, MAX_FLUSH_BUFF_SIZE and iOutBufferSize as shipped. */
  const SHIPPED := Config(1500, 20000, 100000)

  /** pOutBufferVid_size when `pending` waits behind the tag byte. */
  function BufferSize(pending: seq<byte>): nat {
    if pending == [] then 0 else |pending| + 1
  }

  // ---------------------------------------------------------------- one flush

  /** Where chunk `i` starts: the tag slot shortens only the first chunk. */
  function Cut(max: nat, i: nat): nat
    requires 0 < max
  {
    if i == 0 then 0 else if i == 1 then max - 1 else Cut(max, i - 1) + max
  }

  lemma {:induction false} CutValue(max: nat, i: nat)
    requires 0 < max && 0 < i
    ensures Cut(max, i) == i * max - 1
  {
    if i > 1 {
      CutValue(max, i - 1);
      assert i * max == (i - 1) * max + max;
    }
  }

  /** Chunks 0..n-1, numbered, cut from `p` as it was before the flush. */
  function DataChunks(max: nat, p: seq<byte>, n: nat): seq<Datagram>
    requires 0 < max && Cut(max, n) <= |p|
  {
    if n == 0 then []
    else
      DataChunks(max, p, n - 1) + [Datagram(ChunkTag(n - 1), p[Cut(max, n - 1)..Cut(max, n)])]
  }

  /** How many whole chunks a buffer of |p| + 1 bytes has. */
  function Whole(max: nat, p: seq<byte>): (k: nat)
    requires 0 < max
    ensures Cut(max, k) <= |p|
  {
    WholeFits(max, |p| + 1);
    var k := (|p| + 1) / max;
    if k > 0 then CutValue(max, k); k else k
  }

  lemma WholeFits(max: nat, size: nat)
    requires 0 < max
    ensures size == (size / max) * max + size % max && 0 <= size % max < max
    ensures size / max >= 0
  {}

  /** Everything one flush hands to addFrame for the waiting bytes `p`. */
  function FlushDatagrams(max: nat, p: seq<byte>): seq<Datagram>
    requires 0 < max
  {
    if |p| + 1 > max then
      var k := Whole(max, p);
      DataChunks(max, p, k)
      + if (|p| + 1) % max > 0 then [Datagram(END_TAG, p[Cut(max, k)..])] else []
    else [Datagram(END_TAG, p)]
  }

  /** The waiting bytes after a corner flush: the slots where tags were written are spoilt. */
  function Scarred(max: nat, p: seq<byte>): (q: seq<byte>)
    requires 0 < max
    ensures |q| == |p|
  {
    seq(|p|, j requires 0 <= j < |p| =>
      if (j + 2) % max == 0 && (j + 2) / max < Whole(max, p) then ChunkTag((j + 2) / max) else p[j])
  }

  // ---------------------------------------------------------------- a whole run

  datatype Sender = Sender(pending: seq<byte>, sent: seq<Datagram>, saved: seq<byte>)

  const IDLE := Sender([], [], [])

  /** One encoded frame. `sent` grows in network mode, `saved` is what file mode writes. */
  function SendFrame(cfg: Config, s: Sender, frame: seq<byte>): Sender
    requires cfg.Valid()
  {
    var p := s.pending + frame;
    var size := BufferSize(s.pending);
    if !cfg.Flushes(size, |frame|) then s.(pending := p)
    else Sender(
      if cfg.Corner(size, |frame|) then Scarred(cfg.max, p) else [],
      s.sent + FlushDatagrams(cfg.max, p),
      s.saved + if cfg.Fill(size, |frame|) > cfg.max then p else frame)
  }

  function SendAll(cfg: Config, frames: seq<seq<byte>>): Sender
    requires cfg.Valid()
  {
    if frames == [] then IDLE else SendFrame(cfg, SendAll(cfg, Front(frames)), Last(frames))
  }

  // The same run seen through frame lengths only.

  function Size(cfg: Config, frames: seq<seq<byte>>): nat
    requires cfg.Valid()
  {
    if frames == [] then 0
    else
      var size, n := Size(cfg, Front(frames)), |Last(frames)|;
      if cfg.Flushes(size, n) && !cfg.Corner(size, n) then 0 else cfg.Fill(size, n)
  }

  /** Every frame fits into the buffer at the moment it arrives. */
  predicate Fits(cfg: Config, frames: seq<seq<byte>>)
    requires cfg.Valid()
  {
    frames == [] ||
    (Fits(cfg, Front(frames)) && cfg.Fill(Size(cfg, Front(frames)), |Last(frames)|) <= cfg.capacity)
  }

  /** No flush of the run happens at an exact multiple of `max` above `max`. */
  predicate CornerFree(cfg: Config, frames: seq<seq<byte>>)
    requires cfg.Valid()
  {
    frames == [] ||
    (CornerFree(cfg, Front(frames)) && !cfg.Corner(Size(cfg, Front(frames)), |Last(frames)|))
  }

  /** Payload bytes of a datagram stream. */
  function Payload(ds: seq<Datagram>): seq<byte> {
    if ds == [] then [] else Payload(Front(ds)) + Last(ds).payload
  }

  lemma {:induction false} PayloadAppend(a: seq<Datagram>, b: seq<Datagram>)
    ensures Payload(a + b) == Payload(a) + Payload(b)
    decreases |b|
  {
    if b == [] {
      assert a + b == a;
    } else {
      PayloadAppend(a, Front(b));
      assert Front(a + b) == a + Front(b) && Last(a + b) == Last(b);
      var x, y, z := Payload(a), Payload(Front(b)), Last(b).payload;
      assert (x + y) + z == x + (y + z);
    }
  }

  /** The length-only view of a run agrees with the buffer. */
  lemma {:induction false} SizeIsBufferSize(cfg: Config, frames: seq<seq<byte>>)
    requires cfg.Valid()
    ensures Size(cfg, frames) == BufferSize(SendAll(cfg, frames).pending)
    decreases |frames|
  {
    if frames != [] {
      SizeIsBufferSize(cfg, Front(frames));
    }
  }

  /** Numbered chunks are consecutive slices of the unspoilt bytes. */
  lemma {:induction false} DataChunksTile(max: nat, p: seq<byte>, n: nat)
    requires 0 < max && Cut(max, n) <= |p|
    ensures |DataChunks(max, p, n)| == n
    ensures Payload(DataChunks(max, p, n)) == p[..Cut(max, n)]
    decreases n
  {
    if n > 0 {
      DataChunksTile(max, p, n - 1);
      var last := Datagram(ChunkTag(n - 1), p[Cut(max, n - 1)..Cut(max, n)]);
      assert Front(DataChunks(max, p, n - 1) + [last]) == DataChunks(max, p, n - 1);
      assert p[..Cut(max, n - 1)] + p[Cut(max, n - 1)..Cut(max, n)] == p[..Cut(max, n)];
    }
  }

  lemma {:induction false} ChunkBetweenCuts(max: nat, p: seq<byte>, n: nat, i: nat)
    requires 0 < max && Cut(max, n) <= |p| && i < n <= 127
    ensures |DataChunks(max, p, n)| == n
    ensures Cut(max, i) <= Cut(max, i + 1) <= |p|
    ensures DataChunks(max, p, n)[i] == Datagram(i, p[Cut(max, i)..Cut(max, i + 1)])
    decreases n
  {
    DataChunksTile(max, p, n - 1);
    var before := DataChunks(max, p, n - 1);
    var last := Datagram(ChunkTag(n - 1), p[Cut(max, n - 1)..Cut(max, n)]);
    assert DataChunks(max, p, n) == before + [last];
    if i < n - 1 {
      ChunkBetweenCuts(max, p, n - 1, i);
      assert (before + [last])[i] == before[i];
    }
  }

  /** Chunk `i` carries its number and, as payload, the `max` bytes of the buffer from position
      i * max on; the first gives one of them up for its tag. */
  lemma DataChunkAt(max: nat, p: seq<byte>, n: nat, i: nat)
    requires 0 < max && Cut(max, n) <= |p| && i < n <= 127
    ensures |DataChunks(max, p, n)| == n
    ensures var from, to := if i == 0 then 0 else i * max - 1, (i + 1) * max - 1;
      && 0 <= from <= to <= |p| && to - from == (if i == 0 then max - 1 else max)
      && DataChunks(max, p, n)[i] == Datagram(i, p[from..to])
  {
    ChunkBetweenCuts(max, p, n, i);
    CutValue(max, i + 1);
    if i > 0 { CutValue(max, i); }
    assert (i + 1) * max == i * max + max;
  }

  lemma MultiplyMonotone(a: nat, b: nat, c: nat)
    ensures a <= b ==> a * c <= b * c
  {}

  lemma WholeBelowEndTag(cfg: Config, p: seq<byte>)
    requires cfg.Valid() && |p| + 1 <= cfg.capacity
    ensures Whole(cfg.max, p) <= 127
  {
    WholeFits(cfg.max, |p| + 1);
    MultiplyMonotone(128, Whole(cfg.max, p), cfg.max);
  }

  lemma WholeIsPositive(max: nat, p: seq<byte>)
    requires 0 < max < |p| + 1
    ensures Whole(max, p) > 0
    ensures (|p| + 1) % max == 0 <==> Cut(max, Whole(max, p)) == |p|
    ensures Cut(max, Whole(max, p)) == Whole(max, p) * max - 1
  {
    WholeFits(max, |p| + 1);
    CutValue(max, Whole(max, p));
  }

  /** A flush sends every waiting byte exactly once and in order, although each tag is written
      over the last byte of the chunk before it. */
  lemma FlushTiles(cfg: Config, p: seq<byte>)
    requires cfg.Valid()
    ensures Payload(FlushDatagrams(cfg.max, p)) == p
  {
    var max := cfg.max;
    if |p| + 1 > max {
      var k := Whole(max, p);
      WholeIsPositive(max, p);
      DataChunksTile(max, p, k);
      if (|p| + 1) % max > 0 {
        assert Front(DataChunks(max, p, k) + [Datagram(END_TAG, p[Cut(max, k)..])]) == DataChunks(max, p, k);
        assert p[..Cut(max, k)] + p[Cut(max, k)..] == p;
      } else {
        assert DataChunks(max, p, k) + [] == DataChunks(max, p, k) && p[..Cut(max, k)] == p;
      }
    } else {
      assert Front([Datagram(END_TAG, p)]) == [];
    }
  }

  /** Datagram `i` of `ds` is short enough and, unless it is the last, numbered. */
  predicate NumberedAt(max: nat, ds: seq<Datagram>, i: nat) {
    i < |ds| && |ds[i].payload| <= max && (i < |ds| - 1 ==> ds[i].tag == i < END_TAG)
  }

  /** Only the last datagram of a flush may carry END_TAG, and it does so exactly outside the
      corner; the others are numbered from 0, and none is longer than a tag and `max` bytes. */
  lemma FlushTags(cfg: Config, p: seq<byte>)
    requires cfg.Valid() && |p| + 1 <= cfg.capacity
    ensures var ds := FlushDatagrams(cfg.max, p);
      && ds != []
      && (forall i :: 0 <= i < |ds| ==> NumberedAt(cfg.max, ds, i))
      && (Last(ds).tag == END_TAG <==> !(|p| + 1 > cfg.max && (|p| + 1) % cfg.max == 0))
  {
    var max, ds := cfg.max, FlushDatagrams(cfg.max, p);
    if |p| + 1 > max {
      var k := Whole(max, p);
      WholeBelowEndTag(cfg, p);
      WholeFits(max, |p| + 1);
      WholeIsPositive(max, p);
      DataChunksTile(max, p, k);
      forall i | 0 <= i < |ds|
        ensures NumberedAt(max, ds, i)
      {
        if i < k {
          DataChunkAt(max, p, k, i);
          assert ds[i] == DataChunks(max, p, k)[i];
        }
      }
      DataChunkAt(max, p, k, k - 1);
    }
  }

  /** How many datagrams a flush of |p| + 1 bytes takes: as few as datagrams of `max` buffer bytes
      allow. */
  lemma FlushCount(max: nat, p: seq<byte>)
    requires 0 < max
    ensures var n := |FlushDatagrams(max, p)|;
      n > 0 && (n - 1) * max < |p| + 1 <= n * max
  {
    if |p| + 1 > max {
      WholeIsPositive(max, p);
      DataChunksTile(max, p, Whole(max, p));
      FewestPieces(max, |p| + 1);
    }
  }

  lemma FewestPieces(max: nat, size: nat)
    requires 0 < max < size
    ensures var n := size / max + if size % max > 0 then 1 else 0;
      (n - 1) * max < size <= n * max
  {
    var k := size / max;
    WholeFits(max, size);
    assert (k + 1) * max == k * max + max && (k - 1) * max == k * max - max;
  }

  /** When one frame sends anything, and what it adds to the saved file, with the thresholds written
      out: more than `min` bytes in the buffer flush, more than `max` flush as a whole to the file. */
  lemma SendsExactly(cfg: Config, s: Sender, frame: seq<byte>)
    requires cfg.Valid()
    ensures var n := |s.pending| + |frame| + 1;
      && (SendFrame(cfg, s, frame).sent == s.sent <==> frame == [] || n <= cfg.min)
      && SendFrame(cfg, s, frame).saved ==
         s.saved + (if frame == [] || n <= cfg.min then [] else if n <= cfg.max then frame else s.pending + frame)
      && (frame == [] || n <= cfg.min ==> SendFrame(cfg, s, frame).pending == s.pending + frame)
  {
    var flush := FlushDatagrams(cfg.max, s.pending + frame);
    FlushCount(cfg.max, s.pending + frame);
    assert |s.sent + flush| > |s.sent|;
  }

  /** Over whole runs: nothing has been sent, and everything waits, exactly as long as the frames so
      far and the tag byte are at most `min` bytes. */
  lemma {:induction false} FirstFlush(cfg: Config, frames: seq<seq<byte>>)
    requires cfg.Valid()
    ensures SendAll(cfg, frames).sent == [] <==> Flatten(frames) == [] || |Flatten(frames)| + 1 <= cfg.min
    ensures SendAll(cfg, frames).sent == [] ==> SendAll(cfg, frames).pending == Flatten(frames)
    decreases |frames|
  {
    if frames != [] {
      FirstFlush(cfg, Front(frames));
      SendsExactly(cfg, SendAll(cfg, Front(frames)), Last(frames));
      assert |Flatten(frames)| == |Flatten(Front(frames))| + |Last(frames)|;
    }
  }

  /** The thresholds as shipped: a first frame of up to 1499 bytes waits, one of up to 19999 bytes goes
      out as a single datagram, and a longer one is cut up. */
  lemma ShippedThresholds(frame: seq<byte>)
    ensures SHIPPED.Valid()
    ensures var sent := SendAll(SHIPPED, [frame]).sent;
      && (sent == [] <==> |frame| <= 1499)
      && (|sent| == 1 <==> 1500 <= |frame| <= 19999)
      && (|sent| > 1 <==> 20000 <= |frame|)
  {
    assert Front([frame]) == [] && [] + frame == frame;
    FirstFlush(SHIPPED, [frame]);
    FlushCount(SHIPPED.max, frame);
  }
}
