/** What file mode writes, frame by frame, against what network mode sends. */
module SavedFiles {
  import opened Sequences
  import opened Fragments
  import opened Reassembly
  import opened Streaming

  /** What the arrival of a frame triggers. */
  datatype Flush = NoFlush | Short | Long

  function FlushOf(cfg: Config, size: nat, n: nat): Flush {
    if !cfg.Flushes(size, n) then NoFlush else if cfg.Fill(size, n) > cfg.max then Long else Short
  }

  /** The flushes of a run, one entry per frame. */
  function FlushesOf(cfg: Config, frames: seq<seq<byte>>): (flushes: seq<Flush>)
    requires cfg.Valid()
    ensures |flushes| == |frames|
  {
    if frames == [] then []
    else FlushesOf(cfg, Front(frames)) + [FlushOf(cfg, Size(cfg, Front(frames)), |Last(frames)|)]
  }

  // ---------------------------------------------------------------- which frames are in the file

  /** Frame `i` leaves the buffer with the flush that frame `j` triggers. */
  predicate FlushedBy(flushes: seq<Flush>, i: nat, j: nat) {
    i <= j < |flushes| && flushes[j] != NoFlush && forall k :: i <= k < j ==> flushes[k] == NoFlush
  }

  /** A frame is written if the flush it leaves with is a long one or is its own. */
  ghost predicate InFile(flushes: seq<Flush>, i: nat) {
    exists j: nat :: FlushedBy(flushes, i, j) && (j == i || flushes[j] == Long)
  }

  // The same as a mask over the frames.

  /** How many frames have arrived since the last flush. */
  function Waiting(flushes: seq<Flush>): (w: nat)
    ensures w <= |flushes|
  {
    if flushes == [] || Last(flushes) != NoFlush then 0 else Waiting(Front(flushes)) + 1
  }

  function Written(flushes: seq<Flush>): (mask: seq<bool>)
    ensures |mask| == |flushes|
  {
    if flushes == [] then []
    else
      var before, w := Written(Front(flushes)), Waiting(Front(flushes));
      match Last(flushes)
      case NoFlush => before + [false]
      case Short => before + [true]
      case Long => before[..|before| - w] + Trues(w + 1)
  }

  function Trues(n: nat): (mask: seq<bool>)
    ensures |mask| == n && forall k :: 0 <= k < n ==> mask[k]
  {
    seq(n, _ => true)
  }

  /** The waiting frames are those that no flush has followed, and none of them is written yet. */
  lemma {:induction false} WaitingExactly(flushes: seq<Flush>, i: nat)
    requires i < |flushes|
    ensures i >= |flushes| - Waiting(flushes) <==> forall k :: i <= k < |flushes| ==> flushes[k] == NoFlush
    ensures i >= |flushes| - Waiting(flushes) ==> !Written(flushes)[i]
    decreases |flushes|
  {
    if i + 1 < |flushes| {
      WaitingExactly(Front(flushes), i);
    }
  }

  lemma FlushedByFront(flushes: seq<Flush>, i: nat, j: nat)
    requires j + 1 < |flushes|
    ensures FlushedBy(flushes, i, j) <==> FlushedBy(Front(flushes), i, j)
  {}

  lemma FlushedByLast(flushes: seq<Flush>, i: nat)
    requires i + 1 < |flushes|
    ensures FlushedBy(flushes, i, |flushes| - 1) <==>
      Last(flushes) != NoFlush && i >= |flushes| - 1 - Waiting(Front(flushes))
  {
    WaitingExactly(Front(flushes), i);
    FlushedByEnd(flushes, i);
  }

  lemma FlushedByEnd(flushes: seq<Flush>, i: nat)
    requires i + 1 < |flushes|
    ensures FlushedBy(flushes, i, |flushes| - 1) <==>
      Last(flushes) != NoFlush && forall k :: i <= k < |Front(flushes)| ==> Front(flushes)[k] == NoFlush
  {
    var front := Front(flushes);
    assert forall k :: i <= k < |front| ==> front[k] == flushes[k];
    if FlushedBy(flushes, i, |flushes| - 1) {
      forall k | i <= k < |front|
        ensures front[k] == NoFlush
      {
        assert flushes[k] == NoFlush;
      }
    }
  }

  /** What the last entry adds to the file. */
  lemma InFileLast(flushes: seq<Flush>, i: nat)
    requires i + 1 < |flushes|
    ensures InFile(flushes, i) <==>
      InFile(Front(flushes), i) || (Last(flushes) == Long && i >= |flushes| - 1 - Waiting(Front(flushes)))
  {
    FlushedByLast(flushes, i);
    if InFile(flushes, i) {
      var j: nat :| FlushedBy(flushes, i, j) && (j == i || flushes[j] == Long);
      if j + 1 < |flushes| {
        FlushedByFront(flushes, i, j);
      }
    }
    if InFile(Front(flushes), i) {
      var j: nat :| FlushedBy(Front(flushes), i, j) && (j == i || Front(flushes)[j] == Long);
      FlushedByFront(flushes, i, j);
    }
  }

  lemma {:induction false} WrittenAt(flushes: seq<Flush>, i: nat)
    requires i < |flushes|
    ensures Written(flushes)[i] <==> InFile(flushes, i)
    decreases |flushes|
  {
    if i + 1 < |flushes| {
      WrittenAt(Front(flushes), i);
      InFileLast(flushes, i);
    } else {
      assert FlushedBy(flushes, i, i) <==> flushes[i] != NoFlush;
    }
  }

  /** Over any run free of the corner, the file holds exactly the frames that leave with a long
      flush or trigger their own, in order and whole: the flushed frames without those that a flush
      of at most `max` bytes found waiting. */
  lemma FileFramesExactly(cfg: Config, frames: seq<seq<byte>>) returns (mask: seq<bool>)
    requires cfg.Valid() && CornerFree(cfg, frames)
    ensures |mask| == |frames|
    ensures forall i :: 0 <= i < |frames| ==> (mask[i] <==> InFile(FlushesOf(cfg, frames), i))
    ensures SendAll(cfg, frames).saved == Flatten(Keep(frames, mask))
  {
    var flushes := FlushesOf(cfg, frames);
    mask := Written(flushes);
    forall i | 0 <= i < |frames|
      ensures mask[i] <==> InFile(flushes, i)
    {
      WrittenAt(flushes, i);
    }
    FileFrames(cfg, frames);
    WrittenFrames(frames, flushes);
  }

  // The bytes waiting and the bytes written, from frames and flush entries alone.

  function PendingOf(frames: seq<seq<byte>>, flushes: seq<Flush>): seq<byte>
    requires |frames| == |flushes|
  {
    if frames == [] || Last(flushes) != NoFlush then [] else PendingOf(Front(frames), Front(flushes)) + Last(frames)
  }

  function SavedOf(frames: seq<seq<byte>>, flushes: seq<Flush>): seq<byte>
    requires |frames| == |flushes|
  {
    if frames == [] then []
    else
      SavedOf(Front(frames), Front(flushes)) +
      match Last(flushes)
      case NoFlush => []
      case Short => Last(frames)
      case Long => PendingOf(Front(frames), Front(flushes)) + Last(frames)
  }

  lemma {:induction false} PendingFrames(frames: seq<seq<byte>>, flushes: seq<Flush>)
    requires |frames| == |flushes|
    ensures PendingOf(frames, flushes) == Flatten(frames[|frames| - Waiting(flushes)..])
    decreases |frames|
  {
    if frames == [] || Last(flushes) != NoFlush {
      assert frames[|frames|..] == [];
    } else {
      PendingFrames(Front(frames), Front(flushes));
      WaitingGrows(frames, Waiting(Front(flushes)));
    }
  }

  lemma {:induction false} WrittenFrames(frames: seq<seq<byte>>, flushes: seq<Flush>)
    requires |frames| == |flushes|
    ensures SavedOf(frames, flushes) == Flatten(Keep(frames, Written(flushes)))
    decreases |frames|
  {
    if frames != [] {
      WrittenFrames(Front(frames), Front(flushes));
      WrittenStep(frames, flushes);
      PendingFrames(Front(frames), Front(flushes));
      WaitingGrows(frames, Waiting(Front(flushes)));
    }
  }

  lemma {:induction false} FileFrames(cfg: Config, frames: seq<seq<byte>>)
    requires cfg.Valid() && CornerFree(cfg, frames)
    ensures SendAll(cfg, frames).saved == SavedOf(frames, FlushesOf(cfg, frames))
    ensures SendAll(cfg, frames).pending == PendingOf(frames, FlushesOf(cfg, frames))
    decreases |frames|
  {
    if frames != [] {
      FileFrames(cfg, Front(frames));
      FrameSaved(cfg, frames);
    }
  }

  /** How one frame moves the waiting bytes and the file. */
  lemma FrameSaved(cfg: Config, frames: seq<seq<byte>>)
    requires cfg.Valid() && frames != [] && CornerFree(cfg, frames)
    ensures var s, s' := SendAll(cfg, Front(frames)), SendAll(cfg, frames);
      var flushes := FlushesOf(cfg, frames);
      && Front(flushes) == FlushesOf(cfg, Front(frames))
      && s'.pending == (if Last(flushes) == NoFlush then s.pending + Last(frames) else [])
      && s'.saved == match Last(flushes)
                     case NoFlush => s.saved
                     case Short => s.saved + Last(frames)
                     case Long => s.saved + (s.pending + Last(frames))
  {
    SizeIsBufferSize(cfg, Front(frames));
  }

  /** The written frames before and after one flush entry. */
  lemma WrittenStep<T>(frames: seq<seq<T>>, flushes: seq<Flush>)
    requires |frames| == |flushes| > 0
    ensures var front := Front(flushes);
      var before, cut := Keep(Front(frames), Written(front)), |front| - Waiting(front);
      match Last(flushes)
      case NoFlush => Keep(frames, Written(flushes)) == before
      case Short => Flatten(Keep(frames, Written(flushes))) == Flatten(before) + Last(frames)
      case Long => Flatten(Keep(frames, Written(flushes))) == Flatten(before) + Flatten(frames[cut..])
  {
    match Last(flushes)
    case NoFlush => KeepSkips(frames, Written(Front(flushes)));
    case Short =>
      KeepTakes(frames, Written(Front(flushes)));
      FlattenMore(Keep(Front(frames), Written(Front(flushes))), Last(frames));
    case Long => LongStep(frames, flushes);
  }

  lemma KeepSkips<T>(s: seq<T>, mask: seq<bool>)
    requires |s| == |mask| + 1
    ensures Keep(s, mask + [false]) == Keep(Front(s), mask)
  {
    assert Front(mask + [false]) == mask;
  }

  lemma KeepTakes<T>(s: seq<T>, mask: seq<bool>)
    requires |s| == |mask| + 1
    ensures Keep(s, mask + [true]) == Keep(Front(s), mask) + [Last(s)]
  {
    assert Front(mask + [true]) == mask;
  }

  lemma FlattenMore<T>(pieces: seq<seq<T>>, last: seq<T>)
    ensures Flatten(pieces + [last]) == Flatten(pieces) + last
  {
    assert Front(pieces + [last]) == pieces;
  }

  lemma LongMask(flushes: seq<Flush>)
    requires flushes != [] && Last(flushes) == Long
    ensures var front := Front(flushes);
      var cut := |front| - Waiting(front);
      && Written(flushes) == Written(front)[..cut] + Trues(|flushes| - cut)
      && forall k :: cut <= k < |front| ==> !Written(front)[k]
  {
    var front := Front(flushes);
    var cut := |front| - Waiting(front);
    assert |flushes| - cut == Waiting(front) + 1;
    forall k | cut <= k < |front|
      ensures !Written(front)[k]
    {
      WaitingExactly(front, k);
    }
  }

  lemma LongStep<T>(frames: seq<seq<T>>, flushes: seq<Flush>)
    requires |frames| == |flushes| > 0 && Last(flushes) == Long
    ensures var front := Front(flushes);
      Flatten(Keep(frames, Written(flushes))) ==
      Flatten(Keep(Front(frames), Written(front))) + Flatten(frames[|front| - Waiting(front)..])
  {
    var front := Front(flushes);
    LongMask(flushes);
    TailTurnsTrue(frames, Written(front), |front| - Waiting(front), Written(flushes));
  }

  lemma WaitingGrows<T>(frames: seq<seq<T>>, w: nat)
    requires w < |frames|
    ensures Flatten(frames[|frames| - 1 - w..]) == Flatten(Front(frames)[|frames| - 1 - w..]) + Last(frames)
  {
    assert Front(frames[|frames| - 1 - w..]) == Front(frames)[|frames| - 1 - w..];
  }

  lemma TailTurnsTrue<T>(frames: seq<seq<T>>, mask: seq<bool>, cut: nat, turned: seq<bool>)
    requires |frames| == |mask| + 1 && cut <= |mask| && forall k :: cut <= k < |mask| ==> !mask[k]
    requires turned == mask[..cut] + Trues(|frames| - cut)
    ensures Flatten(Keep(frames, turned)) == Flatten(Keep(Front(frames), mask)) + Flatten(frames[cut..])
  {
    KeepDropsTail(Front(frames), mask, cut);
    assert Front(frames)[..cut] == frames[..cut];
    assert frames == frames[..cut] + frames[cut..];
    KeepTakesTail(frames[..cut], frames[cut..], mask[..cut], Trues(|frames| - cut));
    FlattenAppend(Keep(frames[..cut], mask[..cut]), frames[cut..]);
  }

  lemma KeepDropsTail<T>(s: seq<T>, mask: seq<bool>, cut: nat)
    requires |s| == |mask| && cut <= |s| && forall k :: cut <= k < |mask| ==> !mask[k]
    ensures Keep(s, mask) == Keep(s[..cut], mask[..cut])
  {
    var a, b, m, n := s[..cut], s[cut..], mask[..cut], mask[cut..];
    assert s == a + b && mask == m + n;
    KeepNone(b, n);
    KeepAppend(a, b, m, n);
  }

  lemma KeepTakesTail<T>(a: seq<T>, b: seq<T>, m: seq<bool>, n: seq<bool>)
    requires |a| == |m| && |b| == |n| && forall k :: 0 <= k < |n| ==> n[k]
    ensures Keep(a + b, m + n) == Keep(a, m) + b
  {
    KeepAll(b, n);
    KeepAppend(a, b, m, n);
  }

  // ---------------------------------------------------------------- file against network

  /** No flush of at most `max` bytes finds earlier frames waiting. */
  predicate NothingHeldBack(cfg: Config, frames: seq<seq<byte>>)
    requires cfg.Valid()
  {
    frames == [] ||
    var size := Size(cfg, Front(frames));
    NothingHeldBack(cfg, Front(frames)) && (FlushOf(cfg, size, |Last(frames)|) == Short ==> size == 0)
  }

  lemma AppendExactly(saved: seq<byte>, net: seq<byte>, written: seq<byte>, p: seq<byte>)
    requires Subsequence(saved, net) && Subsequence(written, p)
    ensures Subsequence(saved + written, net + p)
    ensures saved + written == net + p <==> saved == net && written == p
  {
    SubsequenceAppend(saved, net, written, p);
    SubsequenceLength(saved, net);
    SubsequenceLength(written, p);
    if saved + written == net + p {
      assert |saved| == |net|;
      assert saved == (saved + written)[..|net|] && written == (saved + written)[|net|..];
    }
  }

  lemma EndExactly(waiting: seq<byte>, frame: seq<byte>)
    ensures Subsequence(frame, waiting + frame)
    ensures frame == waiting + frame <==> waiting == []
  {
    SubsequenceRefl(frame);
    SubsequenceEmpty(waiting);
    SubsequenceAppend([], waiting, frame, frame);
    assert [] + frame == frame;
  }

  /** The bytes that file mode writes for a frame against those that network mode delivers. */
  function WrittenNow(cfg: Config, frames: seq<seq<byte>>): seq<byte>
    requires cfg.Valid() && frames != []
  {
    match FlushOf(cfg, Size(cfg, Front(frames)), |Last(frames)|)
    case NoFlush => []
    case Short => Last(frames)
    case Long => SendAll(cfg, Front(frames)).pending + Last(frames)
  }

  function DeliveredNow(cfg: Config, frames: seq<seq<byte>>): seq<byte>
    requires cfg.Valid() && frames != []
  {
    if cfg.Flushes(Size(cfg, Front(frames)), |Last(frames)|) then SendAll(cfg, Front(frames)).pending + Last(frames)
    else []
  }

  function NetPayload(cfg: Config, frames: seq<seq<byte>>): seq<byte>
    requires cfg.Valid()
  {
    Lossless(cfg, frames).output + Lossless(cfg, frames).partial
  }

  lemma NetStep(cfg: Config, frames: seq<seq<byte>>)
    requires cfg.Valid() && Fits(cfg, frames) && frames != []
    ensures NetPayload(cfg, frames) == NetPayload(cfg, Front(frames)) + DeliveredNow(cfg, frames)
  {
    FrameDelivered(cfg, frames);
    var size, n := Size(cfg, Front(frames)), |Last(frames)|;
    var r, p := Lossless(cfg, Front(frames)), SendAll(cfg, Front(frames)).pending + Last(frames);
    OneGroup(r.output, r.partial, p);
    if !cfg.Flushes(size, n) {
      assert DeliveredNow(cfg, frames) == [];
    } else if cfg.Corner(size, n) {
      assert Lossless(cfg, frames) == Receiver(r.partial + p, r.output);
    } else {
      assert Lossless(cfg, frames) == Receiver([], r.output + (r.partial + p));
    }
  }

  lemma OneGroup(a: seq<byte>, b: seq<byte>, c: seq<byte>)
    ensures a + (b + c) == (a + b) + c && (a + (b + c)) + [] == (a + b) + c && (a + b) + [] == a + b
  {}

  lemma SavedStep(cfg: Config, frames: seq<seq<byte>>)
    requires cfg.Valid() && frames != []
    ensures SendAll(cfg, frames).saved == SendAll(cfg, Front(frames)).saved + WrittenNow(cfg, frames)
  {
    SizeIsBufferSize(cfg, Front(frames));
  }

  lemma WrittenAgainstDelivered(cfg: Config, frames: seq<seq<byte>>)
    requires cfg.Valid() && frames != []
    ensures Subsequence(WrittenNow(cfg, frames), DeliveredNow(cfg, frames))
    ensures WrittenNow(cfg, frames) == DeliveredNow(cfg, frames) <==>
      FlushOf(cfg, Size(cfg, Front(frames)), |Last(frames)|) != Short || Size(cfg, Front(frames)) == 0
  {
    SizeIsBufferSize(cfg, Front(frames));
    SubsequenceRefl(DeliveredNow(cfg, frames));
    EndExactly(SendAll(cfg, Front(frames)).pending, Last(frames));
  }

  /** The saved file is the network payload with bytes left out, and it is the whole payload if
      and only if no short flush had frames waiting: those are the ones file mode drops. */
  lemma {:induction false} SavedFileExactly(cfg: Config, frames: seq<seq<byte>>)
    requires cfg.Valid() && Fits(cfg, frames)
    ensures Subsequence(SendAll(cfg, frames).saved, NetPayload(cfg, frames))
    ensures SendAll(cfg, frames).saved == NetPayload(cfg, frames) <==> NothingHeldBack(cfg, frames)
    decreases |frames|
  {
    if frames != [] {
      SavedFileExactly(cfg, Front(frames));
      NetStep(cfg, frames);
      SavedStep(cfg, frames);
      WrittenAgainstDelivered(cfg, frames);
      AppendExactly(SendAll(cfg, Front(frames)).saved, NetPayload(cfg, Front(frames)),
                    WrittenNow(cfg, frames), DeliveredNow(cfg, frames));
    }
  }
}
