/**
 Runs of the receiving side: chunks of any number of transfers arriving in any order, with
 duplicates, foreign senders, malformed buffers and out-of-range indices
 (packages/peer-client/src/transfer.ts, lines 227-273 and 384-398). Control messages are
 accepted from anybody: who sent a completion or a cancellation is never looked at.
 */
module TransferRuns {
  import opened Wrappers
  import opened Transfer

  datatype Event =
    | Offered(id: string, totalChunks: nat, sender: string)
    | Arrived(channel: string, sender: string, buffer: Bytes)
    | Completed(id: string, sender: string)
    | Cancelled(id: string, sender: string)

  ghost predicate Sized(m: Receiving) {
    forall id <- m :: |m[id].chunks| == m[id].totalChunks
  }

  function Step(m: Receiving, ev: Event): (m': Receiving)
    requires Sized(m)
    ensures Sized(m')
  {
    match ev
    case Offered(id, n, sender) => Offer(m, id, n, sender)
    case Arrived(channel, sender, buffer) => HandleChunk(m, channel, sender, buffer)
    case Completed(id, _) => AfterAssemble(m, id)
    case Cancelled(id, _) => m - {id}
  }

  function Exec(m: Receiving, run: seq<Event>): (m': Receiving)
    requires Sized(m)
    ensures Sized(m')
  {
    if run == [] then m else Step(Exec(m, run[..|run| - 1]), run[|run| - 1])
  }

  // ---- The counter ----

  function Filled(slots: Slots): nat {
    if slots == [] then 0
    else Filled(slots[..|slots| - 1]) + (if slots[|slots| - 1].Some? then 1 else 0)
  }

  lemma {:induction false} FillOne(slots: Slots, i: nat, d: Bytes)
    requires i < |slots| && slots[i].None?
    ensures Filled(slots[i := Some(d)]) == Filled(slots) + 1
  {
    var last := |slots| - 1;
    var slots' := slots[i := Some(d)];
    if i == last {
      assert slots'[..last] == slots[..last];
    } else {
      assert slots'[..last] == slots[..last][i := Some(d)];
      FillOne(slots[..last], i, d);
    }
  }

  lemma {:induction false} FilledNone(n: nat)
    ensures Filled(NewReceive("", n).chunks) == 0
  {
    if n > 0 {
      assert NewReceive("", n).chunks[..n - 1] == NewReceive("", n - 1).chunks;
      FilledNone(n - 1);
    }
  }

  ghost predicate Counted(m: Receiving) {
    forall id <- m :: m[id].received == Filled(m[id].chunks)
  }

  lemma StepCounts(m: Receiving, ev: Event)
    requires Sized(m) && Counted(m)
    ensures Counted(Step(m, ev))
  {
    match ev {
      case Offered(_, n, sender) =>
        FilledNone(n);
        assert NewReceive("", n).chunks == NewReceive(sender, n).chunks;
      case Arrived(channel, sender, buffer) =>
        var m' := Step(m, ev);
        if m' != m {
          var id := channel[|PREFIX|..];
          var f := DecodeChunk(buffer).value;
          if f.index < m[id].totalChunks && m[id].chunks[f.index].None? {
            FillOne(m[id].chunks, f.index, f.data);
          }
        }
      case _ =>
    }
  }

  /** On every run the counter of every transfer is the number of its filled slots. */
  lemma ReceivedIsFilled(run: seq<Event>, id: string)
    requires id in Exec(map[], run)
    ensures Exec(map[], run)[id].received == Filled(Exec(map[], run)[id].chunks)
  {
    RunCounts(run);
  }

  lemma {:induction false} RunCounts(run: seq<Event>)
    ensures Counted(Exec(map[], run))
  {
    if run != [] {
      RunCounts(run[..|run| - 1]);
      StepCounts(Exec(map[], run[..|run| - 1]), run[|run| - 1]);
    }
  }

  // ---- One transfer after its offer ----

  /** The event is a chunk with index `i` that the transfer accepts, filled slot or not. */
  predicate Carries(ev: Event, id: string, from: string, total: nat, i: nat) {
    && ev.Arrived? && ev.channel == PREFIX + id && ev.sender == from
    && DecodeChunk(ev.buffer).Ok? && DecodeChunk(ev.buffer).value.index == i && i < total
  }

  ghost predicate HasArrived(run: seq<Event>, id: string, from: string, total: nat, i: nat) {
    exists ev <- run :: Carries(ev, id, from, total, i)
  }

  ghost predicate AllArrived(run: seq<Event>, id: string, from: string, total: nat) {
    forall i: nat | i < total :: HasArrived(run, id, from, total, i)
  }

  /** Not a further offer nor a cancellation of this transfer. */
  predicate LeavesAlone(ev: Event, id: string) {
    ev.Arrived? || ev.Completed? || ev.id != id
  }

  ghost predicate OnlyChunks(run: seq<Event>, id: string) {
    forall ev <- run :: LeavesAlone(ev, id)
  }

  /** The transfer was completed: a completion came after all its chunks. */
  ghost predicate Done(run: seq<Event>, id: string, from: string, total: nat) {
    run != [] &&
    var before := run[..|run| - 1];
    || Done(before, id, from, total)
    || (run[|run| - 1].Completed? && run[|run| - 1].id == id && AllArrived(before, id, from, total))
  }

  /** The transfer stands, with a slot filled exactly if a chunk with its index arrived. */
  ghost predicate Stands(m: Receiving, run: seq<Event>, id: string, from: string, total: nat) {
    && id in m && m[id].from == from && m[id].totalChunks == total == |m[id].chunks|
    && forall i: nat | i < total :: m[id].chunks[i].Some? <==> HasArrived(run, id, from, total, i)
  }

  /** Until the transfer is done it stands, whatever completions come too early; then it is
      gone. */
  lemma {:induction false} SlotsFilledIff(m: Receiving, run: seq<Event>, id: string, from: string, total: nat)
    requires Sized(m) && id in m && m[id] == NewReceive(from, total) && OnlyChunks(run, id)
    ensures if Done(run, id, from, total) then id !in Exec(m, run) else Stands(Exec(m, run), run, id, from, total)
  {
    if run != [] {
      var before, ev := run[..|run| - 1], run[|run| - 1];
      assert run == before + [ev];
      SlotsFilledIff(m, before, id, from, total);
      assert LeavesAlone(ev, id);
      var r := Exec(m, before);
      if Done(before, id, from, total) {
        GoneStays(r, ev, id);
      } else {
        ArrivedGrows(before, ev, id, from, total);
        if ev.Completed? && ev.id == id {
          FilledIffArrived(r, before, id, from, total);
        } else {
          StandsStep(r, before, ev, id, from, total);
        }
      }
    }
  }

  lemma GoneStays(m: Receiving, ev: Event, id: string)
    requires Sized(m) && id !in m && LeavesAlone(ev, id)
    ensures id !in Step(m, ev)
  {
  }

  lemma ArrivedGrows(before: seq<Event>, ev: Event, id: string, from: string, total: nat)
    ensures forall i: nat :: HasArrived(before + [ev], id, from, total, i) <==>
                             HasArrived(before, id, from, total, i) || Carries(ev, id, from, total, i)
  {
    var run := before + [ev];
    assert forall x <- before :: x in run;
    assert run[|before|] == ev;
  }

  lemma FilledIffArrived(m: Receiving, run: seq<Event>, id: string, from: string, total: nat)
    requires Stands(m, run, id, from, total)
    ensures Assemble(m, id).Assembled? <==> AllArrived(run, id, from, total)
    ensures Assemble(m, id).Missing? ==>
              Assemble(m, id).index < total && !HasArrived(run, id, from, total, Assemble(m, id).index)
    ensures !Assemble(m, id).Absent?
  {
    NoneMissing(m[id].chunks);
    MissingIsMissing(m[id].chunks);
  }

  lemma StandsStep(m: Receiving, before: seq<Event>, ev: Event, id: string, from: string, total: nat)
    requires Sized(m) && Stands(m, before, id, from, total) && LeavesAlone(ev, id) && !(ev.Completed? && ev.id == id)
    ensures Stands(Step(m, ev), before + [ev], id, from, total)
  {
    ArrivedGrows(before, ev, id, from, total);
    SlotKept(m, ev, id);
    forall i: nat | i < total
      ensures Step(m, ev)[id].chunks[i].Some? <==> HasArrived(before + [ev], id, from, total, i)
    {
      SlotStep(m, ev, id, i);
    }
  }

  lemma SlotKept(m: Receiving, ev: Event, id: string)
    requires Sized(m) && id in m && LeavesAlone(ev, id) && !(ev.Completed? && ev.id == id)
    ensures var m' := Step(m, ev);
            id in m' && m'[id].from == m[id].from && m'[id].totalChunks == m[id].totalChunks
  {
  }

  /** The first chunk with an index fills its slot; later ones change nothing. */
  lemma SlotStep(m: Receiving, ev: Event, id: string, i: nat)
    requires Sized(m) && id in m && LeavesAlone(ev, id) && !(ev.Completed? && ev.id == id) && i < m[id].totalChunks
    ensures var m' := Step(m, ev);
            && id in m' && m'[id].from == m[id].from && m'[id].totalChunks == m[id].totalChunks
            && m'[id].chunks[i] == if m[id].chunks[i].None? && Carries(ev, id, m[id].from, m[id].totalChunks, i)
                                   then Some(DecodeChunk(ev.buffer).value.data) else m[id].chunks[i]
  {
    if ev.Arrived? && PREFIX <= ev.channel {
      assert ev.channel == PREFIX + ev.channel[|PREFIX|..];
    }
  }

  // ---- The round trip ----

  /** Every chunk that arrives for the transfer and that it accepts is a frame of the file. */
  ghost predicate Genuine(run: seq<Event>, id: string, from: string, file: Bytes, chunkSize: nat)
    requires 0 < chunkSize
  {
    var total := TotalChunks(|file|, chunkSize);
    forall ev, i: nat | ev in run && Carries(ev, id, from, total, i) ::
      exists k: nat | k < total :: ev.buffer == FrameBytes(file, chunkSize, k)
  }

  lemma GenuineData(ev: Event, id: string, from: string, file: Bytes, chunkSize: nat, i: nat, k: nat)
    requires 0 < chunkSize && TotalChunks(|file|, chunkSize) < TWO32 && k < TotalChunks(|file|, chunkSize)
    requires Carries(ev, id, from, TotalChunks(|file|, chunkSize), i) && ev.buffer == FrameBytes(file, chunkSize, k)
    ensures DecodeChunk(ev.buffer).value.data == Chunks(file, chunkSize)[i]
  {
    ChunkRoundTrip(k, Chunks(file, chunkSize)[k]);
  }

  /** A filled slot holds the chunk of its index. */
  ghost predicate HoldsChunks(m: Receiving, id: string, file: Bytes, chunkSize: nat)
    requires 0 < chunkSize
  {
    id in m && |m[id].chunks| == TotalChunks(|file|, chunkSize) &&
    forall i: nat | i < TotalChunks(|file|, chunkSize) ::
      m[id].chunks[i].Some? ==> m[id].chunks[i] == Some(Chunks(file, chunkSize)[i])
  }

  lemma {:induction false} SlotsHoldChunks(m: Receiving, run: seq<Event>, id: string, from: string, file: Bytes, chunkSize: nat)
    requires Sized(m) && 0 < chunkSize && TotalChunks(|file|, chunkSize) < TWO32
    requires id in m && m[id] == NewReceive(from, TotalChunks(|file|, chunkSize))
    requires OnlyChunks(run, id) && Genuine(run, id, from, file, chunkSize)
    requires !Done(run, id, from, TotalChunks(|file|, chunkSize))
    ensures HoldsChunks(Exec(m, run), id, file, chunkSize)
  {
    var total := TotalChunks(|file|, chunkSize);
    if run != [] {
      var before, ev := run[..|run| - 1], run[|run| - 1];
      assert run == before + [ev];
      SlotsHoldChunks(m, before, id, from, file, chunkSize);
      SlotsFilledIff(m, before, id, from, total);
      assert LeavesAlone(ev, id);
      assert ev in run;
      var r := Exec(m, before);
      if ev.Completed? && ev.id == id {
        FilledIffArrived(r, before, id, from, total);
      } else {
        SlotKept(r, ev, id);
        HoldsStep(r, ev, id, from, file, chunkSize);
      }
    }
  }

  lemma HoldsStep(m: Receiving, ev: Event, id: string, from: string, file: Bytes, chunkSize: nat)
    requires Sized(m) && 0 < chunkSize && TotalChunks(|file|, chunkSize) < TWO32
    requires HoldsChunks(m, id, file, chunkSize) && m[id].from == from
    requires LeavesAlone(ev, id) && !(ev.Completed? && ev.id == id) && Genuine([ev], id, from, file, chunkSize)
    ensures HoldsChunks(Step(m, ev), id, file, chunkSize)
  {
    var total := TotalChunks(|file|, chunkSize);
    SlotKept(m, ev, id);
    forall i: nat | i < total && Step(m, ev)[id].chunks[i].Some?
      ensures Step(m, ev)[id].chunks[i] == Some(Chunks(file, chunkSize)[i])
    {
      SlotStep(m, ev, id, i);
      if Carries(ev, id, from, total, i) {
        assert ev in [ev];
        var k: nat :| k < total && ev.buffer == FrameBytes(file, chunkSize, k);
        GenuineData(ev, id, from, file, chunkSize, i, k);
      }
    }
  }

  lemma {:induction false} FullParts(slots: Slots, parts: seq<Bytes>)
    requires |slots| == |parts| && forall i | 0 <= i < |slots| :: slots[i] == Some(parts[i])
    ensures Parts(slots) == parts
  {
    if slots != [] {
      FullParts(slots[..|slots| - 1], parts[..|parts| - 1]);
      assert parts == parts[..|parts| - 1] + [parts[|parts| - 1]];
    }
  }

  /** Before the transfer is done, assembly succeeds exactly if a chunk with every index has
      arrived, and otherwise names a missing one; afterwards there is nothing to assemble. */
  lemma AssemblesIff(m: Receiving, run: seq<Event>, id: string, from: string, total: nat)
    requires Sized(m) && id in m && m[id] == NewReceive(from, total) && OnlyChunks(run, id)
    ensures var outcome := Assemble(Exec(m, run), id);
            && (outcome.Absent? <==> Done(run, id, from, total))
            && (outcome.Assembled? <==> !Done(run, id, from, total) && AllArrived(run, id, from, total))
            && (outcome.Missing? ==> outcome.index < total && !HasArrived(run, id, from, total, outcome.index))
  {
    SlotsFilledIff(m, run, id, from, total);
    if !Done(run, id, from, total) { FilledIffArrived(Exec(m, run), run, id, from, total); }
  }

  lemma {:induction false} MissingIsMissing(slots: Slots)
    ensures FirstMissing(slots).Some? ==> FirstMissing(slots).value < |slots| && slots[FirstMissing(slots).value].None?
  {
    if slots != [] { MissingIsMissing(slots[1..]); }
  }

  ghost predicate AllFramesArrived(run: seq<Event>, id: string, from: string, file: Bytes, chunkSize: nat)
    requires 0 < chunkSize
  {
    forall i: nat | i < TotalChunks(|file|, chunkSize) :: FrameArrived(run, id, from, file, chunkSize, i)
  }

  /** A completion came, from anybody, after every frame of the file. */
  ghost predicate FileDone(run: seq<Event>, id: string, from: string, file: Bytes, chunkSize: nat)
    requires 0 < chunkSize
  {
    exists i | 0 <= i < |run| ::
      run[i].Completed? && run[i].id == id && AllFramesArrived(run[..i], id, from, file, chunkSize)
  }

  lemma FramesAreChunks(run: seq<Event>, id: string, from: string, file: Bytes, chunkSize: nat)
    requires 0 < chunkSize && TotalChunks(|file|, chunkSize) < TWO32 && Genuine(run, id, from, file, chunkSize)
    ensures AllArrived(run, id, from, TotalChunks(|file|, chunkSize)) <==> AllFramesArrived(run, id, from, file, chunkSize)
  {
    forall i: nat | i < TotalChunks(|file|, chunkSize)
      ensures HasArrived(run, id, from, TotalChunks(|file|, chunkSize), i) <==> FrameArrived(run, id, from, file, chunkSize, i)
    {
      ArrivedIsFrame(run, id, from, file, chunkSize, i);
    }
  }

  lemma {:induction false} DoneIsFileDone(run: seq<Event>, id: string, from: string, file: Bytes, chunkSize: nat)
    requires 0 < chunkSize && TotalChunks(|file|, chunkSize) < TWO32 && Genuine(run, id, from, file, chunkSize)
    ensures Done(run, id, from, TotalChunks(|file|, chunkSize)) <==> FileDone(run, id, from, file, chunkSize)
  {
    if run != [] {
      var last := |run| - 1;
      var before := run[..last];
      assert forall ev <- before :: ev in run;
      DoneIsFileDone(before, id, from, file, chunkSize);
      FramesAreChunks(before, id, from, file, chunkSize);
      assert forall i | 0 <= i < last :: before[i] == run[i] && before[..i] == run[..i];
      if FileDone(before, id, from, file, chunkSize) {
        var i :| 0 <= i < last && before[i].Completed? && before[i].id == id &&
                 AllFramesArrived(before[..i], id, from, file, chunkSize);
        assert AllFramesArrived(run[..i], id, from, file, chunkSize);
      }
    }
  }

  /** The round trip, from an offer that fits: whatever the order, the duplicates, the foreign
      or broken chunks and the early completions in between, if the sender's chunks are
      frames of its file, then a completion now gives the file exactly if every frame has
      arrived and none before it did; after that the transfer is gone. */
  lemma TransferRoundTrip(m: Receiving, run: seq<Event>, id: string, from: string, file: Bytes, chunkSize: nat)
    requires Sized(m) && 0 < chunkSize && TotalChunks(|file|, chunkSize) < TWO32
    requires OnlyChunks(run, id) && Genuine(run, id, from, file, chunkSize)
    ensures var outcome := Assemble(Exec(Offer(m, id, TotalChunks(|file|, chunkSize), from), run), id);
            var done := FileDone(run, id, from, file, chunkSize);
            && (outcome.Assembled? <==> !done && AllFramesArrived(run, id, from, file, chunkSize))
            && (outcome.Assembled? ==> outcome.file == file)
            && (outcome.Absent? <==> done)
  {
    var total := TotalChunks(|file|, chunkSize);
    var m0 := Offer(m, id, total, from);
    AssemblesIff(m0, run, id, from, total);
    DoneIsFileDone(run, id, from, file, chunkSize);
    FramesAreChunks(run, id, from, file, chunkSize);
    if Assemble(Exec(m0, run), id).Assembled? {
      SlotsHoldChunks(m0, run, id, from, file, chunkSize);
      FilledIsFile(Exec(m0, run), id, file, chunkSize);
    }
  }

  lemma FilledIsFile(m: Receiving, id: string, file: Bytes, chunkSize: nat)
    requires 0 < chunkSize && HoldsChunks(m, id, file, chunkSize) && Assemble(m, id).Assembled?
    ensures Assemble(m, id).file == file
  {
    var slots := m[id].chunks;
    NoneMissing(slots);
    FullParts(slots, Chunks(file, chunkSize));
    ChunksAreFile(file, chunkSize);
  }

  /** Frame `i` of the file arrived on the transfer's channel from its sender. */
  ghost predicate FrameArrived(run: seq<Event>, id: string, from: string, file: Bytes, chunkSize: nat, i: nat)
    requires 0 < chunkSize && i < TotalChunks(|file|, chunkSize)
  {
    Arrived(PREFIX + id, from, FrameBytes(file, chunkSize, i)) in run
  }

  lemma ArrivedIsFrame(run: seq<Event>, id: string, from: string, file: Bytes, chunkSize: nat, i: nat)
    requires 0 < chunkSize && i < TotalChunks(|file|, chunkSize) < TWO32
    requires Genuine(run, id, from, file, chunkSize)
    ensures HasArrived(run, id, from, TotalChunks(|file|, chunkSize), i) <==> FrameArrived(run, id, from, file, chunkSize, i)
  {
    var total := TotalChunks(|file|, chunkSize);
    ChunkRoundTrip(i, Chunks(file, chunkSize)[i]);
    if HasArrived(run, id, from, total, i) {
      var ev :| ev in run && Carries(ev, id, from, total, i);
      var k: nat :| k < total && ev.buffer == FrameBytes(file, chunkSize, k);
      ChunkRoundTrip(k, Chunks(file, chunkSize)[k]);
    }
    if FrameArrived(run, id, from, file, chunkSize, i) {
      assert Carries(Arrived(PREFIX + id, from, FrameBytes(file, chunkSize, i)), id, from, total, i);
    }
  }

  // ---- Which files can be sent ----

  /** The frames of a file as they arrive if none is lost. */
  function AllFrames(id: string, from: string, file: Bytes, chunkSize: nat): seq<Event>
    requires 0 < chunkSize
  {
    seq(TotalChunks(|file|, chunkSize), i requires 0 <= i < TotalChunks(|file|, chunkSize) =>
      Arrived(PREFIX + id, from, FrameBytes(file, chunkSize, i)))
  }

  lemma AllFramesArrive(id: string, from: string, file: Bytes, chunkSize: nat)
    requires 0 < chunkSize
    ensures var run := AllFrames(id, from, file, chunkSize);
            && OnlyChunks(run, id) && Genuine(run, id, from, file, chunkSize)
            && AllFramesArrived(run, id, from, file, chunkSize) && !FileDone(run, id, from, file, chunkSize)
  {
    var run := AllFrames(id, from, file, chunkSize);
    forall i: nat | i < |run| ensures FrameArrived(run, id, from, file, chunkSize, i) {
      assert run[i] == Arrived(PREFIX + id, from, FrameBytes(file, chunkSize, i));
    }
  }

  /** Chunks do not bring a transfer into being. */
  lemma {:induction false} UnofferedStaysAbsent(m: Receiving, run: seq<Event>, id: string)
    requires Sized(m) && id !in m && OnlyChunks(run, id)
    ensures id !in Exec(m, run)
  {
    if run != [] {
      var last := |run| - 1;
      assert run == run[..last] + [run[last]];
      UnofferedStaysAbsent(m, run[..last], id);
      assert LeavesAlone(run[last], id);
    }
  }

  /** After a first offer some arrival of the file's frames gives the file if and only if the
      file has fewer than 2^32 chunks. */
  lemma FileArrivesIff(m: Receiving, id: string, from: string, file: Bytes, chunkSize: nat)
    requires Sized(m) && 0 < chunkSize && id !in m
    ensures (exists run: seq<Event> | OnlyChunks(run, id) && Genuine(run, id, from, file, chunkSize) ::
               Assemble(Exec(Offer(m, id, TotalChunks(|file|, chunkSize), from), run), id) == Assembled(file))
       <==> TotalChunks(|file|, chunkSize) < TWO32
  {
    var total := TotalChunks(|file|, chunkSize);
    if total < TWO32 {
      AllFramesArrive(id, from, file, chunkSize);
      TransferRoundTrip(m, AllFrames(id, from, file, chunkSize), id, from, file, chunkSize);
    } else {
      forall run: seq<Event> | OnlyChunks(run, id) ensures Assemble(Exec(m, run), id).Absent? {
        UnofferedStaysAbsent(m, run, id);
      }
    }
  }

  // ---- What destroys a transfer ----

  /** The transfer is still there, from the same sender, with every filled slot as it was. */
  ghost predicate Kept(m: Receiving, m': Receiving, id: string)
    requires Sized(m) && Sized(m') && id in m
  {
    && id in m' && m'[id].from == m[id].from && m'[id].totalChunks == m[id].totalChunks
    && forall i: nat | i < m[id].totalChunks && m[id].chunks[i].Some? :: m'[id].chunks[i] == m[id].chunks[i]
  }

  /** An event costs a transfer what it has received if and only if it is a cancellation, a
      completion when no slot is empty, or an offer under its id that fits and that is not
      the same offer repeated before any chunk; whoever sends it. */
  lemma DestroyedIff(m: Receiving, ev: Event, id: string)
    requires Sized(m) && id in m
    ensures !Kept(m, Step(m, ev), id) <==>
            match ev
            case Arrived(_, _, _) => false
            case Cancelled(i, _) => i == id
            case Completed(i, _) => i == id && forall k: nat | k < m[id].totalChunks :: m[id].chunks[k].Some?
            case Offered(i, n, sender) =>
              && i == id && n < TWO32
              && !(sender == m[id].from && n == m[id].totalChunks && forall d <- m[id].chunks :: d.None?)
  {
    match ev {
      case Arrived(channel, _, _) =>
      case Cancelled(i, _) =>
      case Completed(i, _) =>
        if i == id { NoneMissing(m[id].chunks); }
      case Offered(i, n, sender) =>
        if i == id && n < TWO32 && sender == m[id].from && n == m[id].totalChunks {
          OfferKeepsIff(m, id, n, sender);
        }
    }
  }

  lemma OfferKeepsIff(m: Receiving, id: string, n: nat, sender: string)
    requires Sized(m) && id in m && n < TWO32 && sender == m[id].from && n == m[id].totalChunks
    ensures Kept(m, Offer(m, id, n, sender), id) <==> forall d <- m[id].chunks :: d.None?
  {
    var chunks := m[id].chunks;
    if d :| d in chunks && d.Some? {
      var i: nat :| i < |chunks| && chunks[i] == d;
      assert Offer(m, id, n, sender)[id].chunks[i].None?;
    } else {
      assert forall i: nat | i < |chunks| :: chunks[i] in chunks;
    }
  }

  /** A refused offer changes nothing: with 2^32 one-byte chunks the transfer is absent,
      whatever arrives. */
  lemma TooManyChunks(m: Receiving, run: seq<Event>, id: string, from: string, file: Bytes)
    requires Sized(m) && id !in m && OnlyChunks(run, id) && |file| == TWO32
    ensures var total := TotalChunks(|file|, 1);
            Offer(m, id, total, from) == m && Assemble(Exec(Offer(m, id, total, from), run), id).Absent?
  {
    assert TotalChunks(|file|, 1) == TWO32;
    UnofferedStaysAbsent(m, run, id);
  }
}
