/** The broadcast barrier on a BufferMemory segment, as a state machine.

    Every critical section runs under the segment's mutex, so each is one
    atomic transition of BufferState. A blocking wait becomes the guard of
    its transition: `Enabled` says when a step may fire, `Next` says what the
    locked block does once it runs, and `Admissible` says that every step of
    a schedule fired with its guard true. */
module FrameBus {
  import opened SharedMemoryBuffer

  datatype Option<T> = None | Some(value: T)

  function AllFlags(b: bool): Flags {
    seq(NumOfClients, _ => b)
  }

  /** No consumer has the current frame pending. */
  predicate Drained(s: BufferState) {
    forall i :: 0 <= i < NumOfClients ==> !s.newFrames[i]
  }

  /** The producer's wait on frame_done is over. Under the invariant this
      is exactly when no consumer has the current frame pending, so the
      producer may overwrite the slot. */
  function PublishEnabled(s: BufferState): (p: bool)
    ensures BarrierInv(s) ==> (p <==> Drained(s))
  {
    s.clientsRead == NumOfClients
  }

  /** Consumer `id`'s wait on frame_ready is over. Under the invariant a
      consumer can only get through while the producer is kept waiting. */
  function ConsumeEnabled(s: BufferState, id: ClientId): (p: bool)
    ensures BarrierInv(s) && p ==> s.clientsRead < NumOfClients && !PublishEnabled(s)
  {
    s.newFrames[id]
  }

  /** The producer's initialisation: every consumer counts as having read,
      no flag is pending, and the slot keeps whatever it held. */
  function Init(s: BufferState): (r: BufferState)
    ensures BarrierInv(r) && Drained(r) && PublishEnabled(r)
    ensures forall id: ClientId :: !ConsumeEnabled(r, id)
    ensures r.frameData == s.frameData
  {
    BufferState(NumOfClients, AllFlags(false), s.frameData)
  }

  /** The producer's locked block: install the frame, reset the counter and
      mark the frame pending for every consumer. */
  function Publish(s: BufferState, frame: Frame): (r: BufferState)
    ensures BarrierInv(r) && r.clientsRead == 0
    ensures forall id: ClientId :: ConsumeEnabled(r, id)
    ensures r.frameData == frame
  {
    BufferState(0, AllFlags(true), frame)
  }

  /** Consumer `id`'s locked block (after it copied the slot out): count one
      more reader and clear its own flag; the slot and the other flags stay. */
  function Consume(s: BufferState, id: ClientId): (r: BufferState)
    ensures r.frameData == s.frameData
    ensures r.clientsRead == s.clientsRead + 1
    ensures !r.newFrames[id]
    ensures forall k :: 0 <= k < NumOfClients && k != id ==> r.newFrames[k] == s.newFrames[k]
  {
    s.(clientsRead := s.clientsRead + 1, newFrames := s.newFrames[id := false])
  }

  /** Whether consumer `id`'s block notifies frame_done. After a guarded
      wait that is exactly when `id` is the last consumer with the frame
      pending. */
  function SignalsFrameDone(s: BufferState, id: ClientId): (p: bool)
    ensures BarrierInv(s) && ConsumeEnabled(s, id) ==>
      (p <==> forall k: ClientId :: k != id ==> !s.newFrames[k])
  {
    CountClearedUpdate(s.newFrames, id, false);
    Consume(s, id).clientsRead == NumOfClients
  }

  /** A guarded consume keeps the invariant, and its frame_done signal fires
      exactly when it is the last of the consumers to read the frame. */
  lemma ConsumeKeepsInv(s: BufferState, id: ClientId)
    requires BarrierInv(s) && ConsumeEnabled(s, id)
    ensures BarrierInv(Consume(s, id))
    ensures Consume(s, id).clientsRead <= NumOfClients
    ensures SignalsFrameDone(s, id) <==> Drained(Consume(s, id))
  {
    CountClearedUpdate(s.newFrames, id, false);
  }

  // ---------------------------------------------------------------------
  // Schedules: sequences of steps taken one after the other under the lock

  datatype Event = Published(frame: Frame) | Consumed(id: ClientId)

  predicate Enabled(s: BufferState, e: Event) {
    match e
    case Published(_) => PublishEnabled(s)
    case Consumed(id) => ConsumeEnabled(s, id)
  }

  /** The effect of one locked block, whether or not its guard held. */
  function Next(s: BufferState, e: Event): BufferState {
    match e
    case Published(f) => Publish(s, f)
    case Consumed(id) => Consume(s, id)
  }

  function Last(t: seq<Event>): Event
    requires t != []
  {
    t[|t| - 1]
  }

  function Front(t: seq<Event>): seq<Event>
    requires t != []
  {
    t[..|t| - 1]
  }

  /** The state after running schedule `t` from `s`. */
  function Run(s: BufferState, t: seq<Event>): BufferState
    decreases |t|
  {
    if t == [] then s else Next(Run(s, Front(t)), Last(t))
  }

  /** Every step of `t` fired with its guard true. */
  predicate Admissible(s: BufferState, t: seq<Event>)
    decreases |t|
  {
    t == [] || (Admissible(s, Front(t)) && Enabled(Run(s, Front(t)), Last(t)))
  }

  /** What the consume at position `j` of `t` copies out of the slot. */
  function ReadAt(s: BufferState, t: seq<Event>, j: nat): Frame
    requires j <= |t|
  {
    Run(s, t[..j]).frameData
  }

  function ConsumeCount(t: seq<Event>, id: ClientId): nat
    decreases |t|
  {
    if t == [] then 0
    else ConsumeCount(Front(t), id) + (if Last(t) == Consumed(id) then 1 else 0)
  }

  function PublishCount(t: seq<Event>): nat
    decreases |t|
  {
    if t == [] then 0
    else PublishCount(Front(t)) + (if Last(t).Published? then 1 else 0)
  }

  predicate NoPublish(t: seq<Event>) {
    forall i :: 0 <= i < |t| ==> t[i].Consumed?
  }

  /** The frame of the last publish in `t`, if there is one. */
  function LatestFrame(t: seq<Event>): Option<Frame>
    decreases |t|
  {
    if t == [] then None
    else if Last(t).Published? then Some(Last(t).frame)
    else LatestFrame(Front(t))
  }

  // ---------------------------------------------------------------------
  // Lemmas about schedules

  lemma {:induction false} AdmissiblePrefix(s: BufferState, t: seq<Event>, j: nat)
    requires Admissible(s, t) && j <= |t|
    ensures Admissible(s, t[..j])
    decreases |t|
  {
    if j < |t| {
      assert Front(t)[..j] == t[..j];
      AdmissiblePrefix(s, Front(t), j);
    } else {
      assert t[..j] == t;
    }
  }

  /** Running `a` then `b` is running `a + b`, and it is admissible exactly
      when both halves are. */
  lemma {:induction false} RunAppend(s: BufferState, a: seq<Event>, b: seq<Event>)
    ensures Run(s, a + b) == Run(Run(s, a), b)
    ensures Admissible(s, a + b) <==> Admissible(s, a) && Admissible(Run(s, a), b)
    decreases |b|
  {
    if b == [] {
      assert a + b == a;
    } else {
      assert Front(a + b) == a + Front(b);
      assert Last(a + b) == Last(b);
      RunAppend(s, a, Front(b));
    }
  }

  /** Over any admissible schedule the barrier invariant is kept, so the
      counter stays within 0 .. NumOfClients. */
  lemma {:induction false} InvariantKept(s: BufferState, t: seq<Event>)
    requires BarrierInv(s) && Admissible(s, t)
    ensures BarrierInv(Run(s, t))
    ensures 0 <= Run(s, t).clientsRead <= NumOfClients
    decreases |t|
  {
    if t != [] {
      InvariantKept(s, Front(t));
      var before := Run(s, Front(t));
      match Last(t)
      case Published(f) =>
      case Consumed(id) => ConsumeKeepsInv(before, id);
    }
  }

  /** Between two publishes, each consumer reads at most once (at most zero
      times if its flag was already clear), a consumer's flag is set exactly
      when it has not read yet, every read sees the same slot, and each read
      adds one to the counter. */
  lemma {:induction false} DrainWithoutPublish(s: BufferState, t: seq<Event>)
    requires Admissible(s, t) && NoPublish(t)
    ensures Run(s, t).frameData == s.frameData
    ensures Run(s, t).clientsRead == s.clientsRead + |t|
    ensures forall i :: 0 <= i < NumOfClients ==>
      ConsumeCount(t, i) <= (if s.newFrames[i] then 1 else 0)
    ensures forall i :: 0 <= i < NumOfClients ==>
      Run(s, t).newFrames[i] == (s.newFrames[i] && ConsumeCount(t, i) == 0)
    decreases |t|
  {
    if t != [] {
      var p := Front(t);
      assert forall i :: 0 <= i < |p| ==> p[i] == t[i];
      DrainWithoutPublish(s, p);
      assert Last(t).Consumed?;
    }
  }

  /** No frame is dropped and none is read twice: between two consecutive
      publishes every consumer reads exactly once, and every read in between
      returns the first publish's frame. */
  lemma ExactlyOnceBetweenPublishes(s: BufferState, p: seq<Event>, f: Frame, q: seq<Event>, g: Frame)
    requires Admissible(s, p + [Published(f)] + q + [Published(g)])
    requires NoPublish(q)
    ensures forall i :: 0 <= i < NumOfClients ==> ConsumeCount(q, i) == 1
    ensures forall j :: 0 <= j <= |q| ==> ReadAt(Run(s, p + [Published(f)]), q, j) == f
  {
    var a := p + [Published(f)];
    var b := q + [Published(g)];
    assert p + [Published(f)] + q + [Published(g)] == a + b;
    RunAppend(s, a, b);
    assert Front(a) == p;
    var s1 := Run(s, a);
    assert s1 == Publish(Run(s, p), f);
    assert Front(b) == q;
    assert Admissible(s1, q) && PublishEnabled(Run(s1, q));
    DrainWithoutPublish(s1, q);
    InvariantKept(s1, q);
    forall j | 0 <= j <= |q|
      ensures ReadAt(s1, q, j) == f
    {
      AdmissiblePrefix(s1, q, j);
      assert forall i :: 0 <= i < |q[..j]| ==> q[..j][i] == q[i];
      DrainWithoutPublish(s1, q[..j]);
    }
  }

  /** The slot always holds the frame of the latest publish (or its initial
      bytes before any), whatever the guards did. */
  lemma {:induction false} SlotHoldsLatest(s: BufferState, t: seq<Event>)
    ensures Run(s, t).frameData == match LatestFrame(t) case Some(f) => f case None => s.frameData
    decreases |t|
  {
    if t != [] {
      SlotHoldsLatest(s, Front(t));
    }
  }

  lemma {:induction false} NoLatestNoPublish(t: seq<Event>)
    requires LatestFrame(t).None?
    ensures NoPublish(t)
    decreases |t|
  {
    if t != [] {
      NoLatestNoPublish(Front(t));
      assert forall i :: 0 <= i < |t| - 1 ==> Front(t)[i] == t[i];
    }
  }

  /** After initialisation, every consume returns exactly the bytes of the
      latest publish before it, and there always is one: nothing reads the
      slot's uninitialised bytes. */
  lemma ConsumeReturnsLatestPublish(x: BufferState, t: seq<Event>, j: nat)
    requires Admissible(Init(x), t)
    requires j < |t| && t[j].Consumed?
    ensures LatestFrame(t[..j]).Some?
    ensures ReadAt(Init(x), t, j) == LatestFrame(t[..j]).value
  {
    var s0 := Init(x);
    AdmissiblePrefix(s0, t, j + 1);
    assert Front(t[..j + 1]) == t[..j] && Last(t[..j + 1]) == t[j];
    assert ConsumeEnabled(Run(s0, t[..j]), t[j].id);
    if LatestFrame(t[..j]).None? {
      NoLatestNoPublish(t[..j]);
      DrainWithoutPublish(s0, t[..j]);
      assert false;
    }
    SlotHoldsLatest(s0, t[..j]);
  }

  lemma {:induction false} StallInduction(x: BufferState, t: seq<Event>, id: ClientId)
    requires Admissible(Init(x), t) && ConsumeCount(t, id) == 0
    ensures PublishCount(t) <= 1
    ensures BarrierInv(Run(Init(x), t))
    ensures PublishCount(t) == 0 ==> Run(Init(x), t) == Init(x)
    ensures PublishCount(t) == 1 ==> Run(Init(x), t).newFrames[id]
    decreases |t|
  {
    if t != [] {
      var p := Front(t);
      StallInduction(x, p, id);
      var before := Run(Init(x), p);
      match Last(t)
      case Published(f) =>
        if PublishCount(p) == 1 {
          assert false;
        }
      case Consumed(k) =>
        ConsumeKeepsInv(before, k);
    }
  }

  /** The liveness stall: if one consumer never reads, the producer gets past
      the barrier at most once, i.e. its second publish never fires. */
  lemma MissingConsumerStalls(x: BufferState, t: seq<Event>, id: ClientId)
    requires Admissible(Init(x), t) && ConsumeCount(t, id) == 0
    ensures PublishCount(t) <= 1
  {
    StallInduction(x, t, id);
  }

  /** Round trip: a published frame is read back unchanged by every consumer,
      after which the producer may publish again. */
  lemma RoundTrip(x: BufferState, f: Frame)
    ensures Admissible(Init(x), [Published(f), Consumed(0), Consumed(1), Consumed(2)])
    ensures forall j :: 1 <= j <= 3 ==>
      ReadAt(Init(x), [Published(f), Consumed(0), Consumed(1), Consumed(2)], j) == f
    ensures PublishEnabled(Run(Init(x), [Published(f), Consumed(0), Consumed(1), Consumed(2)]))
  {
    var t := [Published(f), Consumed(0), Consumed(1), Consumed(2)];
    assert t[..0] == [];
    assert t[..1] == [Published(f)];
    assert t[..2] == [Published(f), Consumed(0)];
    assert t[..3] == [Published(f), Consumed(0), Consumed(1)];
    assert t[..4] == t;
    assert Front(t[..1]) == t[..0] && Front(t[..2]) == t[..1];
    assert Front(t[..3]) == t[..2] && Front(t[..4]) == t[..3];
    var s0 := Init(x);
    var s1 := Publish(s0, f);
    var s2 := Consume(s1, 0);
    var s3 := Consume(s2, 1);
    assert Run(s0, t[..1]) == s1 && Admissible(s0, t[..1]);
    assert Run(s0, t[..2]) == s2 && Admissible(s0, t[..2]);
    assert Run(s0, t[..3]) == s3 && Admissible(s0, t[..3]);
    assert Run(s0, t) == Consume(s3, 2) && Admissible(s0, t);
    assert Consume(s3, 2).clientsRead == 3;
  }

  // ---------------------------------------------------------------------
  // The locked blocks as written: each wait is under `if`, not `while`, so
  // when a wait returns without its condition having become true (a
  // spurious wake-up) the block runs with its guard false.

  /** A consume that runs while its own flag is clear breaks the invariant:
      the counter runs one ahead of the cleared flags. */
  lemma SpuriousConsumeBreaksInv(s: BufferState, id: ClientId)
    requires BarrierInv(s) && !ConsumeEnabled(s, id)
    ensures Consume(s, id).clientsRead == CountCleared(Consume(s, id).newFrames) + 1
    ensures !BarrierInv(Consume(s, id))
    ensures Consume(s, id).frameData == s.frameData
  {
    assert s.newFrames[id := false] == s.newFrames;
  }

  /** Right after initialisation such a consume leaves the counter at
      NumOfClients + 1 with every flag clear: no guarded step can ever fire
      again, so producer and consumers all wait forever. */
  lemma SpuriousConsumeAfterInitStalls(x: BufferState, id: ClientId)
    ensures Consume(Init(x), id).clientsRead == NumOfClients + 1
    ensures forall e: Event :: !Enabled(Consume(Init(x), id), e)
  {
  }

  /** A publish that runs while some consumer still has the current frame
      pending overwrites that frame before the consumer read it. */
  lemma SpuriousPublishDropsFrame(s: BufferState, f: Frame)
    requires BarrierInv(s) && !PublishEnabled(s)
    ensures exists id: ClientId :: ConsumeEnabled(s, id) && ConsumeEnabled(Publish(s, f), id)
    ensures Publish(s, f).frameData == f
  {
    var id: ClientId :| s.newFrames[id];
    assert ConsumeEnabled(s, id) && ConsumeEnabled(Publish(s, f), id);
  }
}
