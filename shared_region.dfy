/** The objects that live in shared memory: one BufferMemory per named
    segment, the byte copy the stages use to move frames in and out of a
    slot, and the operating system's table of named segments. */
module SharedRegion {
  import opened SharedMemoryBuffer
  import FrameBus

  datatype SetupError = AlreadyExists | NotFound | CameraOpenFailed

  datatype Result<T> = Ok(value: T) | Err(error: SetupError)

  /** memcpy of a whole frame into a buffer of the same size. */
  method Memcpy(dst: array<Byte>, src: seq<Byte>)
    requires dst.Length == |src|
    modifies dst
    ensures dst[..] == src
  {
    for i := 0 to |src|
      invariant forall k :: 0 <= k < i ==> dst[k] == src[k]
    {
      dst[i] := src[i];
    }
  }

  /** The shared struct. Its state is `View()`; the three locked blocks of the
      barrier protocol are its methods, each the atomic step of FrameBus that
      it implements, with the step's wait turned into a precondition. */
  class BufferMemory {
    var clientsRead: int
    const newFrames: array<bool>
    const frameData: array<Byte>

    ghost predicate WellFormed() {
      newFrames.Length == NumOfClients && frameData.Length == FrameSize
    }

    function View(): BufferState
      requires WellFormed()
      reads this, newFrames, frameData
    {
      BufferState(clientsRead, newFrames[..], frameData[..])
    }

    ghost predicate Valid()
      reads this, newFrames, frameData
    {
      WellFormed() && BarrierInv(View())
    }

    /** Placement construction in a freshly truncated, zero-filled segment.
        The barrier is not yet consistent: Init must run first. */
    constructor ()
      ensures WellFormed() && fresh(newFrames) && fresh(frameData)
      ensures clientsRead == 0
      ensures forall i :: 0 <= i < NumOfClients ==> !newFrames[i]
      ensures forall i :: 0 <= i < FrameSize ==> frameData[i] == 0
      ensures !Valid()
    {
      clientsRead := 0;
      newFrames := new bool[NumOfClients](_ => false);
      frameData := new Byte[FrameSize](_ => 0);
    }

    /** The producer's initialisation of the barrier. */
    method Init()
      requires WellFormed()
      modifies this, newFrames
      ensures Valid()
      ensures View() == FrameBus.Init(old(View()))
    {
      clientsRead := NumOfClients;
      for i := 0 to NumOfClients
        invariant clientsRead == NumOfClients
        invariant forall k :: 0 <= k < i ==> !newFrames[k]
      {
        newFrames[i] := false;
      }
      assert newFrames[..] == FrameBus.AllFlags(false);
    }

    /** The producer's locked block, entered once every consumer has read. */
    method Publish(frame: Frame)
      requires WellFormed() && FrameBus.PublishEnabled(View())
      modifies this, newFrames, frameData
      ensures Valid()
      ensures View() == FrameBus.Publish(old(View()), frame)
    {
      Memcpy(frameData, frame);
      clientsRead := 0;
      for i := 0 to NumOfClients
        invariant clientsRead == 0 && frameData[..] == frame
        invariant forall k :: 0 <= k < i ==> newFrames[k]
      {
        newFrames[i] := true;
      }
      assert newFrames[..] == FrameBus.AllFlags(true);
    }

    /** Consumer `id`'s locked block, entered once its flag is set: copy the
        slot into the consumer's local frame, count the read, clear the flag,
        and report whether frame_done is notified. */
    method Consume(id: ClientId, frame: array<Byte>) returns (frameDone: bool)
      requires WellFormed() && frame.Length == FrameSize && frame != frameData
      requires FrameBus.ConsumeEnabled(View(), id)
      modifies this, newFrames, frame
      ensures frame[..] == old(frameData[..])
      ensures View() == FrameBus.Consume(old(View()), id)
      ensures frameDone <==> FrameBus.SignalsFrameDone(old(View()), id)
      ensures old(Valid()) ==> Valid() && (frameDone <==> FrameBus.Drained(View()))
    {
      Memcpy(frame, frameData[..]);
      clientsRead := clientsRead + 1;
      newFrames[id] := false;
      frameDone := clientsRead == NumOfClients;
      if old(Valid()) {
        FrameBus.ConsumeKeepsInv(old(View()), id);
      }
    }
  }

  /** Two segments that share no storage. */
  ghost predicate Separate(a: BufferMemory, b: BufferMemory) {
    a != b && a.newFrames != b.newFrames && a.frameData != b.frameData
  }

  /** The named shared-memory segments that exist. */
  class SharedMemoryNamespace {
    var segments: map<string, BufferMemory>

    ghost predicate Valid()
      reads this
    {
      && (forall name :: name in segments ==> segments[name].WellFormed())
      && (forall n1, n2 :: n1 in segments && n2 in segments && n1 != n2 ==>
            Separate(segments[n1], segments[n2]))
    }

    constructor ()
      ensures Valid() && segments == map[]
    {
      segments := map[];
    }

    /** shared_memory_object::remove: succeeds whether or not the name exists. */
    method Remove(name: string) returns (removed: bool)
      requires Valid()
      modifies this
      ensures Valid()
      ensures segments == old(segments) - {name}
      ensures removed <==> name in old(segments)
    {
      removed := name in segments;
      segments := segments - {name};
    }

    /** create_only, truncate, map and placement new: fails if the name is
        taken, otherwise adds a fresh segment under that name. */
    method CreateOnly(name: string) returns (r: Result<BufferMemory>)
      requires Valid()
      modifies this
      ensures Valid()
      ensures name in old(segments) ==> r == Err(AlreadyExists) && segments == old(segments)
      ensures name !in old(segments) ==>
        && r.Ok? && fresh(r.value) && fresh(r.value.newFrames) && fresh(r.value.frameData)
        && r.value.WellFormed() && !r.value.Valid()
        && segments == old(segments)[name := r.value]
    {
      if name in segments {
        return Err(AlreadyExists);
      }
      var b := new BufferMemory();
      segments := segments[name := b];
      r := Ok(b);
    }

    /** open_only followed by mapping: fails if no segment has the name. */
    method OpenOnly(name: string) returns (r: Result<BufferMemory>)
      ensures name in segments ==> r == Ok(segments[name])
      ensures name !in segments ==> r == Err(NotFound)
    {
      if name in segments {
        r := Ok(segments[name]);
      } else {
        r := Err(NotFound);
      }
    }
  }
}
