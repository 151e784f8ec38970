/** The viewer stage: consumer 2 of OriginalFrame, and a plain reader of the
    two transform output segments. It opens segments but never creates,
    initialises or removes one. */
module FrameReaderStage {
  import opened SharedMemoryBuffer
  import opened SharedRegion
  import FrameBus

  const FrameReaderId: ClientId := 2

  class FrameReader {
    const dataOriginal: BufferMemory
    const dataOptical: BufferMemory
    const dataCircle: BufferMemory
    const frameOriginal: array<Byte>
    const frameOptical: array<Byte>
    const frameCircle: array<Byte>
    var enableStream: bool

    ghost predicate Valid() {
      && dataOriginal.WellFormed() && dataOptical.WellFormed() && dataCircle.WellFormed()
      && Separate(dataOriginal, dataOptical) && Separate(dataOriginal, dataCircle)
      && Separate(dataOptical, dataCircle)
      && frameOriginal.Length == FrameSize && frameOptical.Length == FrameSize
      && frameCircle.Length == FrameSize
      && frameOriginal != frameOptical && frameOriginal != frameCircle && frameOptical != frameCircle
      && LocalFrame(frameOriginal) && LocalFrame(frameOptical) && LocalFrame(frameCircle)
    }

    /** Whether a local image is distinct from every mapped slot. */
    ghost predicate LocalFrame(a: array<Byte>) {
      a != dataOriginal.frameData && a != dataOptical.frameData && a != dataCircle.frameData
    }

    constructor (dataOriginal: BufferMemory, dataOptical: BufferMemory, dataCircle: BufferMemory)
      requires dataOriginal.WellFormed() && dataOptical.WellFormed() && dataCircle.WellFormed()
      requires Separate(dataOriginal, dataOptical) && Separate(dataOriginal, dataCircle)
      requires Separate(dataOptical, dataCircle)
      ensures Valid() && enableStream
      ensures fresh(frameOriginal) && fresh(frameOptical) && fresh(frameCircle)
      ensures this.dataOriginal == dataOriginal && this.dataOptical == dataOptical
      ensures this.dataCircle == dataCircle
    {
      this.dataOriginal := dataOriginal;
      this.dataOptical := dataOptical;
      this.dataCircle := dataCircle;
      frameOriginal := new Byte[FrameSize](_ => 0);
      frameOptical := new Byte[FrameSize](_ => 0);
      frameCircle := new Byte[FrameSize](_ => 0);
      enableStream := true;
    }

    /** Opens the three channels; fails unless all three exist. The table of
        segments is only read. */
    static method Create(shm: SharedMemoryNamespace) returns (r: Result<FrameReader>)
      requires shm.Valid()
      ensures r.Ok? <==>
        SharedMemoryName in shm.segments && SharedOpticalFlowName in shm.segments
        && SharedCircleDetectName in shm.segments
      ensures r.Err? ==> r.error == NotFound
      ensures r.Ok? ==>
        && fresh(r.value) && r.value.Valid() && r.value.enableStream
        && fresh(r.value.frameOriginal) && fresh(r.value.frameOptical) && fresh(r.value.frameCircle)
        && r.value.dataOriginal == shm.segments[SharedMemoryName]
        && r.value.dataOptical == shm.segments[SharedOpticalFlowName]
        && r.value.dataCircle == shm.segments[SharedCircleDetectName]
    {
      var original := shm.OpenOnly(SharedMemoryName);
      if original.Err? {
        return Err(original.error);
      }
      var optical := shm.OpenOnly(SharedOpticalFlowName);
      if optical.Err? {
        return Err(optical.error);
      }
      var circle := shm.OpenOnly(SharedCircleDetectName);
      if circle.Err? {
        return Err(circle.error);
      }
      ChannelNamesDistinct();
      var fr := new FrameReader(original.value, optical.value, circle.value);
      r := Ok(fr);
    }

    method StopStream() returns (ok: bool)
      modifies this
      ensures ok && !enableStream
    {
      enableStream := false;
      ok := true;
    }

    /** One pass of the viewer loop: consume the current original frame as
        consumer 2, then copy both transform output slots into local images,
        without a lock. Display is left to the caller. */
    method Step(keyPressed: bool) returns (frameDone: bool, stop: bool)
      requires Valid()
      requires enableStream ==> FrameBus.ConsumeEnabled(dataOriginal.View(), FrameReaderId)
      modifies dataOriginal, dataOriginal.newFrames, frameOriginal, frameOptical, frameCircle
      ensures stop <==> !enableStream || keyPressed
      ensures !enableStream ==>
        !frameDone && unchanged(dataOriginal, dataOriginal.newFrames, frameOriginal, frameOptical, frameCircle)
      ensures enableStream ==>
        && dataOriginal.View() == FrameBus.Consume(old(dataOriginal.View()), FrameReaderId)
        && (frameDone <==> FrameBus.SignalsFrameDone(old(dataOriginal.View()), FrameReaderId))
        && (old(dataOriginal.Valid()) ==> dataOriginal.Valid())
        && frameOriginal[..] == old(dataOriginal.frameData[..])
        && frameOptical[..] == dataOptical.frameData[..]
        && frameCircle[..] == dataCircle.frameData[..]
      ensures unchanged(dataOriginal.frameData)
      ensures unchanged(dataOptical, dataOptical.newFrames, dataOptical.frameData)
      ensures unchanged(dataCircle, dataCircle.newFrames, dataCircle.frameData)
    {
      if !enableStream {
        return false, true;
      }
      frameDone := dataOriginal.Consume(FrameReaderId, frameOriginal);
      Memcpy(frameOptical, dataOptical.frameData[..]);
      Memcpy(frameCircle, dataCircle.frameData[..]);
      stop := keyPressed;
    }
  }
}
