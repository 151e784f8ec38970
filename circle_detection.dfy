/** The circle-detection stage: consumer 0 of OriginalFrame, and the only
    writer of the CircleDetectionFrame segment. */
module CircleDetectionStage {
  import opened SharedMemoryBuffer
  import opened SharedRegion
  import FrameBus

  const CircleDetectId: ClientId := 0

  class CircleDetect {
    const shm: SharedMemoryNamespace
    const dataSender: BufferMemory
    const dataRecv: BufferMemory
    /** The local image the received frame is copied into and drawn on. */
    const frame: array<Byte>
    var enableStream: bool

    ghost predicate Valid() {
      && dataSender.WellFormed() && dataRecv.WellFormed()
      && Separate(dataSender, dataRecv)
      && frame.Length == FrameSize
      && frame != dataSender.frameData && frame != dataRecv.frameData
    }

    constructor (shm: SharedMemoryNamespace, dataSender: BufferMemory, dataRecv: BufferMemory)
      requires dataSender.WellFormed() && dataRecv.WellFormed() && Separate(dataSender, dataRecv)
      ensures Valid() && fresh(frame) && enableStream
      ensures this.shm == shm && this.dataSender == dataSender && this.dataRecv == dataRecv
    {
      this.shm := shm;
      this.dataSender := dataSender;
      this.dataRecv := dataRecv;
      frame := new Byte[FrameSize](_ => 0);
      enableStream := true;
    }

    /** Removes any stale CircleDetectionFrame segment and creates its own,
        then opens OriginalFrame, failing if the producer has not created it.
        The sender segment is never initialised, and stays if the open fails. */
    static method Create(shm: SharedMemoryNamespace) returns (r: Result<CircleDetect>)
      requires shm.Valid()
      modifies shm
      ensures shm.Valid()
      ensures SharedCircleDetectName in shm.segments && fresh(shm.segments[SharedCircleDetectName])
      ensures fresh(shm.segments[SharedCircleDetectName].newFrames)
      ensures fresh(shm.segments[SharedCircleDetectName].frameData)
      ensures !shm.segments[SharedCircleDetectName].Valid()
      ensures shm.segments == old(shm.segments)[SharedCircleDetectName := shm.segments[SharedCircleDetectName]]
      ensures r.Ok? <==> SharedMemoryName in old(shm.segments)
      ensures r.Err? ==> r.error == NotFound
      ensures r.Ok? ==>
        && fresh(r.value) && fresh(r.value.frame) && r.value.Valid() && r.value.enableStream && r.value.shm == shm
        && r.value.dataSender == shm.segments[SharedCircleDetectName]
        && r.value.dataRecv == old(shm.segments)[SharedMemoryName]
    {
      var _ := shm.Remove(SharedCircleDetectName);
      var sender := shm.CreateOnly(SharedCircleDetectName);
      var recv := shm.OpenOnly(SharedMemoryName);
      if recv.Err? {
        return Err(recv.error);
      }
      ChannelNamesDistinct();
      var cd := new CircleDetect(shm, sender.value, recv.value);
      r := Ok(cd);
    }

    /** The destructor: removes the CircleDetectionFrame segment. */
    method Close()
      requires shm.Valid()
      modifies shm
      ensures shm.Valid()
      ensures shm.segments == old(shm.segments) - {SharedCircleDetectName}
    {
      var _ := shm.Remove(SharedCircleDetectName);
    }

    method StopStream() returns (ok: bool)
      modifies this
      ensures ok && !enableStream
    {
      enableStream := false;
      ok := true;
    }

    /** One pass of the detection loop: consume the current original frame as
        consumer 0, draw the detected circles on it (`drawCircle`, the OpenCV
        work) and overwrite the whole sender slot with the result, without
        a lock and without touching the sender's counter or flags. */
    method Step(drawCircle: Frame -> Frame, keyPressed: bool) returns (frameDone: bool, stop: bool)
      requires Valid()
      requires enableStream ==> FrameBus.ConsumeEnabled(dataRecv.View(), CircleDetectId)
      modifies dataRecv, dataRecv.newFrames, frame, dataSender.frameData
      ensures stop <==> !enableStream || keyPressed
      ensures !enableStream ==>
        !frameDone && unchanged(dataRecv, dataRecv.newFrames, frame, dataSender.frameData)
      ensures enableStream ==>
        && dataRecv.View() == FrameBus.Consume(old(dataRecv.View()), CircleDetectId)
        && (frameDone <==> FrameBus.SignalsFrameDone(old(dataRecv.View()), CircleDetectId))
        && (old(dataRecv.Valid()) ==> dataRecv.Valid())
        && frame[..] == drawCircle(old(dataRecv.frameData[..]))
        && dataSender.frameData[..] == drawCircle(old(dataRecv.frameData[..]))
      ensures unchanged(dataSender, dataSender.newFrames)
    {
      if !enableStream {
        return false, true;
      }
      frameDone := dataRecv.Consume(CircleDetectId, frame);
      Memcpy(frame, drawCircle(frame[..]));
      Memcpy(dataSender.frameData, frame[..]);
      stop := keyPressed;
    }
  }
}
