/** The optical-flow stage: consumer 1 of OriginalFrame, and the only writer
    of the OpticalFlowFrame segment. */
module OpticalFlowStage {
  import opened SharedMemoryBuffer
  import opened SharedRegion
  import FrameBus

  const OpticalFlowId: ClientId := 1

  class OpticalFlow {
    const shm: SharedMemoryNamespace
    const dataSender: BufferMemory
    const dataRecv: BufferMemory
    /** The local image the received frame is copied into. */
    const frame: array<Byte>
    var enableStream: bool
    /** The loop's state: whether no frame has been seen yet, and the
        grayscale images of the previous and the current frame. */
    var firstFrame: bool
    var prevGray: seq<Byte>
    var gray: seq<Byte>

    ghost predicate Valid() {
      && dataSender.WellFormed() && dataRecv.WellFormed()
      && Separate(dataSender, dataRecv)
      && frame.Length == FrameSize
      && frame != dataSender.frameData && frame != dataRecv.frameData
    }

    constructor (shm: SharedMemoryNamespace, dataSender: BufferMemory, dataRecv: BufferMemory)
      requires dataSender.WellFormed() && dataRecv.WellFormed() && Separate(dataSender, dataRecv)
      ensures Valid() && fresh(frame) && enableStream && firstFrame
      ensures this.shm == shm && this.dataSender == dataSender && this.dataRecv == dataRecv
    {
      this.shm := shm;
      this.dataSender := dataSender;
      this.dataRecv := dataRecv;
      frame := new Byte[FrameSize](_ => 0);
      enableStream := true;
      firstFrame := true;
      prevGray := [];
      gray := [];
    }

    /** Removes any stale OpticalFlowFrame segment and creates its own, then
        opens OriginalFrame, failing if the producer has not created it. */
    static method Create(shm: SharedMemoryNamespace) returns (r: Result<OpticalFlow>)
      requires shm.Valid()
      modifies shm
      ensures shm.Valid()
      ensures SharedOpticalFlowName in shm.segments && fresh(shm.segments[SharedOpticalFlowName])
      ensures fresh(shm.segments[SharedOpticalFlowName].newFrames)
      ensures fresh(shm.segments[SharedOpticalFlowName].frameData)
      ensures !shm.segments[SharedOpticalFlowName].Valid()
      ensures shm.segments == old(shm.segments)[SharedOpticalFlowName := shm.segments[SharedOpticalFlowName]]
      ensures r.Ok? <==> SharedMemoryName in old(shm.segments)
      ensures r.Err? ==> r.error == NotFound
      ensures r.Ok? ==>
        && fresh(r.value) && fresh(r.value.frame) && r.value.Valid() && r.value.enableStream && r.value.firstFrame
        && r.value.shm == shm
        && r.value.dataSender == shm.segments[SharedOpticalFlowName]
        && r.value.dataRecv == old(shm.segments)[SharedMemoryName]
    {
      var _ := shm.Remove(SharedOpticalFlowName);
      var sender := shm.CreateOnly(SharedOpticalFlowName);
      var recv := shm.OpenOnly(SharedMemoryName);
      if recv.Err? {
        return Err(recv.error);
      }
      ChannelNamesDistinct();
      var of := new OpticalFlow(shm, sender.value, recv.value);
      r := Ok(of);
    }

    /** The destructor: removes the OpticalFlowFrame segment. */
    method Close()
      requires shm.Valid()
      modifies shm
      ensures shm.Valid()
      ensures shm.segments == old(shm.segments) - {SharedOpticalFlowName}
    {
      var _ := shm.Remove(SharedOpticalFlowName);
    }

    method StopStream() returns (ok: bool)
      modifies this
      ensures ok && !enableStream
      ensures firstFrame == old(firstFrame) && prevGray == old(prevGray) && gray == old(gray)
    {
      enableStream := false;
      ok := true;
    }

    /** One pass of the flow loop: consume the current original frame as
        consumer 1 and convert it to grayscale (`toGray`). The first frame is
        only remembered; every later one yields a flow image from the
        previous and the current grayscale image (`drawFlow`, the OpenCV
        work), which overwrites the whole sender slot without a lock, and the
        two grayscale images are swapped. */
    method Step(toGray: Frame -> seq<Byte>, drawFlow: (seq<Byte>, seq<Byte>) -> Frame, keyPressed: bool)
      returns (frameDone: bool, stop: bool)
      requires Valid()
      requires enableStream ==> FrameBus.ConsumeEnabled(dataRecv.View(), OpticalFlowId)
      modifies this, dataRecv, dataRecv.newFrames, frame, dataSender.frameData
      ensures stop <==> !enableStream || keyPressed
      ensures enableStream == old(enableStream)
      ensures !enableStream ==>
        && !frameDone && unchanged(dataRecv, dataRecv.newFrames, frame, dataSender.frameData)
        && firstFrame == old(firstFrame) && prevGray == old(prevGray) && gray == old(gray)
      ensures enableStream ==>
        && dataRecv.View() == FrameBus.Consume(old(dataRecv.View()), OpticalFlowId)
        && (frameDone <==> FrameBus.SignalsFrameDone(old(dataRecv.View()), OpticalFlowId))
        && (old(dataRecv.Valid()) ==> dataRecv.Valid())
        && frame[..] == old(dataRecv.frameData[..])
        && !firstFrame
        && prevGray == toGray(old(dataRecv.frameData[..]))
      ensures enableStream && old(firstFrame) ==>
        unchanged(dataSender.frameData) && gray == old(gray)
      ensures enableStream && !old(firstFrame) ==>
        && dataSender.frameData[..] == drawFlow(old(prevGray), toGray(old(dataRecv.frameData[..])))
        && gray == old(prevGray)
      ensures unchanged(dataSender, dataSender.newFrames)
    {
      if !enableStream {
        return false, true;
      }
      frameDone := dataRecv.Consume(OpticalFlowId, frame);
      if firstFrame {
        prevGray := toGray(frame[..]);
        firstFrame := false;
      } else {
        gray := toGray(frame[..]);
        var flowImage := drawFlow(prevGray, gray);
        Memcpy(dataSender.frameData, flowImage);
        prevGray, gray := gray, prevGray;
      }
      stop := keyPressed;
    }
  }
}
