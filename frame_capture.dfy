/** The source stage: creates the OriginalFrame channel, initialises its
    barrier and publishes each captured frame into it. */
module FrameCaptureStage {
  import opened SharedMemoryBuffer
  import opened SharedRegion
  import FrameBus

  class FrameCapture {
    const shm: SharedMemoryNamespace
    const data: BufferMemory
    var enableStream: bool

    ghost predicate Valid()
      reads this
    {
      data.WellFormed()
    }

    constructor (shm: SharedMemoryNamespace, data: BufferMemory)
      requires data.WellFormed()
      ensures Valid() && this.shm == shm && this.data == data && enableStream
    {
      this.shm := shm;
      this.data := data;
      enableStream := true;
    }

    /** Removes any stale OriginalFrame segment, creates a fresh one and
        initialises its barrier; then fails if the camera does not open. The
        segment stays behind in that case, since no destructor runs. */
    static method Create(shm: SharedMemoryNamespace, cameraOpens: bool) returns (r: Result<FrameCapture>)
      requires shm.Valid()
      modifies shm
      ensures shm.Valid()
      ensures SharedMemoryName in shm.segments
      ensures shm.segments == old(shm.segments)[SharedMemoryName := shm.segments[SharedMemoryName]]
      ensures var b := shm.segments[SharedMemoryName];
        && fresh(b) && fresh(b.newFrames) && fresh(b.frameData) && b.Valid()
        && FrameBus.Drained(b.View()) && FrameBus.PublishEnabled(b.View())
      ensures r.Ok? <==> cameraOpens
      ensures r.Err? ==> r.error == CameraOpenFailed
      ensures r.Ok? ==>
        && fresh(r.value) && r.value.Valid() && r.value.enableStream
        && r.value.shm == shm && r.value.data == shm.segments[SharedMemoryName]
    {
      var _ := shm.Remove(SharedMemoryName);
      var seg := shm.CreateOnly(SharedMemoryName);
      var b := seg.value;
      b.Init();
      if !cameraOpens {
        return Err(CameraOpenFailed);
      }
      var fc := new FrameCapture(shm, b);
      r := Ok(fc);
    }

    /** The destructor: removes the OriginalFrame segment. */
    method Close()
      requires shm.Valid()
      modifies shm
      ensures shm.Valid()
      ensures shm.segments == old(shm.segments) - {SharedMemoryName}
    {
      var _ := shm.Remove(SharedMemoryName);
    }

    method StopStream() returns (ok: bool)
      modifies this
      ensures ok && !enableStream
    {
      enableStream := false;
      ok := true;
    }

    /** One pass of the capture loop. `captured` is what the camera delivered,
        `resize` scales it to the frame geometry and `keyPressed` is the
        outcome of waitKey. An empty capture ends the loop before the buffer
        is touched; otherwise the frame is published once the barrier lets
        the producer through. */
    method Step(captured: seq<Byte>, resize: seq<Byte> -> Frame, keyPressed: bool) returns (stop: bool)
      requires Valid()
      requires enableStream && |captured| > 0 ==> FrameBus.PublishEnabled(data.View())
      modifies data, data.newFrames, data.frameData
      ensures stop <==> !enableStream || |captured| == 0 || keyPressed
      ensures !enableStream || |captured| == 0 ==>
        unchanged(data, data.newFrames, data.frameData)
      ensures enableStream && |captured| > 0 ==>
        && data.View() == FrameBus.Publish(old(data.View()), resize(captured))
        && data.Valid()
    {
      if !enableStream || |captured| == 0 {
        return true;
      }
      data.Publish(resize(captured));
      stop := keyPressed;
    }
  }
}
