/** The fixed layout shared by every channel: frame geometry, the number of
    consumers of the OriginalFrame channel, the three channel names, and the
    abstract value of one BufferMemory segment (its counter, its per-consumer
    pending flags and its frame slot). The mutex and the two condition
    variables carry no data and appear only as the atomicity of each step. */
module SharedMemoryBuffer {

  const FrameWidth: nat := 640
  const FrameHeight: nat := 480
  const NumOfChannels: nat := 3
  /** Number of consumers of a barrier channel, and of pending flags. */
  const NumOfClients: nat := 3
  /** Bytes in the frame slot: one 8-bit value per channel per pixel. */
  const FrameSize: nat := FrameWidth * FrameHeight * NumOfChannels

  const SharedMemoryName: string := "OriginalFrame"
  const SharedOpticalFlowName: string := "OpticalFlowFrame"
  const SharedCircleDetectName: string := "CircleDetectionFrame"

  type Byte = bv8

  /** The bytes of one full frame, as held by the slot or a local image. */
  type Frame = f: seq<Byte> | |f| == FrameSize witness seq(FrameSize, _ => 0 as Byte)

  /** One pending flag per consumer. */
  type Flags = s: seq<bool> | |s| == NumOfClients witness seq(NumOfClients, _ => false)

  /** A consumer index, i.e. a position in the flag array. */
  type ClientId = i: nat | i < NumOfClients

  /** The data part of a BufferMemory segment. */
  datatype BufferState = BufferState(clientsRead: int, newFrames: Flags, frameData: Frame)

  /** The number of consumers whose flag is clear, i.e. that have read the
      frame currently in the slot. */
  function CountCleared(flags: seq<bool>): (n: nat)
    ensures n <= |flags|
    ensures n == |flags| <==> forall i :: 0 <= i < |flags| ==> !flags[i]
    ensures n == 0 <==> forall i :: 0 <= i < |flags| ==> flags[i]
  {
    if flags == [] then 0
    else
      assert forall i :: 1 <= i < |flags| ==> flags[1..][i - 1] == flags[i];
      CountCleared(flags[1..]) + (if flags[0] then 0 else 1)
  }

  /** Setting one flag changes the count by at most one, depending on the old
      and new value of that flag. */
  lemma {:induction false} CountClearedUpdate(flags: seq<bool>, i: nat, b: bool)
    requires i < |flags|
    ensures CountCleared(flags[i := b])
         == CountCleared(flags) - (if flags[i] then 0 else 1) + (if b then 0 else 1)
  {
    if i == 0 {
      assert flags[i := b][1..] == flags[1..];
    } else {
      assert flags[i := b][1..] == flags[1..][i - 1 := b];
      CountClearedUpdate(flags[1..], i - 1, b);
    }
  }

  /** The barrier invariant: the counter equals the number of consumers that
      have read the current frame. */
  predicate BarrierInv(s: BufferState) {
    s.clientsRead == CountCleared(s.newFrames)
  }

  lemma CounterBounded(s: BufferState)
    requires BarrierInv(s)
    ensures 0 <= s.clientsRead <= NumOfClients
  {
  }

  /** Each channel is identified by a name that no other channel uses. */
  lemma ChannelNamesDistinct()
    ensures SharedMemoryName != SharedOpticalFlowName
    ensures SharedMemoryName != SharedCircleDetectName
    ensures SharedOpticalFlowName != SharedCircleDetectName
  {
  }
}
