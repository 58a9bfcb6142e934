/**
 * The frame-pacing bookkeeping of the texture sample: one fence value per
 * back buffer, the index of the back buffer being recorded, and the GPU fence
 * they are signalled on.
 */
module FrameSync {
  import opened Common

  /** Every value in `s` is larger than the one before it. */
  ghost predicate StrictlyIncreasing(s: seq<nat>) {
    forall i, j :: 0 <= i < j < |s| ==> s[i] < s[j]
  }

  /** The last element of a non-empty sequence. */
  function Last(s: seq<nat>): nat
    requires |s| > 0
  {
    s[|s| - 1]
  }

  /** Appending a value larger than the last keeps a sequence strictly increasing. */
  lemma IncreasingAppend(s: seq<nat>, v: nat)
    requires |s| > 0 && StrictlyIncreasing(s) && Last(s) < v
    ensures StrictlyIncreasing(s + [v]) && Last(s + [v]) == v
  {
  }

  /**
   * The renderer's fence state. `fenceValues[k]` is the value the next signal
   * for back buffer `k` uses; `completedValue` is the GPU fence's completed
   * value. The ghost `signalled` lists every value the fence was created with
   * or signalled to, in order, and `submitted[k]` is the value signalled after
   * the last frame recorded into back buffer `k` (0 before any).
   */
  class FrameFence {
    const fenceValues: array<nat>
    var frameBufferIndex: nat
    var completedValue: nat
    ghost var signalled: seq<nat>
    ghost var submitted: seq<nat>

    /**
     * The fence is only ever signalled to increasing values, the current back
     * buffer's value is one past the last signal, the other buffers wait on
     * values the fence has already been signalled to, and the GPU has
     * completed no value beyond the last signal.
     */
    ghost predicate Valid()
      reads this, fenceValues
    {
      && fenceValues.Length == FrameBufferCount
      && frameBufferIndex < FrameBufferCount
      && |submitted| == FrameBufferCount
      && |signalled| > 0 && StrictlyIncreasing(signalled)
      && fenceValues[frameBufferIndex] == Last(signalled) + 1
      && (forall k :: 0 <= k < FrameBufferCount && k != frameBufferIndex ==> fenceValues[k] == submitted[k])
      && (forall k :: 0 <= k < FrameBufferCount ==> submitted[k] in signalled && submitted[k] <= Last(signalled))
      && completedValue <= Last(signalled)
    }

    /**
     * Fence creation: every value cleared, the fence created with the current
     * back buffer's value (0), then that value bumped to 1.
     */
    constructor Init(backBufferIndex: nat)
      requires backBufferIndex < FrameBufferCount
      ensures Valid() && fresh(fenceValues)
      ensures frameBufferIndex == backBufferIndex
      ensures forall k :: 0 <= k < FrameBufferCount ==>
        fenceValues[k] == if k == backBufferIndex then 1 else 0
      ensures completedValue == 0 && signalled == [0] && submitted == seq(FrameBufferCount, _ => 0)
      ensures forall k :: 0 <= k < FrameBufferCount ==> fenceValues[k] <= fenceValues[frameBufferIndex]
    {
      fenceValues := new nat[FrameBufferCount](_ => 0);
      frameBufferIndex := backBufferIndex;
      completedValue := 0;
      signalled := [0];
      submitted := seq(FrameBufferCount, _ => 0);
      new;
      fenceValues[frameBufferIndex] := fenceValues[frameBufferIndex] + 1;
    }

    /**
     * Signals the current back buffer's value and blocks until the GPU has
     * reached it, then moves that buffer on to the next value. On return every
     * submitted frame has completed.
     */
    method WaitForGpu()
      requires Valid()
      modifies this, fenceValues
      ensures Valid()
      ensures frameBufferIndex == old(frameBufferIndex)
      ensures signalled == old(signalled) + [old(fenceValues[frameBufferIndex])]
      ensures completedValue == old(fenceValues[frameBufferIndex])
      ensures fenceValues[frameBufferIndex] == old(fenceValues[frameBufferIndex]) + 1
      ensures forall k :: 0 <= k < FrameBufferCount && k != frameBufferIndex ==> fenceValues[k] == old(fenceValues[k])
      ensures submitted == old(submitted)[frameBufferIndex := old(fenceValues[frameBufferIndex])]
      ensures forall k :: 0 <= k < FrameBufferCount ==> submitted[k] <= completedValue
      ensures forall k :: 0 <= k < FrameBufferCount ==> fenceValues[k] <= fenceValues[frameBufferIndex]
    {
      var currentFenceValue := fenceValues[frameBufferIndex];
      IncreasingAppend(signalled, currentFenceValue);
      signalled := signalled + [currentFenceValue];
      submitted := submitted[frameBufferIndex := currentFenceValue];
      // The wait returns once the completed value reaches the last signal.
      completedValue := currentFenceValue;
      fenceValues[frameBufferIndex] := currentFenceValue + 1;
    }

    /**
     * Signals the current back buffer's value, moves to `newIndex` (what the
     * swap chain reports as the current back buffer) and, when the completed
     * value `polled`, read back as a 32-bit UINT, is below that buffer's value,
     * blocks until the GPU reaches it; `reached` is the completed value the
     * wait returns with. On return the frame last recorded into the new back
     * buffer has completed, so its allocator can be reset.
     */
    method WaitForNextFrame(newIndex: nat, polled: nat, reached: nat)
      requires Valid()
      requires newIndex < FrameBufferCount
      requires completedValue <= polled <= fenceValues[frameBufferIndex]
      requires polled % UIntLimit < fenceValues[newIndex] ==>
        fenceValues[newIndex] <= reached && polled <= reached <= fenceValues[frameBufferIndex]
      modifies this, fenceValues
      ensures Valid()
      ensures frameBufferIndex == newIndex
      ensures signalled == old(signalled) + [old(fenceValues[frameBufferIndex])]
      ensures submitted == old(submitted)[old(frameBufferIndex) := old(fenceValues[frameBufferIndex])]
      ensures completedValue == if polled % UIntLimit < old(fenceValues[newIndex]) then reached else polled
      ensures polled < UIntLimit ==>
        completedValue == if polled < old(fenceValues[newIndex]) then reached else polled
      ensures fenceValues[newIndex] == old(fenceValues[frameBufferIndex]) + 1
      ensures forall k :: 0 <= k < FrameBufferCount && k != newIndex ==> fenceValues[k] == old(fenceValues[k])
      ensures old(completedValue) <= completedValue
      ensures old(fenceValues[newIndex]) <= completedValue
      ensures submitted[newIndex] <= completedValue
      ensures forall k :: 0 <= k < FrameBufferCount ==> fenceValues[k] <= fenceValues[frameBufferIndex]
    {
      var currentFenceValue := fenceValues[frameBufferIndex];
      IncreasingAppend(signalled, currentFenceValue);
      signalled := signalled + [currentFenceValue];
      submitted := submitted[frameBufferIndex := currentFenceValue];
      frameBufferIndex := newIndex;
      var completed := polled % UIntLimit;
      completedValue := polled;
      if completed < fenceValues[frameBufferIndex] {
        // The wait returns once the completed value reaches the new buffer's value.
        completedValue := reached;
      } else {
        TruncatedCompareSkipsNoWait(polled, fenceValues[frameBufferIndex]);
      }
      fenceValues[frameBufferIndex] := currentFenceValue + 1;
    }
  }

  /**
   * The completed value is read back as a 32-bit UINT. When that truncated
   * value is not below the target, the full value is not either: truncation can
   * only cause a wait that returns at once, never skip a wait that is needed.
   */
  lemma TruncatedCompareSkipsNoWait(completed: nat, target: nat)
    requires target <= completed % UIntLimit
    ensures target <= completed
  {
  }

  /**
   * From 2^32 on, the truncated comparison can ask for a wait on a value
   * already reached: one past the truncated value is such a target.
   */
  lemma TruncatedCompareSpuriousWait(completed: nat)
    requires UIntLimit <= completed
    ensures var target := completed % UIntLimit + 1;
      completed % UIntLimit < target && target <= completed
  {
  }
}
