/**
 * Render-target-view descriptor handles: the views are created one after the
 * other in the RTV heap, and each frame finds the current back buffer's view
 * again from the heap start and the back-buffer index.
 */
module RenderTargets {
  import opened Common

  /**
   * The handle a frame records into: the heap start advanced by
   * `index * stride` bytes, where the product of the two UINTs is itself a
   * UINT and so wraps at 2^32.
   */
  function FrameRtvHandle(heapStart: nat, index: nat, stride: nat): (handle: nat)
    ensures heapStart <= handle < heapStart + UIntLimit
  {
    heapStart + (index * stride) % UIntLimit
  }

  /**
   * Creation of one view per back buffer: the handle starts at the heap start
   * and is advanced by the descriptor stride after each view. Returns the
   * handle each view was created at.
   */
  method CreateRenderTargetViews(heapStart: nat, stride: nat) returns (views: seq<nat>)
    ensures |views| == FrameBufferCount
    ensures forall i :: 0 <= i < |views| ==> views[i] == heapStart + i * stride
    ensures stride < UIntLimit ==>
      forall i :: 0 <= i < |views| ==> views[i] == FrameRtvHandle(heapStart, i, stride)
  {
    var rtvHandle := heapStart;
    views := [];
    var i := 0;
    while i < FrameBufferCount
      invariant i <= FrameBufferCount && |views| == i
      invariant rtvHandle == heapStart + i * stride
      invariant forall j :: 0 <= j < i ==> views[j] == heapStart + j * stride
    {
      views := views + [rtvHandle];
      rtvHandle := rtvHandle + stride;
      i := i + 1;
    }
    if stride < UIntLimit {
      forall j | 0 <= j < |views|
        ensures views[j] == FrameRtvHandle(heapStart, j, stride)
      {
        FrameHandleUnwrapped(heapStart, j, stride);
      }
    }
  }

  /** For a back-buffer index the UINT product does not wrap. */
  lemma FrameHandleUnwrapped(heapStart: nat, index: nat, stride: nat)
    requires index < FrameBufferCount && stride < UIntLimit
    ensures FrameRtvHandle(heapStart, index, stride) == heapStart + index * stride
  {
  }

  /**
   * With a non-zero stride the back buffers' handles are distinct, and each
   * names a whole descriptor inside the heap of `FrameBufferCount` descriptors.
   */
  lemma FrameRtvHandlesDistinct(heapStart: nat, stride: nat, a: nat, b: nat)
    requires 0 < stride < UIntLimit && a < FrameBufferCount && b < FrameBufferCount
    ensures FrameRtvHandle(heapStart, a, stride) == FrameRtvHandle(heapStart, b, stride) <==> a == b
    ensures heapStart <= FrameRtvHandle(heapStart, a, stride)
    ensures FrameRtvHandle(heapStart, a, stride) + stride <= heapStart + FrameBufferCount * stride
  {
  }
}
