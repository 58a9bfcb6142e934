# Texture sample model

This project models the CPU-side logic of the Direct3D 12 texture sample (`0003-Texture`) and proves what it promises. It has four parts:

- **Checkerboard** (`checkerboard.dfy`) covers `makeTextureData`. It sizes an RGBA8 image at `width * 4 * height` bytes and paints every pixel opaque black or opaque white, cell by cell. The cell width in bytes is `rowPitch >> 3`. The cell height in rows is `textureWidth >> 3`: the width, not the height, as the source has it, so the model keeps that.
- **UploadCopy** (`upload_copy.dfy`) covers the loop that copies the packed image into the mapped upload buffer. Each `memcpy` copies one row of `rowSizeInBytes` bytes. The destination advances by the footprint's `RowPitch`, the source by the row size. `ReadRows` models what `CopyTextureRegion` reads back out of the placed footprint. Together they show the texture receives exactly the packed image.
- **FrameSync** (`frame_sync.dfy`) covers the frame-pacing fence state as a class. It holds:
  - the per-back-buffer fence values (`mFenceValues`);
  - the current back-buffer index;
  - the fence's completed value;
  - as ghost state, the history of signalled values.

  It models fence creation, `waitForGPU` and `waitForNextFrame`. The invariant `Valid()` says the fence is only signalled to strictly increasing values, and that the current buffer's value is one past the last signal. It also says every other buffer waits on a value the fence has already been signalled to. Both waits therefore always target a reachable value.
- **RenderTargets** (`render_targets.dfy`) covers the RTV descriptor handles. The creation loop advances a handle by the descriptor stride once per back buffer. Each frame recomputes the handle as `start + index * stride`, a UINT product. The model proves both name the same descriptor, and that the two descriptors are distinct and lie inside the heap.

`common.dfy` holds the byte type, the 32-bit bound, `frameBufferCount` and three small arithmetic facts (`DivModOf`, `MulAtLeast`, `MulLeft`).

The GPU is not executed. Its progress comes in as parameters of `WaitForNextFrame`:
- `polled` is what `GetCompletedValue` returns.
- `reached` is the completed value a blocking wait returns with.

The preconditions on these parameters are what the fence API guarantees:
- The completed value never decreases.
- It never passes the last signal.
- A wait returns once the target is reached.

`WaitForGpu` needs no such parameter. It waits on the value it has just signalled, and the completed value never passes the last signal, so afterwards the completed value is exactly that value. The new back-buffer index is a parameter too, standing for `GetCurrentBackBufferIndex`.

## Model

| member | source | states |
|---|---|---|
| Checkerboard.LayoutFacts | dx12-samples/0003-Texture/0003-Texture.cpp:452-455 | for width ≥ 8 with no 32-bit overflow, the row pitch, cell pitch and cell height are non-zero; the texture size is `4 * width * height`, a multiple of 4 |
| Checkerboard.MakeTextureData | dx12-samples/0003-Texture/0003-Texture.cpp:450-482 | the image has exactly `width * 4 * height` bytes (every 4-byte write of the loop is in bounds); byte `k` is the byte of the checkerboard at offset `k`, using the cell height `width >> 3` |
| Checkerboard.GeneratedPixels | dx12-samples/0003-Texture/0003-Texture.cpp:459-481 | every pixel of the generated image is opaque (A = 0xff) and grey-free (R = G = B, each 0x00 or 0xff); it is black exactly when `((n % rowPitch) / cellPitch) % 2 == ((n / rowPitch) / cellHeight) % 2` |
| Checkerboard.TexelPixel | dx12-samples/0003-Texture/0003-Texture.cpp:466-480 | the four bytes of a pixel: R, G and B equal, 0x00 when the cell test says black and 0xff otherwise, alpha 0xff |
| Checkerboard.PixelColour | dx12-samples/0003-Texture/0003-Texture.cpp:459-466 | pixel (px, py) of the image starts at byte `4 * (py * width + px)`, lies inside the image, and is black exactly when `(4 * px / cellPitch) % 2 == (py / cellHeight) % 2` |
| Checkerboard.NextCellAcrossFlips | dx12-samples/0003-Texture/0003-Texture.cpp:461-466 | moving one cell pitch to the right within a row swaps black and white |
| Checkerboard.NextCellDownFlips | dx12-samples/0003-Texture/0003-Texture.cpp:454-466 | moving `cellHeight` rows down swaps black and white |
| UploadCopy.RowStartIsProduct | dx12-samples/0003-Texture/0003-Texture.cpp:690-691 | a pointer advanced by `pitch` bytes `r` times has moved `r * pitch` bytes |
| UploadCopy.CopyRows | dx12-samples/0003-Texture/0003-Texture.cpp:687-692 | byte `k` of row `r` of the upload buffer, at `r * RowPitch + k`, holds byte `r * rowSize + k` of the image for every `r < numRows`, `k < rowSize`; every other byte (each row's padding, and what follows the footprint) is unchanged |
| UploadCopy.MemCopy | dx12-samples/0003-Texture/0003-Texture.cpp:689 | `memcpy`: the `count` bytes from `at` on are the source bytes from `from` on, and nothing else changes |
| UploadCopy.ReadRows | dx12-samples/0003-Texture/0003-Texture.cpp:696-706 | what the copy out of the placed footprint reads: the first `rowSize` bytes of each of `numRows` rows `rowPitch` apart, concatenated; its length is `numRows * rowSize` |
| UploadCopy.ReadAfterCopy | dx12-samples/0003-Texture/0003-Texture.cpp:696-706 | reading the rows of a footprint that holds the copied rows gives back the packed image, byte for byte |
| UploadCopy.CopyThenRead | dx12-samples/0003-Texture/0003-Texture.cpp:687-706 | copying the image row by row into the upload buffer and reading the footprint back returns exactly the first `numRows * rowSize` bytes of the image |
| FrameSync.FrameFence.Init | dx12-samples/0003-Texture/0003-Texture.cpp:206-208 | after fence creation the fence values are 0 except the current buffer's, which is 1; the completed value is 0; the fence's only value so far is 0; the invariant holds |
| FrameSync.FrameFence.WaitForGpu | dx12-samples/0003-Texture/0003-Texture.cpp:546-555 | signals the current buffer's value, which is larger than every earlier signal; returns with that value completed, so every submitted frame has finished; the current buffer's value is one larger, and nothing else changes; the invariant is kept |
| FrameSync.FrameFence.WaitForNextFrame | dx12-samples/0003-Texture/0003-Texture.cpp:557-572 | signals the current buffer's value and switches to the new back buffer; waits exactly when the 32-bit completed value is below the new buffer's value, which for a completed value below 2^32 is exactly when the full value is below it; on return the new buffer's old value, and so the frame last recorded into it, has completed; the new buffer's value is the signalled value plus one; the other value is unchanged; the invariant is kept |
| FrameSync.IncreasingAppend | dx12-samples/0003-Texture/0003-Texture.cpp:549 | signalling a value past the last keeps the fence's signal history strictly increasing |
| FrameSync.TruncatedCompareSkipsNoWait | dx12-samples/0003-Texture/0003-Texture.cpp:564-565 | when the completed value read as a 32-bit UINT is not below the target, the full value is not either: no needed wait is skipped |
| FrameSync.TruncatedCompareSpuriousWait | dx12-samples/0003-Texture/0003-Texture.cpp:564-565 | for every completed value from 2^32 on, some target already reached (one past the truncated value) still passes the truncated "below target" test, so a wait can be spurious |
| RenderTargets.CreateRenderTargetViews | dx12-samples/0003-Texture/0003-Texture.cpp:166-174 | view `i` is created at `heapStart + i * stride`; for a 32-bit stride that is the handle a frame computes for back buffer `i` |
| RenderTargets.FrameRtvHandle | dx12-samples/0003-Texture/0003-Texture.cpp:524-525 | the per-frame handle: heap start plus the UINT product `index * stride`, which wraps at 2^32, so the handle lies below `heapStart + 2^32` |
| RenderTargets.FrameHandleUnwrapped | dx12-samples/0003-Texture/0003-Texture.cpp:524-525 | for a back-buffer index the UINT product `index * stride` does not wrap |
| RenderTargets.FrameRtvHandlesDistinct | dx12-samples/0003-Texture/0003-Texture.cpp:161-174 | with a non-zero stride the back buffers' handles are distinct, and each names a whole descriptor inside the heap of `frameBufferCount` descriptors |

## Left out

- Window creation, the message loop, COM object creation (device, queue, swap chain, heaps, resources, pipeline state, root signature), shader compilation and file I/O, command-list recording and `HRException`. These are calls into the Windows and Direct3D runtimes; only their results enter the model, as parameters.
- Floating-point data (vertex positions, viewport, clear colour) is not modelled.
- The blocking waits (`SetEventOnCompletion` with `WaitForSingleObject`) are not executed. `WaitForNextFrame` takes the value the wait returns with as a parameter, and its precondition is what the fence API guarantees.
- The GPU's concurrent progress and the event object are not modelled.
- The callers (`init`, `quit`, `tick`) are not modelled as such. Each just calls one of the two waits after work that is not modelled.
- The 64-bit fence values are unbounded naturals. Overflow of a UINT64 fence value is not modelled.
- Pointer-sized handle arithmetic (`SIZE_T`) is unbounded too. Only the 32-bit product `index * stride` is modelled with its wrap-around.
- Checkerboard.MakeTextureData requires `width >= 8` and `width * 4 * height < 2^32`. Below width 8 a non-empty image makes the source divide by a cell height `width >> 3` of 0. An empty image (width or height 0) would make the source return without dividing; widths below 8 are excluded for those too. Above the bound the source's UINT size arithmetic wraps. None of this happens for the sample's 256 × 256 texture, and the model does not describe any of these cases.
- UploadCopy.CopyRows takes the footprint sizes (`numRows`, `rowSizeInBytes`, `RowPitch`) as parameters, because `GetCopyableFootprints` is a runtime call. It requires that the row size fits in the pitch and that the buffer holds the footprint, which that call guarantees. It also requires that the image holds the rows. That holds because the image comes from `makeTextureData` called with the same 256 × 256 RGBA8 dimensions as the texture description.
- UploadCopy.CopyRows models the image as an immutable sequence, so the source never aliases the upload buffer.
- UploadCopy.MemCopy writes its bytes in one simultaneous update rather than byte by byte.
- The sample's second program (`0002-Triangle`) is not part of this model.
