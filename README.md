# NV12 sample-image generator (SimpleTextureRender)

This project models the one piece of computation in the Direct3D11 NV12 demo:
`Texture::CreateYUV420SampleImage`, which builds the synthetic YUV 4:2:0 test
image the demo uploads as an immutable NV12 texture. It also models the
fixed 1200x1000 call that `Texture::CreateTexture` makes.

The generator allocates a zero-filled buffer of `width*height*3/2` bytes and
fills it in place:

- The luma (Y) plane comes first: `width*height` bytes with row pitch `width`.
  Every byte of row `j` holds `(j*255)/height`, so the image is a vertical
  gradient.
- The chroma plane follows at offset `width*height`. For each of the
  `height/2` chroma rows and `width/2` chroma columns, a moving pointer writes
  two bytes: U = `j*255/(height/2)`, then V = `i*255/(width/2)`.

Files:

- `nv12.dfy` (module `Nv12`): the byte type, the `unsigned char` cast, and the
  sizes and offsets of the layout.
  - `SampleImage` is the reference definition of the image. For every byte
    offset it decodes the plane, row and column and gives the value that
    byte must hold.
  - The lemmas state the image's properties in pixel coordinates: where each
    sample lies, what value it holds, the gradients, bounds, zero padding and
    coverage.
- `texture.dfy` (module `Texture`): the generator as an imperative method.
  - It fills an `array` with nested `while` loops and is proved to return
    exactly `SampleImage(width, height)`.
  - The luma loop nest, the chroma loop nest and one chroma row are separate
    methods, so each loop's proof stays small. Together they run the
    statements of the C++ function in the same order.
  - The C++ `UV` pointer is an index into the buffer that advances by one per
    write.
  - `CreateTexture` models the 1200x1000 texture's initial data.
- `arith.dfy` (module `Arith`): facts about division and multiplication that
  the layout proofs use.

The generator divides by `height`, `height/2` and `width/2` only inside
loops whose guard keeps the index below that divisor, so the divisor is
positive. Dafny checks every division in the generator for a zero divisor.
The reference definition computes the same values through `Gradient`, whose
precondition (position below run length) states the same guard.

Another variant of the demo offsets the chroma values by a rotating slice
index, which can wrap modulo 256. That variant is not in `main.cpp`. Here
there is no rotation, every luma and chroma value is at most 254, and the
cast never truncates.

## Model

| member | source | states |
|---|---|---|
| `Texture.CreateYUV420SampleImage` | main.cpp:216-240 | the returned buffer has `width*height*3/2` bytes and equals the reference image `SampleImage(width, height)` byte for byte |
| `Texture.FillLumaPlane` | main.cpp:221-224 | after the luma loops, every byte below `width*height` holds the reference image's value, and every later byte is unchanged |
| `Texture.FillChromaPlane` | main.cpp:227-238 | the chroma loops start at `nLuma` and write the reference image's bytes up to `WrittenEnd`; the luma plane and the trailing bytes are unchanged |
| `Texture.FillImageChromaRow` | main.cpp:233-237 | one pass of the inner chroma loop writes exactly chroma row `j` of the reference image, `ChromaPitch(width)` bytes long, and changes nothing else |
| `Texture.FillChromaRow` | main.cpp:234-237 | the write pointer advances by exactly `2*(width/2)` bytes per row, placing U at even and V at odd positions of the row and leaving every other byte unchanged |
| `Texture.CreateTexture` | main.cpp:242-258 | the demo texture is 1200x1000; its initial data is the sample image of 1,800,000 bytes, every byte written, with row pitch 1200, which also equals the chroma row pitch |
| `Nv12.UCharCast` | main.cpp:224 | `static_cast<unsigned char>` keeps any value below 256 unchanged |
| `Nv12.Gradient` | main.cpp:224-236 | position `x < n` of a run of `n` samples gets `x*255/n`: 0 at position 0, never above 254, so the `unsigned char` cast loses nothing; luma uses it with `n = height`, U with `height/2`, V with `width/2` |
| `Nv12.GradientMonotone` | main.cpp:224-236 | the gradient never decreases along its run |
| `Nv12.SampleImage` | main.cpp:219 | the reference image has exactly the length of the allocated buffer, `width*height*3/2` |
| `Nv12.SampleImageAt` | main.cpp:219-238 | byte `k` of the reference image is the value its offset decodes to: luma of row `k / width` in the luma plane, then U or V of the chroma sample the offset encodes up to `WrittenEnd`, then 0 |
| `Nv12.WritesInBounds` | main.cpp:219-238 | `width*height <= width*height + 2*(width/2)*(height/2) <= width*height*3/2`, so no luma or chroma write leaves the buffer |
| `Nv12.LumaAt` | main.cpp:222-224 | for `i < width`, `j < height`, offset `i + j*width` lies in the luma plane and holds `(j*255)/height` |
| `Nv12.ChromaAt` | main.cpp:228-237 | for `i < width/2`, `j < height/2`, offset `width*height + 2*(j*(width/2) + i)` holds U of row `j` and the next byte holds V of column `i`, both below `WrittenEnd` |
| `Nv12.ChromaInBounds` | main.cpp:228-237 | for `i < width/2`, `j < height/2`, both bytes of chroma sample `(i, j)` lie after the luma plane and before `WrittenEnd`, so the pointer never writes into the luma plane or past the buffer |
| `Nv12.ChromaRowInBounds` | main.cpp:233-238 | chroma row `j` ends where row `j+1` begins, so rows are packed at pitch `2*(width/2)`, not `rowPitch`, and stay inside the written region |
| `Nv12.ChromaPlaneEnd` | main.cpp:233-238 | after the last chroma row the `UV` pointer stands exactly at `WrittenEnd` |
| `Nv12.ChromaRowAt` | main.cpp:233-237 | byte `m` of chroma row `j` is U when `m` is even and the V of column `m/2` when `m` is odd |
| `Nv12.ChromaRowMatches` | main.cpp:233-237 | any buffer that holds the interleaved U/V bytes of row `j` at the row's offset agrees with the reference image on that row |
| `Nv12.TrailingBytesZero` | main.cpp:219-238 | bytes from `WrittenEnd` to the end of the buffer are never written and stay 0 |
| `Nv12.EvenDimensionsFullyWritten` | main.cpp:219-238 | with even width and height the luma and chroma writes end exactly at the buffer's end |
| `Nv12.OddWidthLeavesTrailingBytes` | main.cpp:219-238 | with an odd width and at least two rows, some bytes at the end of the buffer are left unwritten |
| `Nv12.OddHeightLeavesTrailingBytes` | main.cpp:219-238 | with an odd height and at least two columns, some bytes at the end of the buffer are left unwritten |
| `Nv12.TrailingBytesExactlyWhenOdd` | main.cpp:219-238 | the writes never pass the buffer's end, and they stop short of it if and only if a dimension is odd and the image has at least two pixels |
| `Nv12.ChromaPitchMatchesRowPitch` | main.cpp:218-236 | the chroma row pitch `2*(width/2)` equals the luma row pitch `width` if and only if the width is even |
| `Nv12.LumaOffsetOnto` | main.cpp:222-224 | every luma-plane offset `k` is the sample at column `k % width`, row `k / width` of the luma loops |
| `Nv12.ChromaOffsetOnto` | main.cpp:228-238 | every offset from `width*height` up to `WrittenEnd` is the U or V byte of some chroma sample `(i, j)` |
| `Nv12.EveryByteIsASample` | main.cpp:219-238 | with even dimensions, every byte of the buffer is written by the luma loops or the chroma loops |
| `Nv12.LumaRowsConstant` | main.cpp:222-224 | all bytes of a luma row are equal |
| `Nv12.LumaGradient` | main.cpp:222-224 | row 0 of the luma plane is 0, and luma values never decrease from top to bottom and never exceed 254 |
| `Nv12.ChromaUGradient` | main.cpp:233-235 | U is 0 in chroma row 0, never decreases down the chroma rows and never exceeds 254 |
| `Nv12.ChromaVGradient` | main.cpp:234-236 | V is 0 in chroma column 0, never decreases across the chroma columns and never exceeds 254 |
| `Nv12.ChromaSeparable` | main.cpp:233-236 | U depends only on the chroma row and V only on the chroma column |

## Left out

- Device, shader, sampler, shader-resource-view, quad and swap-chain setup are thin wrappers over Direct3D11/DXGI calls. The HLSL YUV-to-RGB conversion is floating-point code that runs on the GPU. None of them is modelled.
- `Texture.CreateTexture` does not model the `CreateTexture2D` call or the texture description fields other than width, height and row pitch (array size, format, bind flags, usage). These fields only configure a foreign device call.
- `Check`, `Present` status handling, the Win32 window class, the message loop and `main` are not modelled. They are OS and error-reporting plumbing.
- The multi-slice producer thread and its unsynchronised hand-off to the render thread are not in `main.cpp`. Neither are its time- and slice-dependent chroma offsets, which could wrap modulo 256. None of them is modelled.
- `Texture.CreateYUV420SampleImage`: `width` and `height` are natural numbers. The C++ `int` parameters are converted to `size_t`, so a negative argument would become a huge unsigned value. The model does not cover that case. The demo only passes 1200 and 1000.
- `Texture.CreateYUV420SampleImage`: integers are unbounded, so the model assumes a 64-bit `size_t`. There, no product in the function can wrap for non-negative `int` arguments, because `3*(2^31-1)^2 < 2^64`.
- `Texture.CreateYUV420SampleImage`: a 32-bit `size_t` is not modelled. There, `rowPitch * height * 3` wraps for large images, so the buffer comes out smaller than the luma plane and the luma writes run past its end. For example, 40000x40000 allocates 252,516,352 bytes, but luma offsets reach 1,599,999,999.
- `Texture.FillChromaRow`: the raw pointer `UV` becomes an index into the same buffer. Pointer aliasing and provenance are not modelled.
