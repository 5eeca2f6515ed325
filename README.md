# Base rendering backend: state bookkeeping and byte-buffer helpers

This project models the core of the r3d base backend (`base_backend_t`), the
record every concrete 3D rendering backend embeds, and proves properties of
the model in Dafny.

- **State bookkeeping** (module `BaseBackend`, `backend_state.dfy`). The record
  holds three 4x4 transforms (projection, view, world), a background colour
  and a signed viewport rectangle. Its operations copy values in and out and
  report a status code: `Ok`, `BadArguments` or `InvalidValue`. `Backend` is a
  class with the record's fields; its matrices are 16-float arrays updated in
  place. Caller pointers are nullable references: `array?<Float>` for a
  `mat4_t *`, and `Cell?<T>` (a one-value heap cell) for a `color_t *` or an
  `ssize_t *`. `Model()` gives the abstract `State`, and each method ties
  the new `Model()` to the old one.
  - The matrix kind is a plain `int`, so the `default:` branch of both
    switches is reachable.
  - Two starting states are kept apart: the constructor zeroes only the
    viewport, to (0,0,0,0), while `init` sets (0,0,1,1), opaque black and three
    identities.
- **Byte-buffer helpers** (module `ByteBuffer`, `byte_buffer.dfy`). `memswap`
  exchanges two disjoint byte ranges of one `array<bv8>` using the source's
  16-, 4- and 1-byte strides. `swap_rows` flips an image vertically with two
  offsets converging from the first and the last row. Both are proved against
  specification functions:
  - `SwapRanges` is the exchange, with lemmas proving it is involutive,
    symmetric and a permutation, and that its strides compose.
  - `RowsFlipped`: the rows, viewed as a sequence, are reversed and the bytes
    after the image are kept.
  - The remaining lemmas of `byte_buffer.dfy` (row offsets by repeated
    addition, one loop step of each algorithm, the partial flip `FlipOuter`)
    are proof steps for these two methods and model no source function of
    their own.

## Model

| member | source | states |
|---|---|---|
| `BaseBackend.Backend.constructor` | src/main/base_backend.cpp:29-34 | a new backend has distinct 16-float matrix buffers and viewport (0,0,0,0); matrices and colour are not set |
| `BaseBackend.Identity` | src/main/base_backend.cpp:53-60 | the identity has 16 entries: 1 at indices 0, 5, 10 and 15, 0 at the other twelve |
| `BaseBackend.Backend.InitMatrixIdentity` | src/main/base_backend.cpp:53-60 | whatever the buffer held, afterwards it holds exactly the identity |
| `BaseBackend.Backend.Init` | src/main/base_backend.cpp:62-80 | always `Ok`; afterwards viewport (0,0,1,1), background (0,0,0,1), all three transforms the identity |
| `BaseBackend.InitialTransforms` | src/main/base_backend.cpp:75-77 | in the state init establishes, every matrix kind reads back the identity |
| `BaseBackend.Backend.CopyMatrix` | src/main/base_backend.cpp:96-98 | the `mat4_t` struct copy: the destination holds the source's old contents, even when both are the same buffer |
| `BaseBackend.Backend.SetMatrix` | src/main/base_backend.cpp:88-102 | null pointer gives `BadArguments` before the kind is looked at; unknown kind gives `InvalidValue`; either error leaves the state unchanged; a known kind gives `Ok` and replaces exactly that slot |
| `BaseBackend.Backend.GetMatrix` | src/main/base_backend.cpp:104-118 | null gives `BadArguments`; unknown kind gives `InvalidValue` with the output untouched; a known kind gives `Ok` and the output holds that slot; the state is unchanged unless the output is one of the backend's own buffers |
| `BaseBackend.TransformAfterWithTransform` | src/main/base_backend.cpp:88-118 | a matrix stored under a kind reads back under that kind; the other two slots, the colour and the viewport are unchanged |
| `BaseBackend.WithTransformIdempotent` | src/main/base_backend.cpp:94-100 | storing the matrix a slot already holds is a no-op; a second store under a kind overrides the first |
| `BaseBackend.MatrixRoundTrip` | src/main/base_backend.cpp:88-118 | set_matrix then get_matrix of a known kind both give `Ok` and read back the stored matrix; an unknown kind gives `InvalidValue` twice and writes nothing |
| `BaseBackend.Backend.GetLocation` | src/main/base_backend.cpp:120-133 | for output slots that are not the backend's own viewport fields: always `Ok`, state unchanged; each non-null slot receives its stored value in the order left, top, width, height (the last write wins when slots alias); null slots are not written |
| `BaseBackend.Backend.SetBgColor` | src/main/base_backend.cpp:210-218 | null gives `BadArguments` with the state unchanged; otherwise `Ok` and only the background changes, to the given colour |
| `BaseBackend.Backend.GetBgColor` | src/main/base_backend.cpp:220-228 | null gives `BadArguments`; otherwise `Ok` and the output holds the background; the state never changes |
| `BaseBackend.ColorRoundTrip` | src/main/base_backend.cpp:210-228 | set_bg_color then get_bg_color reads back the colour stored; nothing else changes |
| `BaseBackend.Backend.Locate` | src/main/base_backend.cpp:230-240 | always `Ok`; the four values are stored verbatim with no range check, and nothing else changes |
| `BaseBackend.LocationRoundTrip` | src/main/base_backend.cpp:120-133 | locate then get_location into four distinct cells reads back the four stored values |
| `ByteBuffer.MemSwap` | src/main/base_backend.cpp:162-200 | the three stride loops together exchange exactly `bytes` bytes: the result is `SwapRanges` of the old buffer |
| `ByteBuffer.SwapBlock` | src/main/base_backend.cpp:166-189 | one 16-byte or 4-byte stride, swapped through a temporary, extends the exchanged prefix by the stride |
| `ByteBuffer.SwapRangesSlices` | src/main/base_backend.cpp:162-200 | after the exchange, range a holds b's old bytes, range b holds a's old bytes, and no byte outside both ranges changes |
| `ByteBuffer.SwapRangesCompose` | src/main/base_backend.cpp:166-199 | exchanging d bytes and then the next k bytes is exchanging d + k bytes |
| `ByteBuffer.SwapRangesInvolutive` | src/main/base_backend.cpp:162-200 | exchanging the same two ranges twice restores the buffer |
| `ByteBuffer.SwapRangesSymmetric` | src/main/base_backend.cpp:162-200 | exchanging a with b is the same as exchanging b with a |
| `ByteBuffer.SwapRangesPermutes` | src/main/base_backend.cpp:162-200 | the exchange only moves bytes: the result is a permutation of the buffer |
| `ByteBuffer.SwapRows` | src/main/base_backend.cpp:202-208 | for rows >= 1, or zero rows of zero bytes (a no-op), the rows (as a sequence) end in reverse order and every byte from rows * bytes_per_row on is untouched |
| `ByteBuffer.RowsFlippedRow` | src/main/base_backend.cpp:202-208 | after the flip, row i holds the old row rows - 1 - i, for every i < rows |
| `ByteBuffer.RowsFlippedMiddle` | src/main/base_backend.cpp:202-208 | for an odd number of rows the middle row is unchanged |
| `ByteBuffer.RowsDetermine` | src/main/base_backend.cpp:202-208 | an image's rows and the bytes after them determine the whole buffer |
| `ByteBuffer.RowsFlippedTwice` | src/main/base_backend.cpp:202-208 | flipping an image twice restores the buffer |

## Left out

- `matrix_mul` (src/main/base_backend.cpp:135-160): 32-bit float arithmetic.
  Associativity and the identity being a unit hold only within rounding, so
  no exact property can be stated. Floats are carried as reals because the
  modelled operations only copy them or store the exact constants 0 and 1.
- `destroy` (src/main/base_backend.cpp:82-86): it only frees the handle;
  memory management is outside the model.
- The function-pointer table that `construct()` fills
  (src/main/base_backend.cpp:37-45), and the `static_cast` from the generic
  handle: the operations are methods of the `Backend` class instead.
- The backend factory registry and the factory discovery interface
  (include/lsp-plug.in/r3d/builtin.h, include/lsp-plug.in/r3d/factory.h).
  Their registration and probing code is not part of this model.
- The plain data types and enumerations of include/lsp-plug.in/r3d/types.h,
  and `export_func`, a union type pun with no behaviour. The matrix kinds are
  the integers 0, 1 and 2; any other integer is an unknown kind.
- BaseBackend.Backend.constructor: the matrices and the background colour are left
  arbitrary, as in the source, which does not initialise them there.
- ByteBuffer.MemSwap: the 32-bit word reads through `reinterpret_cast<uint32_t *>`
  and their alignment are modelled as byte moves with the same strides. On
  disjoint ranges they have the same effect.
- ByteBuffer.MemSwap: overlapping ranges are excluded by its precondition. The
  source does not forbid them, but no caller passes them.
- ByteBuffer.SwapRows: requires rows >= 1 or bytes_per_row = 0. With rows = 0
  and bytes_per_row > 0 the source computes `(rows - 1) * bytes_per_row` in
  unsigned arithmetic, and the resulting pointer lies bytes_per_row bytes
  before the buffer: an out-of-bounds pointer, which is undefined behaviour.
  With rows = 0 and bytes_per_row = 0 that product is 0, both pointers are
  equal and the call is a no-op; the model covers that case.
- ByteBuffer.SwapRows: the `size_t` products are taken as unbounded integers. Its
  precondition `rows * bytesPerRow <= buf.Length` means they cannot wrap; in
  the one admitted case where `rows - 1` wraps (zero rows), the product is 0
  both in the source and in the model.
- BaseBackend.Backend.GetMatrix: when the output buffer is one of the backend's own matrices,
  the model states only what the output holds afterwards, not the rest of
  the state.
- BaseBackend.Backend.GetLocation: output pointers that point at the backend's
  own `viewLeft`..`viewHeight` fields are not modelled; the output slots are
  cells separate from the backend. In the source such an output is written
  like any other, so a later write may read an already overwritten field and
  the backend's viewport changes; the model states neither.
