# Framebuffer raster loop — a Dafny model

This project models the drawing core of `draw_to_fb.cpp`, a program that
draws shapes straight into the Linux framebuffer device. It has three
parts.

- **The surface** (`surface.dfy`, module `Surface`). The `Framebuffer`
  object keeps the queried geometry (`width`, `height`, `bpp`,
  `bytes = bpp / 8`, `fbMemorySize = width * height * bytes`) and the mapped
  device memory, an `array<Byte>`. `Write` stores one `Pixel` at byte offset
  `(y * width + x) * 4`, in the order blue, green, red, then a zero pad byte.
  The pure function `Store` describes what `Write` does to the memory image
  `seq<Byte>`. The lemmas prove:
  - the offset stays in bounds;
  - distinct pixels occupy disjoint four-byte ranges;
  - reading back a stored pixel gives `[blue, green, red, 0]`;
  - every other pixel is left alone.
- **The shapes** (`shapes.dfy`, module `Shapes`). `SquareFn` is the square
  classifier. It returns 0 ("inside") exactly on `[0, 500) x [0, 500)` and 1
  everywhere else, whatever `z` is.
- **The raster sweep** (`raster.dfy`, module `Raster`). One frame runs over
  columns `x`, then rows `y`, then the game objects in list order. Each
  object's classifier is called at `(x, y, 0)`, and every 0 answer writes the
  pixel in the sweep's one colour. The three loops are the methods
  `RenderFrame`, `RenderColumn` and `RenderPixel`. `RenderFrame` is proved
  equal to the byte-level reference definition `Frame`, and it returns (as
  ghost) exactly the set of pixels some object hits. Lemmas about `Frame`
  prove:
  - the pixel-level reading of `Frame` (`FramePixel`);
  - that an empty scene changes nothing;
  - that a frame is idempotent;
  - the bytes the program's own scene produces.

  `RenderFrames` runs `n` frames one after another.

In the program, every write goes through the one `Pixel p`. Its colour is set
to `RED` once and never changes, and `GeometricGameObject` has no colour
field. So the model takes the colour as a single parameter of the sweep.
When several objects hit one pixel, every write stores the same bytes. A
design where each object carries its own colour, with the last match
winning, is not what the code does, and it is not modelled.

A classifier is a total Dafny function `(int, int, int) -> int`. This
matches the classifiers being pure functions of the coordinate.

## Model

| member | source | states |
|---|---|---|
| Surface.Framebuffer.constructor | draw_to_fb.cpp:43-53 | The object records the queried resolution and bits per pixel, uses `bytes = bpp / 8` and `fbMemorySize = width * height * bytes`, and the mapped memory has exactly that many bytes |
| Surface.Framebuffer.Write | draw_to_fb.cpp:84-90 | For an in-range pixel on a 4-byte-per-pixel surface, the memory afterwards is `Store` of the memory before: blue, green, red and 0 at offset `(y*width+x)*4` and the next three bytes, every other byte unchanged |
| Surface.Store | draw_to_fb.cpp:85-89 | Byte by byte: the four bytes at the pixel's offset take the colour's blue, green, red and 0 pad byte, and every other byte keeps its value; the length is unchanged |
| Surface.OffsetInBounds | draw_to_fb.cpp:85 | For `0 <= x < width` and `0 <= y < height`, the offset is non-negative and offset + 3 is below `width * height * 4`, which is `fb_memory_size` when `bytes == 4` (line 53) |
| Surface.OffsetsDisjoint | draw_to_fb.cpp:85 | Two distinct in-range pixels get four-byte ranges that do not overlap |
| Surface.IndexInjective | draw_to_fb.cpp:85 | The pixel index `y*width + x` is one-to-one on in-range coordinates |
| Surface.StoreReadBack | draw_to_fb.cpp:86-89 | The four bytes of the pixel just written read back as `[blue, green, red, 0]` |
| Surface.StoreKeepsOthers | draw_to_fb.cpp:84-90 | Writing one pixel leaves the bytes of every other in-range pixel unchanged |
| Shapes.SquareFn | draw_to_fb.cpp:98-102 | The result is 0 or 1, and it is 0 exactly when `0 <= x < 500` and `0 <= y < 500` |
| Shapes.SquareIgnoresZ | draw_to_fb.cpp:98-102 | The square's answer does not depend on `z` |
| Raster.RenderPixel | draw_to_fb.cpp:137-145 | Trying every object at `(x, y, 0)` writes the pixel iff some object answers 0; the pixel then holds the colour's bytes (otherwise its old bytes) and every other pixel is unchanged |
| Raster.RenderColumn | draw_to_fb.cpp:136-146 | After column `x`, each of its pixels holds the colour iff some object hits it (else its old bytes), other columns are unchanged, and the written set is exactly the column's hit pixels |
| Raster.RenderFrame | draw_to_fb.cpp:135-147 | After one sweep the memory equals `Frame` of the memory before, and the set of written pixels is exactly the in-range pixels that some object classifies as 0 at z = 0 |
| Raster.FramePixel | draw_to_fb.cpp:135-147 | In `Frame`, an in-range pixel holds the sweep colour's bytes if some object hits it, and its previous bytes otherwise |
| Raster.PixelwiseEqual | draw_to_fb.cpp:85 | Because every byte of a `width*height*4` buffer belongs to exactly one pixel, two buffers that agree on all pixels are equal |
| Raster.FrameEmptyScene | draw_to_fb.cpp:137-145 | With no game objects, a frame leaves the memory unchanged |
| Raster.FrameIdempotent | draw_to_fb.cpp:134-147 | Running a frame twice with the same classifiers and colour gives the same memory as running it once |
| Raster.RedBytes | draw_to_fb.cpp:74 | `RED` is a valid colour and is stored as the bytes `[0, 0, 255, 0]` |
| Raster.SquareScene | draw_to_fb.cpp:118-120 | With the square as the only object, drawn in RED, a pixel inside the 500 x 500 square becomes `[0, 0, 255, 0]` and every other pixel keeps its bytes |
| Raster.ProgramSceneCorner | draw_to_fb.cpp:118-130 | With the program's scene (the square, then any second classifier) in RED on a 2000 x 600 surface, pixel (10, 10) ends up `[0, 0, 255, 0]`, whatever the second object answers |
| Raster.RenderFrames | draw_to_fb.cpp:134-147 | After `n` frames the memory is unchanged if `n == 0`, and otherwise equals `Frame` of the starting memory: later frames change nothing |

## Left out

- Opening `/dev/fb0`, the `FBIOGET_VSCREENINFO` query and `mmap` (draw_to_fb.cpp:30-66) are device I/O. The constructor takes the resolution, the bits per pixel and the mapped memory as parameters. The error logging on a failed open and the `exit(0)` on a failed mapping are not modelled.
- The destructor's `munmap` (draw_to_fb.cpp:92-94) is a foreign call with no effect inside the model.
- `circle_fn` (draw_to_fb.cpp:104-111) uses `std::sqrt` on doubles and a truncating conversion to `int`, which is floating-point arithmetic. Its exact-zero "on the ring" test is therefore not modelled. The second object of the program's scene is an arbitrary classifier in `ProgramSceneCorner`.
- The unbounded `while (true)` loop and its counter `t` (draw_to_fb.cpp:134, 198) are modelled only as `n` frames in `RenderFrames`. A loop that runs until it is killed is not modelled.
- The commented-out drawing code (draw_to_fb.cpp:148-196) is dead code.
- Surface.Framebuffer.Write: requires `bytes == 4`, because line 85 hard-codes a stride of 4. On a surface with a different bits-per-pixel value the source writes with the wrong stride and may run past the mapping; that behaviour is not modelled.
- Storing an `int` channel into a `char` (draw_to_fb.cpp:86-88) depends on the signedness of `char`. Bytes are modelled as values 0..255, and `Write` requires every channel to be in that range (`ValidColor`).
- Arithmetic in C++ `int` (the offset and `fb_memory_size`) could overflow on huge surfaces. This model uses unbounded integers.
- In the source, the classifier loop assigns `p.x` and `p.y` of one shared `Pixel p` before each write. `RenderPixel` builds `Pixel(x, y, color)` afresh. The effect is the same, because the colour never changes.
- Logging to `std::cerr` and `std::cout` is left out.
