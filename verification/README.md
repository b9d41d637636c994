# xorpng in Dafny

xorpng is a small command-line tool with two modes:

- **XOR mode.** It reads two PNG images and normalises each one to 8-bit RGBA. If their widths or heights differ it refuses to go on. Otherwise it exclusive-ors the red, green and blue bytes of the two buffers, makes every pixel opaque, and writes the result to standard output.
- **Generation mode.** It writes `count` square noise images named `k-1.png`, `k-2.png` and so on. Each image takes its colour bytes, three per pixel in row-major order, from a buffer of random bytes.

This project models the core of the tool as pure functions, and the loops of the program as methods proved equal to those functions. It then proves the properties the tool relies on.

Modules:

- `Results`: the `Result` datatype.
- `Pixels`: the memory layout of Go's `image.RGBA`:
  - rectangles (minimum inclusive, maximum exclusive);
  - `PixOffset`, `At`, `Set`, `NewRGBA`;
  - the row-major arithmetic they rest on.

  `image.RGBA` is part of Go's standard library. It is modelled from its documented behaviour.
- `Xor`: the dimension check and the combining loop.
- `Normalize`: `imageToRGBA`. Each decoded point is given as the four 16-bit channel values Go's `Color.RGBA()` reports.
- `Noise`:
  - `generateRandomImage`, with the random bytes as a parameter;
  - the `saveRandomImages` loop;
  - its file names.
- `Decimal`: the `%d` rendering used in the file names.
- `Cli`: the choice between generation, the usage exit and XOR mode, made on the already-parsed flag values.

Conventions:

- Every `log.Fatalf` on a path that is modelled becomes a `Failure` value.
- Go's `int` is modelled as an unbounded integer.
- Image sizes in generation mode are natural numbers.

## Model

| member | source | states |
|---|---|---|
| Cli.SelectMode | xorpng.go:94-102 | A positive `-g` gives generation with size `g` and count `n`. Otherwise an empty `-i1` or `-i2` gives the usage exit with status 1. Otherwise the result is XOR mode with `i1` and `i2` in that order. Each mode is stated as an if-and-only-if on the flags. |
| Xor.Combine | xorpng.go:132-145 | The combination fails exactly when the widths or the heights differ, and the error carries both images' width and height. On success the result is a valid image with the first image's bounds and buffer length. Every alpha byte is 255 and every colour byte is the XOR of the two inputs' bytes. |
| Xor.XorPix | xorpng.go:140-145 | The result buffer has the inputs' length. Byte i is 255 at an alpha position (i mod 4 = 3), otherwise the XOR of the inputs' byte i. |
| Xor.CombineLoop | xorpng.go:132-145 | Running the dimension check and then the combining loop gives exactly `Combine`'s result, error included. |
| Xor.XorLoop | xorpng.go:139-145 | Filling a zero buffer four bytes at a time, three XORs and an opaque alpha per step, gives exactly `XorPix`. |
| Xor.CombineUndoesSecond | xorpng.go:140-144 | Combining the result with the second image succeeds and gives back the first image's colour bytes. |
| Xor.CombineUndoesFirst | xorpng.go:140-144 | Combining the result with the first image succeeds and gives back the second image's colour bytes. |
| Xor.CombineCommutes | xorpng.go:132-145 | Swapping the inputs changes neither whether the combination fails nor the result bytes. When the two bounds are equal, the whole results are equal. |
| Xor.CombineWithItselfIsBlack | xorpng.go:140-144 | An image combined with itself succeeds, and every colour byte of the result is 0 and every alpha byte 255. |
| Xor.CombineIgnoresAlpha | xorpng.go:140-144 | Inputs that differ only in their alpha bytes give the same result. |
| Xor.MismatchNamesBothSizes | xorpng.go:134-137 | Every 10x20 image paired with any 20x10 image is refused with the error (10, 20, 20, 10). |
| Normalize.Top8 | xorpng.go:35-37 | Keeping the top byte of a 16-bit channel is the channel value divided by 256, rounded down. |
| Normalize.ToColor | xorpng.go:33-39 | The colour written for a point has red, green and blue equal to the source channels divided by 256, and alpha 255. The source alpha is discarded. |
| Normalize.Normalized | xorpng.go:28-30 | The normalised image is a valid buffer with the source's bounds. |
| Normalize.NormalizedAt | xorpng.go:31-39 | Every point of the normalised image holds the top byte of the source point's red, green and blue channels, and alpha 255, whatever the source alpha was. |
| Normalize.ImageToRGBA | xorpng.go:28-43 | The row-by-row, point-by-point loop over a zero-filled buffer gives exactly `Normalized`. |
| Normalize.FillRow | xorpng.go:32-40 | One pass of the inner loop takes a buffer that is correct before row y to one that is correct up to the end of row y. |
| Normalize.Top8Widen | xorpng.go:35-37 | Keeping the top byte undoes the 8-to-16-bit widening of `color.RGBA`, so 8-bit channel values survive normalisation unchanged. |
| Normalize.NormalizeView16 | xorpng.go:28-43 | Normalising an opaque 8-bit RGBA image gives back exactly that image. |
| Pixels.Image.Set | xorpng.go:60 | Writing a colour at a point inside the bounds keeps the image valid with the same bounds, and the point then reads back that colour. A point outside the bounds leaves the image unchanged. |
| Pixels.SetFrame | xorpng.go:34-39 | `Set` changes only the written point: every other point keeps its colour and every other byte keeps its value. |
| Pixels.NewImage | xorpng.go:30 | `NewRGBA` gives a valid, zero-filled buffer with the given bounds. |
| Noise.RandomImage | xorpng.go:45-47 | The generated image is a valid size-by-size square. |
| Noise.Expand | xorpng.go:54-63 | Every three random bytes become one four-byte pixel. Pixel k is the triple starting at byte 3k, with alpha 255. |
| Noise.RandomImageAt | xorpng.go:54-62 | Point (x, y) takes the bytes at 3(y*size + x) and the next two, all inside the random buffer, and is opaque. |
| Noise.RandomImageCarriesBytes | xorpng.go:47-63 | Every generated image is opaque, and dropping its alpha bytes gives back the random bytes in order, each used exactly once. |
| Noise.DropAlphaExpand | xorpng.go:57-61 | Dropping the alpha bytes of the laid-out buffer gives back the random bytes. |
| Noise.ExpandDropAlpha | xorpng.go:57-61 | An opaque buffer is recovered from its colour bytes by the same layout. |
| Noise.GenerateRandomImage | xorpng.go:45-65 | The nested loop with its running index gives exactly `RandomImage`. |
| Noise.FillNoiseRow | xorpng.go:56-62 | One pass of the inner loop fills row y and advances the index by 3*size. |
| Noise.NoiseBounds | xorpng.go:57-59 | The three bytes read for point (x, y) lie inside the size*size*3 buffer. |
| Noise.FileName | xorpng.go:69 | The i-th file name is "k-", then the decimal form of i, then ".png". |
| Noise.OutputNames | xorpng.go:68-69 | The names are k-1.png to k-count.png in order, and none when count ≤ 0. |
| Noise.FileNameInjective | xorpng.go:69 | Two file names are equal exactly when their indices are. |
| Noise.OutputNamesDistinct | xorpng.go:68-69 | The names of one batch are pairwise different, so no image overwrites another. |
| Noise.SaveRandomImages | xorpng.go:67-75 | The loop makes one entry per name of `OutputNames(count)`. The entry named k-i.png holds the image built from the i-th draw of random bytes. |
| Decimal.Format | xorpng.go:69 | `%d` of a non-negative number is a non-empty string of digits. It has no leading zero: only 0 itself starts with '0', and its form is the one digit "0". |
| Decimal.ParseFormat | xorpng.go:69 | Reading the digits back gives the number. |
| Decimal.FormatInjective | xorpng.go:69 | Different numbers have different decimal forms. |
| Cli.GenerateIgnoresPaths | xorpng.go:94-97 | A positive `-g` selects generation with the `-n` count, whatever the two paths are. |
| Cli.UsageWhenPathMissing | xorpng.go:94-102 | Without generation the `-n` count has no effect on the outcome. A missing path then always gives the usage exit with status 1. |
| Cli.XorUsesBothPaths | xorpng.go:99-120 | XOR mode is entered exactly when there is no generation and both paths are given. The mode carries the `-i1` path first and the `-i2` path second. |
| Cli.DefaultsGiveUsage | xorpng.go:88-102 | With every flag at its default value the program exits through usage. |
| Cli.FilesOnlyFromGeneration | xorpng.go:94-97 | Through `Cli.CreatedFiles`, files are created exactly when `-g` and `-n` are both positive, and they are the `OutputNames` of the count. `CreatedFiles` stands for the `os.Create` calls at line 70. XOR mode creates no file, because it writes only to standard output (line 147), and the usage exit creates none either. |

## Left out

- PNG decoding and encoding (lines 114, 126, 76, 147) and their errors.
  - A decoded image enters the model as a `Normalize.Source`.
  - A result leaves it as an `Image`.
- The colour-model conversion behind `src.At(x, y).RGBA()` (line 33).
  - It is Go library code for every PNG colour model.
  - The model takes its four 16-bit outputs as given.
  - `Normalize.View16` models the one case of an 8-bit RGBA source.
- `crypto/rand` (line 49). The random bytes are a parameter, one buffer per generated image. The failure branch (lines 50-52) is left out.
- File system work:
  - creating, closing and encoding files (lines 70-81);
  - `filepath.Abs` and printing the generated paths (lines 82-83);
  - opening the inputs (lines 108-112, 120-124).
- The check that standard output is not a terminal (lines 104-106). It depends on the process environment.
- Flag parsing and the usage text (lines 88-92, 100). `Cli` starts from the parsed flag values. Nothing assigns `usage` (lines 15-26) to `flag.Usage`, so line 100 prints Go's default usage text and `usage` is never called.
- `log.Fatalf` and `os.Exit`. The modelled error paths return a value instead of ending the process: `Xor.Mismatch` and `Cli.Usage(1)`.
- Noise.SaveRandomImages: states the names and images of the batch, but not the per-file I/O errors that end the loop early.
- Sizes too large to allocate are not modelled. This includes `NewRGBA`'s overflow panic on 4·size·size at line 46 (sizes above about 1.5e9) and the 64-bit overflow of `size*size*3` at line 47. `Pixels.NewImage` and `Noise.RandomImage` are total over every natural size, with unbounded integers.
