# Grayscale image pipeline — a Dafny model

The system unpacks a ZIP archive of images, lists the PNG files in the
extraction directory, and writes a grayscale copy of each one. Its only real
logic sits in `IOhandler.js`, and this project models three pieces of it:

- **The grayscale pass** of `grayScale` (module `Grayscale`, `grayscale.dfy`).
  pngjs decodes an image into an RGBA byte buffer. Nested loops over rows `y`
  and columns `x` visit the pixel at byte `4*(width*y + x)`. Each pixel's R, G
  and B bytes are replaced by the rounded BT.709 luma
  `0.2126 R + 0.7152 G + 0.0722 B` (Recommendation ITU-R BT.709, Part 2,
  item 3.2). Alpha is left alone. The model is a method over an `array<byte>`
  that updates the buffer in place. It is proved equal to a specification
  function `Grayed`, and the lemmas state what that function promises: every
  pixel ends up gray, its alpha is kept, and its gray comes from that pixel's
  own original R, G and B. Bytes past `4*width*height` are untouched, and a
  second pass changes nothing.
- **The PNG filter** of `readDir` (module `Scanner`, `scanner.dfy`). It keeps
  the directory entries whose lower-cased `path.extname` is `".png"`, keeps
  them in listing order, and joins each one onto the directory. Node's
  `path.join`, `path.basename`, `path.extname` and `String.prototype.endsWith`
  / `toLowerCase` are modelled in module `NodePath` (`node_path.dfy`).
- **The extraction-directory rule** of `unzip` (module `Extractor`,
  `extractor.dfy`). `pathOut` is used as it is when it ends with
  `"unzipped"`; otherwise the rule uses `path.join(pathOut, "unzipped")`.

The driver `main.js` names each output file `gray_` plus the input's basename.
That one rule is modelled in module `Pipeline` (`pipeline.dfy`).

The luma is computed exactly, as `(2126 R + 7152 G + 722 B + 5000) / 10000`.
This is `Math.round` (round half up) of the exact weighted sum. The source
works with IEEE doubles instead. The exact sum is a multiple of 1/10000, so
the two results can differ only where the exact sum ends in exactly .5.

IOhandler.js:28 tests the string suffix, not the last path segment (its
comment on line 27 says "contains"). So `out/notunzipped` is used as it
stands, and `out/unzipped/` gets a nested `unzipped`;
`Extractor.SuffixNotSegment` states both cases.

## Model

| member | source | states |
|---|---|---|
| `Grayscale.Luma` | IOhandler.js:94 | the gray value is the exact weighted sum 0.2126 R + 0.7152 G + 0.0722 B rounded to the nearest integer, halves up (10000 v - 5000 <= 2126 R + 7152 G + 722 B < 10000 v + 5000), and it is a byte |
| `Grayscale.LumaBetweenChannels` | IOhandler.js:94 | the weights are non-negative and sum to one, so the gray lies between the smallest and the largest of R, G, B and stays in 0..255 |
| `Grayscale.LumaOfGray` | IOhandler.js:94-99 | a pixel that is already gray (R = G = B = v) gets gray value v |
| `Grayscale.LumaExamples` | IOhandler.js:94 | pure red, green and blue give 54, 182 and 18; (10, 20, 30) gives 19 |
| `Grayscale.Grayed` | IOhandler.js:89-101 | the buffer after the whole width x height image is converted; its length is unchanged, and GrayedPixel, GrayedBeyondImage and GrayedIdempotent state its contents |
| `Grayscale.GrayedFirst` | IOhandler.js:89-101 | converting the first k pixels keeps the buffer's length |
| `Grayscale.GrayedByteStep` | IOhandler.js:91-99 | converting pixel k sets bytes 4k, 4k+1 and 4k+2 to the luma of that pixel's original R, G, B; no other byte changes, including alpha at 4k+3 |
| `Grayscale.PixelInImage` | IOhandler.js:89-91 | for x < width and y < height the pixel index width*y + x is below width*height, so every byte the loop touches lies below 4*width*height |
| `Grayscale.GrayedFirstStep` | IOhandler.js:94-99 | after k pixels, pixel k still holds its original R, G, B, and converting it is the buffer update that writes its luma into those three bytes |
| `Grayscale.GrayedChannel` | IOhandler.js:94-100 | channel c of a converted pixel is that pixel's luma for R, G and B and its original value for alpha |
| `Grayscale.GrayedFirstPixel` | IOhandler.js:94-100 | once the first n pixels are converted, each pixel p < n has R = G = B = luma of its own original R, G, B, and its alpha is unchanged |
| `Grayscale.GrayedPixel` | IOhandler.js:89-100 | after the pass, pixel (x, y) at byte i = 4*(width*y + x) satisfies i+3 < 4*width*height, has R = G = B = luma of its original R, G, B, and keeps its original alpha |
| `Grayscale.GrayedBeyondImage` | IOhandler.js:89-91 | bytes at positions >= 4*width*height are unchanged |
| `Grayscale.GrayedFirstIdempotent` | IOhandler.js:94-99 | converting the first n pixels of an already converted buffer changes nothing |
| `Grayscale.GrayedIdempotent` | IOhandler.js:94-99 | applying the pass to its own output gives the same buffer |
| `Grayscale.GrayscalePass` | IOhandler.js:87-102 | the outer loop over rows y leaves the buffer equal to Grayed of its old contents, so every fact proved about Grayed holds of the buffer in place |
| `Grayscale.GrayscaleRow` | IOhandler.js:90-101 | the inner loop over the columns x of row y converts exactly the pixels width*y .. width*y + width - 1: it takes the buffer from GrayedFirst(original, width*y) to GrayedFirst(original, width*y + width) |
| `NodePath.EndsWith` | IOhandler.js:28 | `s.endsWith(suffix)`: s finishes with the characters of suffix; its uses are stated by ExtractionDirectory and SuffixNotSegment |
| `NodePath.Join` | IOhandler.js:63 | `path.join(dir, name)` is dir + "/" + name when dir is non-empty and does not end in '/', and dir + name otherwise; so it starts with dir and ends with name |
| `NodePath.LastIndexOf` | IOhandler.js:62 | the index of the last occurrence of c, or -1: s[k] == c and no c after k |
| `NodePath.TrimTrailingSlashes` | IOhandler.js:62 | removes exactly the trailing '/' characters: the result is a prefix, does not end in '/', and only '/' was removed |
| `NodePath.Basename` | main.js:26 | `path.basename` returns a segment containing no '/'; BasenameIsLastSegment states that it is the last segment |
| `NodePath.BasenameIsLastSegment` | main.js:26 | the basename is a tail of the path without its trailing '/'s, and it is either that whole path or preceded by a '/', so it is the last segment |
| `NodePath.Extname` | IOhandler.js:62 | `path.extname`: the last segment from its last '.', or "" when that '.' is missing or first or the segment is ".."; stated by ExtnameShape, ExtnameOfName and NoExtname |
| `NodePath.ExtnameShape` | IOhandler.js:62 | `path.extname` is empty, or is a '.' followed by no further '.' or '/'; it is a suffix of the basename |
| `NodePath.ExtnameOfName` | IOhandler.js:62 | an entry name's extension runs from its last '.' to the end, when that '.' is not the first character |
| `NodePath.NoExtname` | IOhandler.js:62 | an entry name with no '.' after its first character (".png", "png") has an empty extension |
| `NodePath.ToLower` | IOhandler.js:62 | `toLowerCase` on ASCII letters; its meaning is stated by ToLowerShape |
| `NodePath.ToLowerShape` | IOhandler.js:62 | lower-casing keeps the length, leaves no upper-case ASCII letter, maps each upper-case letter 32 code points up, and changes no other character |
| `NodePath.BasenameOfName` | IOhandler.js:62 | an entry name without a separator is its own basename |
| `NodePath.BasenameOfJoin` | IOhandler.js:63 | the basename of a segment joined onto a directory is that segment |
| `NodePath.ExtnameOfJoin` | IOhandler.js:63 | joining a segment onto a directory keeps the segment's extension |
| `Scanner.IsPng` | IOhandler.js:62 | the filter test `path.extname(file).toLowerCase() === '.png'`; IsPngCases states it holds exactly for the eight case variants of ".png" as extension |
| `Scanner.Filter` | IOhandler.js:62 | `filter` returns no more elements than it is given, and each one comes from the input and passes the test |
| `Scanner.Map` | IOhandler.js:63 | `map` keeps the length and applies the function at every position |
| `Scanner.PngFiles` | IOhandler.js:61-63 | the result has no more entries than the listing |
| `Scanner.FilterSelects` | IOhandler.js:62 | filter keeps exactly the elements that pass, in order: there are strictly increasing positions covering every passing element |
| `Scanner.PngFilesSelects` | IOhandler.js:61-63 | the result is the order-preserving subsequence of the png entries of the listing, each joined onto dir; every png entry is included |
| `Scanner.PngFilesOnlyPng` | IOhandler.js:61-63 | every path in the result is `path.join(dir, f)` for a png entry f of the listing |
| `Scanner.PngFilesKeeps` | IOhandler.js:61-63 | every png entry f of the listing appears in the result as `path.join(dir, f)` |
| `Scanner.PngFilesArePng` | IOhandler.js:61-63 | for entries without separators, every result path has a png extension and its basename is an entry of the listing |
| `Scanner.LowerIsPng` | IOhandler.js:62 | lower-casing yields ".png" exactly for '.' followed by p/P, n/N, g/G |
| `Scanner.IsPngCases` | IOhandler.js:62 | an entry is kept if and only if its extension is one of the eight case variants of ".png" |
| `Scanner.IsPngByExtension` | IOhandler.js:62 | for stem + ext with ext a last extension, the extension is ext and the entry is kept iff ext lower-cases to ".png" |
| `Scanner.JoinedPngIsPng` | IOhandler.js:63 | a png entry joined onto a directory is a png path whose basename is the entry |
| `Scanner.PngInAnyCase` | IOhandler.js:62 | names ending in ".png", ".PNG" and ".Png" are all kept |
| `Scanner.OtherExtensionDropped` | IOhandler.js:62 | names ending in ".jpg", ".txt", ".pn" or ".pngx" are dropped, even when the stem ends in ".png" |
| `Scanner.NoExtensionDropped` | IOhandler.js:62 | a name whose only '.' is its first character, or that has no '.', is dropped; ".png" itself is not kept |
| `Extractor.ExtractionDirectory` | IOhandler.js:28 | the directory always ends with "unzipped"; it equals pathOut iff pathOut ends with "unzipped"; otherwise it is pathOut + "/unzipped", or pathOut + "unzipped" when pathOut is empty or ends in '/' |
| `Extractor.ExtractionDirectoryIdempotent` | IOhandler.js:28 | applying the rule to its own result returns that result |
| `Extractor.SuffixNotSegment` | IOhandler.js:28 | the test is on the string suffix: "…notunzipped" is used as it is, and "…unzipped/" gets "unzipped" appended |
| `Pipeline.ExtnameOfPrefixed` | main.js:26 | putting a prefix in front of a name that has an extension keeps that extension |
| `Pipeline.OutputPath` | main.js:26 | the output path `path.join(pathProcessed, "gray_" + path.basename(pngFile))`; stated by OutputPathNamed, OutputPathKeepsPng and OutputPathsDistinct |
| `Pipeline.OutputPathNamed` | main.js:26 | the output file's basename is "gray_" followed by the input's basename |
| `Pipeline.OutputPathKeepsPng` | main.js:26 | the output path of a png file is itself a png path |
| `Pipeline.OutputPathsDistinct` | main.js:26 | inputs with different basenames get different output paths |

## Left out

- Streams and callbacks are not modelled. This covers `fs.createReadStream`, `createWriteStream`, `pipe`, the `'end'`, `'finish'` and `'error'` handlers, and the `fs.mkdir` and `fs.readdir` callbacks with their error paths (IOhandler.js:25-44, 57-59, 82-87, 105-115). They are I/O with no state logic of their own; the model starts from the listing or the decoded buffer.
- ZIP extraction by `unzipper.Extract` and PNG decoding and encoding by pngjs are not modelled. They are foreign libraries. The decoded buffer, width and height are taken as given, with the buffer at least `4*width*height` bytes long, as pngjs provides.
- Timing is not modelled: `unzip` resolves on the read stream's `'end'` rather than on the extractor's finish, and no parent directory is created for outputs.
- The orchestration in main.js is not modelled, apart from the output file name. This covers the promise chain, the concurrent `Promise.all` fan-out and the console messages.
- `Grayscale.Luma`: the IEEE-double evaluation of `Math.round(0.2126*R + …)` is replaced by exact integer arithmetic. The two can differ only where the exact value ends in exactly .5.
- `Grayscale.GrayscalePass`: the byte offset `(width*y + x) << 2` is a 32-bit shift in JavaScript. The model multiplies by 4, which gives the same result while width*height is below 2^29 pixels.
- `Grayscale.GrayscalePass`: the pngjs object (`this.width`, `this.height`, `this.data`) is not modelled as a class. Only the contents of its data buffer change, so the method takes the buffer and the two dimensions as parameters.
- `NodePath.Join`: `path.join` normalisation is not modelled. That covers `.` and `..` segments, repeated separators inside `dir`, and a `dir` of `"."`. The model drops an empty directory and adds a separator unless `dir` already ends in one. This matches Node for a normalised `dir` and a single-segment name, which is how the source calls it.
- `NodePath.ToLower` lower-cases ASCII letters only. No other character lower-cases to '.', 'p', 'n' or 'g', so the `.png` test gives the same answer as the full Unicode mapping.
- `NodePath.Extname` and `NodePath.Basename` follow Node's POSIX `path` module; the Windows variants are not modelled.
