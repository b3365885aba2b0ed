# DJV thumbnail information, Netpbm loading and integer boxes, in Dafny

This project models three sequential parts of DJV and proves properties about them.

- **The file browser's information dispatcher** (`Info` and `InfoWorker`). It keeps a fixed pool of 12 requester/worker pairs. A cursor routes requests round-robin and wraps. A generation id is broadcast to every worker. A worker drops a request whose id is stale. For a current request it emits exactly one result carrying the request's row and id, even when loading the image fails.
- **The Netpbm (PPM) loader** (`djvPPMLoad`). Opening a file classifies the header: the magic number, the type, whether a maxval word is present, the bit depth, the channel count, ASCII or binary data, the endianness and the vertical mirror. Reading chooses how the data is read, checks the size of mapped binary data, and unpacks 1-bit raw rows (most significant bit first) into 0/255 samples.
- **The integer 2-D box** (`Box2<int>`). It has constructors, `isValid`, `zero`, the inclusive-corner `lowerRight`/`setLowerRight`, `*=` and `/=` by a vector or a scalar, and a self-safe assignment.

Files:

- `wrappers.dfy`: Option and Result.
- `core.dfy`: `glm::ivec2` arithmetic, C++ truncating division, and class `Box2`.
- `image_io.dfy`: the `djvImageIOInfo` fields a loader sets, and the loader error labels.
- `ppm.dfy`: header classification, class `PpmLoad` with `Open`, the read-path choice, and the 1-bit unpacking with its row loop. It also defines the Netpbm raw-bitmap packing, which the unpacking inverts.
- `file_browser.dfy`: requests and results, the worker's emission, and class `Info` (pool, cursor, `SetId`, `Request`, `Deliver`).

Modelling choices:

- The threads are taken out. Queued signal delivery becomes a per-worker `pending` sequence. `Deliver(w, outcome)` is worker `w` taking its oldest queued request. The id check and `setId` are atomic steps.
- The image loader and `Util::thumbnailSize` are one `LoadOutcome`. It holds the header information the loader left in the result, and a thumbnail size, which is None when either of them threw.
- On a failed load the result keeps whatever header information the loader had already written into it. This follows the code: `result.info` is passed to the loader by reference, so nothing resets it when the load throws.
- The header words, after `djvFileIOUtil::word` and `QString::toInt`, are a sequence of integers. The pixel-format lookup `djvPixel::pixel` is a predicate parameter. The bytes after the header are a sequence of `bv8`.

## Model

| member | source | states |
|---|---|---|
| `FileBrowser.DefaultRequest` | experiments/djvFileBrowserExperiment/Info.cpp:48-53 | a default request has mode 0, thumbnail size 0, row 0 and id 0 |
| `FileBrowser.DefaultResult` | experiments/djvFileBrowserExperiment/Info.cpp:68-71 | a default result has row 0, id 0, default info and a null pixmap |
| `FileBrowser.Emission` | experiments/djvFileBrowserExperiment/Info.cpp:87-125 | at most one result; one exactly when the request's id equals the worker's; it copies row and id, keeps the loader's info, and has a null pixmap exactly when the load or size policy failed, otherwise a transparent pixmap of the computed size |
| `FileBrowser.WorkerRequest` | experiments/djvFileBrowserExperiment/Info.cpp:87-125 | filling a default result field by field emits exactly what Emission describes |
| `FileBrowser.DrainEmitsCurrent` | experiments/djvFileBrowserExperiment/Info.cpp:87-125 | working through a queue emits one result per non-stale request, in queue order, each with that request's row and the current id; stale requests and failed loads do not affect later ones |
| `FileBrowser.NextCursorInRange` | experiments/djvFileBrowserExperiment/Info.cpp:204-213 | from a cursor in [0, n), one step gives (cursor + 1) mod n, again in [0, n) |
| `FileBrowser.CursorAfterIsMod` | experiments/djvFileBrowserExperiment/Info.cpp:204-213 | starting at 0, after k steps the cursor is k mod 12 |
| `FileBrowser.SameRequesterAfterFullCycle` | experiments/djvFileBrowserExperiment/Info.cpp:204-213 | requests k and k + 12 go to the same requester |
| `FileBrowser.ConsecutiveRequestersDiffer` | experiments/djvFileBrowserExperiment/Info.cpp:204-213 | requests k and k + 1 go to different requesters |
| `FileBrowser.Info.constructor` | experiments/djvFileBrowserExperiment/Info.cpp:131-170 | builds exactly 12 requesters, workers and threads; requester i is connected only to worker i and thread i runs worker i; cursor 0; every worker has the same initial id; no queued requests and no results |
| `FileBrowser.Info.NextRequester` | experiments/djvFileBrowserExperiment/Info.cpp:204-213 | returns the requester at the old cursor; the cursor becomes (old + 1) mod 12 and stays in [0, 12); nothing else changes |
| `FileBrowser.Info.Request` | experiments/djvFileBrowserExperiment/Info.cpp:190-193 | the k-th request since construction is appended to worker k mod 12's queue only; results are unchanged |
| `FileBrowser.Info.SetId` | experiments/djvFileBrowserExperiment/Info.cpp:195-202 | every worker's id becomes the given id; the cursor, the queues and the results are unchanged |
| `FileBrowser.Info.Deliver` | experiments/djvFileBrowserExperiment/Info.cpp:87-125 | a worker takes its oldest queued request and appends what Emission gives for its id at that moment; an empty queue changes nothing; the cursor and connections are unchanged |
| `Ppm.ParseHeader` | lib/djvGraphics/PPMLoad.cpp:151-228 | a first byte other than 'P' is unrecognized; a second byte outside '1'..'6' is unsupported; otherwise the type is that digit; width and height are the first two words; maxval is read only for types 2, 3, 5 and 6; bit depth 1 for types 1 and 4, otherwise 8 below maxval 256 and 16 from it; 3 channels for types 3 and 6, 1 otherwise; types 1 to 3 ASCII and 4 to 6 binary; a file too short for the magic or the words fails with the read error |
| `Ppm.ParseNetpbmHeader` | lib/djvGraphics/PPMLoad.cpp:160-228 | every header written per the Netpbm format for each of the six formats and encodings is accepted and classified by its format: bitmap 1-bit with one channel, graymap one channel, pixmap three channels, plain as ASCII |
| `Ppm.ParsedHeaderIsNetpbm` | lib/djvGraphics/PPMLoad.cpp:151-189 | conversely, every accepted header starts with one of the six Netpbm magic numbers and consumes exactly the words that format has |
| `Ppm.PpmLoad.Open` | lib/djvGraphics/PPMLoad.cpp:142-234 | a header that fails to parse changes nothing and reports its error; otherwise name, size and mirror.y = true are set, with the bit depth; a pixel format the lookup rejects fails as unsupported; on success the pixel is set, the data kind is stored, binary files become MSB and ASCII files keep their endianness |
| `Ppm.FrameToRead` | lib/djvGraphics/PPMLoad.cpp:74-75 | the requested frame is opened, or the sequence start when the frame is -1 |
| `Ppm.ReadPathByType` | lib/djvGraphics/PPMLoad.cpp:84-127 | types 5 and 6 are mapped directly, type 4 is unpacked bit by bit, types 1 to 3 are read as ASCII samples |
| `Ppm.CheckMappedSize` | lib/djvGraphics/PPMLoad.cpp:84-91 | mapped binary data fails with the read error exactly when fewer bytes remain than the image's byte count |
| `Ppm.UnpackedRow` | lib/djvGraphics/PPMLoad.cpp:111-114 | an unpacked row has exactly width samples, sample i taken from bit 7 - i mod 8 of byte i / 8 |
| `Ppm.UnpackedRowIsBinary` | lib/djvGraphics/PPMLoad.cpp:113 | each unpacked sample is 0 or 255, and 0 exactly when its bit is set |
| `Ppm.UnpackedImageLength` | lib/djvGraphics/PPMLoad.cpp:106-115 | the first `rows` unpacked rows hold rows times width samples |
| `Ppm.UnpackedImageSample` | lib/djvGraphics/PPMLoad.cpp:106-115 | sample i of row y comes from bit 7 - i mod 8 of byte y * scanline + i / 8 of the body |
| `Ppm.UnpackRow` | lib/djvGraphics/PPMLoad.cpp:109-114 | counting i down from width - 1, writes exactly the unpacked row at the row's offset and nothing else |
| `Ppm.UnpackOneBit` | lib/djvGraphics/PPMLoad.cpp:99-116 | succeeds exactly when the body holds height whole scanlines, failing with the read error otherwise; the rows read so far equal the unpacked image and the rest of the buffer is untouched |
| `Ppm.ReadScanline` | lib/djvGraphics/PPMLoad.cpp:108-114 | one pass of the row loop: after reading scanline y, the buffer holds the first y + 1 unpacked rows followed by the untouched rest |
| `Ppm.PackByteSample` | lib/djvGraphics/PPMLoad.cpp:113 | unpacking any of the pixels packed into one raw-bitmap byte gives 0 for black and 255 for white |
| `Ppm.PackRowLength` | lib/djvGraphics/PPMLoad.cpp:101-103 | a packed raw-bitmap row of n pixels has (n + 7) / 8 bytes |
| `Ppm.PackRowSample` | lib/djvGraphics/PPMLoad.cpp:111-114 | sample i of a packed row is pixel i: 0 for black, 255 for white |
| `Ppm.UnpackPackedRow` | lib/djvGraphics/PPMLoad.cpp:106-115 | unpacking a Netpbm raw-bitmap row recovers all its pixels, black as 0 and white as 255 |
| `Core.Quot` | lib/djvCore/Box2Inline.h:145-167 | integer division truncates toward zero: the magnitude is the quotient of the magnitudes, negative exactly when the signs differ |
| `Core.QuotRemainder` | lib/djvCore/Box2Inline.h:145-167 | the remainder left by truncating division is smaller than the divisor and never of the opposite sign to the dividend |
| `Core.Box2.constructor` | lib/djvCore/Box2Inline.h:40-45 | a default box has zero position and size and is not valid |
| `Core.Box2.Copy` | lib/djvCore/Box2Inline.h:47-52 | the copy has the same position and size |
| `Core.Box2.FromPositionSize` | lib/djvCore/Box2Inline.h:54-59 | the box has exactly the given position and size |
| `Core.Box2.FromSize` | lib/djvCore/Box2Inline.h:61-66 | the box is at (0, 0) with the given size |
| `Core.Box2.FromComponents` | lib/djvCore/Box2Inline.h:68-76 | the box stores exactly x, y, w and h |
| `Core.Box2.FromWidthHeight` | lib/djvCore/Box2Inline.h:78-85 | the box is at (0, 0) with size (w, h) |
| `Core.Box2.IsValid` | lib/djvCore/Box2Inline.h:87-91 | valid exactly when the position is at or before the lower right corner in both components, that is when the box holds a pixel |
| `Core.Box2.Zero` | lib/djvCore/Box2Inline.h:93-98 | all four components become 0 and the box is not valid |
| `Core.Box2.LowerRight` | lib/djvCore/Box2Inline.h:107-111 | the corner is position + size - 1, the one from which setLowerRight recovers the size |
| `Core.Box2.SetLowerRight` | lib/djvCore/Box2Inline.h:119-124 | the position is kept and the size becomes p - position + 1, so lowerRight() is p afterwards; setting the box's own lower right corner leaves it unchanged |
| `Core.Box2.Assign` | lib/djvCore/Box2Inline.h:126-135 | the box takes the other's position and size; assigning a box to itself changes nothing |
| `Core.Box2.MultiplyBy` | lib/djvCore/Box2Inline.h:137-143 | position and size are both multiplied component-wise by the vector |
| `Core.Box2.DivideBy` | lib/djvCore/Box2Inline.h:145-151 | position and size are both divided component-wise, truncating, by a vector with non-zero components |
| `Core.Box2.MultiplyByScalar` | lib/djvCore/Box2Inline.h:153-159 | acts as multiplying by the vector (s, s) |
| `Core.Box2.DivideByScalar` | lib/djvCore/Box2Inline.h:161-167 | acts as dividing by the vector (s, s), for a non-zero s |

## Left out

- Threads, mutexes and the Qt event loop (experiments/djvFileBrowserExperiment/Info.cpp:145-169): the signal connections, `moveToThread`, the thread start hooks and the destructor's quit, wait and delete order. They are concurrency and Qt object lifetime. The id check and `setId` are atomic steps of the model.
- `AbstractWorker` is not part of this model. Its initial id is a parameter of the `Info` constructor.
- The image loader, `Util::thumbnailSize` and `QPixmap` are foreign code. Together they are one `LoadOutcome` per request. Qt's handling of a pixmap with a non-positive size is not modelled.
- The public `djvPPMLoad::open` (lib/djvGraphics/PPMLoad.cpp:50-63): it opens the sequence's start frame and copies the sequence's frame list. `djvFileInfo` and its file-name formatting are not part of this model.
- File I/O: `djvFileIO`, `setEndian`, `readAhead` and the memory map. The data in the mapped branch is not modelled beyond the size check.
- `djvPPM::asciiLoad` is not part of this model.
- `djvPPM::scanlineByteCount` is a parameter of `UnpackOneBit`. It is required to cover the width, since the C++ reads past the scanline buffer otherwise.
- `djvPixelDataUtil::dataByteCount` is a parameter of `CheckMappedSize`.
- `djvPixelDataUtil::proxyScale` (lib/djvGraphics/PPMLoad.cpp:131-137) is not modelled.
- The reset of the colour profile and tags in `read` (lib/djvGraphics/PPMLoad.cpp:70-71) is not modelled.
- A header that ends before the magic bytes or before a word the type needs is modelled as the read error. This stands for the I/O error djvFileIO raises; the tokenizer itself is not part of this model.
- UnpackOneBit: it writes into a flat buffer whose row y starts at y * width. This is how a one-channel 8-bit `djvPixelData` addresses rows, but that class is not part of this model. Its width and height are natural numbers; what `djvPixelData::set` does with a negative size is not part of this model.
- The `djvPPMLoad` constructor leaves `_bitDepth` and `_data` uninitialised. The model starts them at 0 and ASCII, and no contract relies on those values.
- `djvImageIOInfo` defaults are not part of this model. The pixel and the endianness are None until a loader sets them.
- Float boxes (lib/djvCore/Box2Inline.h:100-104, 113-117) and the int/float conversions (lib/djvCore/Box2Inline.h:169-187) involve floating point.
- Box arithmetic uses unbounded integers. Signed overflow is undefined behaviour in C++, so there is no wrap-around to model.
- The `x`, `y`, `w` and `h` reference members of `Box2` alias the components of `position` and `size`. The model uses those components directly.
- Request rows are unbounded integers; ids are 64-bit unsigned, as `quint64` is.
