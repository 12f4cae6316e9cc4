# Mamba image library core in Dafny

Mamba is a mathematical-morphology library. Its C core works on raster
images whose pixels are 1, 8 or 32 bits deep, laid out on a square grid
(8 neighbours) or a hexagonal grid (6 neighbours). Python layers build
higher-level operators out of those primitives. This project models that
core as pure functions and small methods over an abstract image:

- `Images.Image` is a width, a height, a depth and a `seq<seq<nat>>` of
  pixels. A `Valid` image holds values within its depth. Bit packing,
  line margins and SSE2 registers are not represented; an image is read
  pixel by pixel, and `Read` supplies the edge value outside the frame.
- Errors are the `MB_errcode` enumeration (`Common.Error`). An operator
  returns `Result<T>`, which is either `Ok(value)` or `Fail(error)`. The
  Python layer's `raiseExceptionOnError` becomes `PyResult<T>`, which is
  `PyOk(value)` or `Raised(MambaError(code))`.
- Operators dispatch on the depth pair `128 * depth_in + depth_out`
  (`Common.Pair`, `Images.Probe`), exactly as `MB_PROBE_PAIR` does.
- When the C code behaves differently because source and destination are
  the same image (the repeat count of the neighbour operators, the
  refusal in `MB_BinHitOrMiss`, the early return of `MB_Copy`), the model
  takes an explicit `aliased` flag. `MB_CropCopy` from an image into
  itself copies rows that an earlier row of the same call may already
  have overwritten; it is modelled separately, as `Images.CropCopySelf`.

The modules follow the program's structure:

| file | module | models |
|---|---|---|
| common.dfy | Common | error codes, grids, edges, depth pairs, fill values, 32/16/8-bit wrap-around, bitwise operations on naturals, little-endian words |
| images.dfy | Images | the image, `MB_Create`, `MB_PutPixel`/`MB_GetPixel`, `MB_Load`/`MB_Extract`, `MB_Copy`/`MB_CopyLine`/`MB_CropCopy`, `MB_Range`/`MB_depthRange` |
| directions.dfy | Directions | direction numbering and offsets, `getDirections`, `gridNeighbors`, `rotateDirection`, `transposeDirection`, `setDefaultGrid`, the `structuringElement` class |
| pointwise.dfy | Pointwise | the pixelwise operators: `MB_Add`, `MB_Sub`, `MB_Mul`, `MB_ConSub`, `MB_ConMul`, `MB_ConDiv`, `MB_ConSet`, `MB_Inf`, `MB_Sup`, `MB_And`, `MB_Diff`, `MB_Inv`, `MB_Thresh`, `MB_Mask`, `MB_Convert`, `MB_CopyBitPlane`, `MB_Compare` |
| neighbor.dfy | Neighbors | the neighbour dispatch table of `MB_Neighbor.c`, `MB_SupNbb`, `MB_InfNb8`, `MB_DiffNbb`, `MB_BinHitOrMiss` |
| shift.dfy | Shifts | `MB_SupFarNb8`, `MB_InfFarNbb`, `MB_InfFarNb32`, `MB_Shift32`, `MB_Shiftb`, `MB_ShiftVector32`, `MB_SupVectorb` |
| dirbuild.dfy | DirBuild | the directional builds `MB_BldNb8`, `MB_BldNb32` and `MB_DualBldNbb` |
| geodesy.dfy | Geodesy | `buildNeighbor`/`dualbuildNeighbor`, the fixpoint loops `build` and `dualBuild` of geodesy.py, and the characterisation of the geodesic reconstruction and its dual |
| hqueue.dfy | HierQueue | the hierarchical queue as 256 FIFO sequences, visit orders, neighbour tables |
| hierarbld.dfy | HierarBuild | `MB_HierarBld` |
| labelb.dfy | Labelling | the raster scan of `MB_Labelb` with its equivalence table |
| labeltidy.dfy | LabelTidy | the tidy pass (`FIND_CORRECT_LABEL`, `MB_TidyLabel`) and the operator `MB_Labelb` |
| distance.dfy | Distance | `MB_Distanceb` with its forward and backward chamfer passes |
| watershed.dfy | Watershed | `MB_Watershed`: status words, the hierarchical queue, the reinsert list and the control pass |

The main results are these:

- `MB_HierarBld` and the Python `build` both return the geodesic
  reconstruction. This is the least image above `min(marker, mask)`
  that no directional build can raise. It is unique, so the two
  algorithms agree (`HierarBuild.HierarchicalIsIterative`).
- `dualBuild` returns the dual reconstruction, the greatest image below
  `max(marker, mask)` that no dual build can lower.
- `MB_Labelb` gives two set pixels the same label exactly when they are
  connected, and returns the number of distinct labels. This holds for
  lblow >= 1, under the corrected square-grid rule (see Findings), and
  while labels do not wrap around. MB_Labelb also accepts lblow = 0; then
  the first object's first pixel is labelled 0 like the background, and
  the count can be one too high (see Findings).
- `MB_Distanceb` computes the unique solution of the distance equation:
  0 on the background, and elsewhere one more than the least neighbour.
- `MB_Watershed` returns a segmentation. Every pixel carries a marker
  label. Adjacent basin pixels share their label. A labelled watershed
  pixel separates two basins. Once all 256 levels are flooded, every
  pixel is a basin or a watershed pixel.
- Round trips: `MB_Load`/`MB_Extract`, `MB_Convert` from 1 to 8 to 1 bits,
  `MB_Inv` twice, `MB_Sub` after `MB_Add` on 32 bits, the shifts there and
  back, bit planes set then extracted, and `MB_PutPixel`/`MB_GetPixel`.

## Model

| member | source | states |
|---|---|---|
| Common.ErrorCode | src/mambaApi/include/MB_error.h:53-87 | each error's numeric code is its position in the enumeration, from NO_ERR = 0 to ERR_UNKNOWN = 9 |
| Common.RaiseOnError | src/mambaApi/python/mambaError.py:22-29 | a call raises exactly when the core returned something other than NO_ERR, and the exception carries that code |
| Common.GridId | src/commons/mambaCommon.h:160-163 | the square grid is 0 and the hexagonal grid 1, the row index of every dispatch table |
| Common.Neighbors | src/commons/mambaCommon.h:173-183 | the hexagonal grid has 6 neighbours and the square grid 8 |
| Common.EdgeId | src/commons/mambaCommon.h:166-169 | the empty edge is 0 and the filled edge 1 |
| Common.Pair | src/mambaApi/include-private/mambaApi_loc.h:100-101 | the pair code is 128 times the input depth plus the output depth |
| Common.PairConstants | src/mambaApi/include-private/mambaApi_loc.h:67-77 | each named MB_PAIR_x_y constant is the pair code of depths x and y |
| Common.PairInjective | src/mambaApi/include-private/mambaApi_loc.h:100-101 | for legal depths, the pair code determines both depths, so dispatching on it is unambiguous |
| Common.FillValue | src/commons/mambaCommon.h:93-104 | outside the image, a filled edge reads as the depth's maximum and an empty edge reads as 0 |
| Common.WordBits | src/mambaApi/include-private/mambaApi_loc.h:82-89 | the binary word has 32 bits, and its top bit has index SHIFT1BIT = 31 |
| Common.Wrap32 | src/mambaApi/c/MB_Add.c:189-203 | the value an unsigned 32-bit store keeps is below 2^32 and differs from the input by a multiple of 2^32 |
| Common.ToSint16 | src/mambaApi/c/MB_ConSub.c:92-108 | a value stored in a Sint16 lies in [-32768, 32767] and is congruent to the input modulo 2^16 |
| Common.Clamp8 | src/mambaApi/c/MB_Add.c:121-149 | byte saturation gives 0 below the range, 255 above it and the value itself inside |
| Common.Complement | src/mambaApi/c/MB_Inv.c:67-114 | the bitwise complement within a depth is the depth maximum minus the value |
| Common.BitAndComm | src/mambaApi/c/MB_And.c:47-61 | the bitwise AND of naturals is commutative, and zero absorbs it |
| Common.BitOrComm | src/mambaApi/c/MB_Sup.c:73-100 | the bitwise OR is commutative, and zero is its unit |
| Common.BitXorSelf | src/mambaApi/c/MB_Compare.c:111-148 | XOR of a word with itself is zero, which is how the binary compare finds no difference |
| Common.WordBytesRoundTrip | src/mambaApi/c/MB_LoadExtract.c:81-108 | four bytes assembled little-endian into a word split back into the same four bytes |
| Common.BytesWordRoundTrip | src/mambaApi/c/MB_LoadExtract.c:181-208 | splitting a 32-bit word into its four little-endian bytes and reassembling them gives the word back |
| Common.MemsetWord | src/mambaApi/c/MB_Shift32.c:68-71 | the word memset writes with byte b is a 32-bit value whose four bytes are all b |
| Images.Extensionality | src/mambaApi/include-private/mambaApi_loc.h:104-109 | two images with the same header and the same interior pixels are equal |
| Images.Probe | src/mambaApi/include-private/mambaApi_loc.h:100-101 | the pair code of two images is the pair of their depths |
| Images.VolumeMonotone | src/mambaApi/c/MB_BldNb8.c:355-398 | a pointwise smaller image has no larger volume, and a pointwise smaller image of equal volume is the same image |
| Images.LeAntisymmetric | src/mambaApi/python/mambaComposed/geodesy.py:123-141 | two images each pointwise below the other are equal |
| Images.RoundUp32 | src/mambaApi/c/MB_Create.c:82-83 | rounding up to a multiple of m in 32-bit arithmetic gives a multiple of m; it is the next multiple unless that reaches 2^32, in which case it wraps |
| Images.Create | src/mambaApi/c/MB_Create.c:69-135 | the sizes are rounded up to multiples of 64 and 2; a zero rounded size or an area above 2^32 is refused as BadImageDimensions before the depth is checked; any depth other than 1, 8 or 32 is BadDepth; the new image is all zero |
| Images.CreateWrapsWidth | src/mambaApi/c/MB_Create.c:82 | a width of 0xFFFFFFFF wraps to 0 when rounded, so MB_Create refuses it |
| Images.CreateRounded | src/mambaApi/c/MB_Create.c:82-91 | creating an image again with the sizes MB_Create chose gives the same image |
| Images.AllocatedBytes | src/mambaApi/c/MB_Create.c:99-111 | the byte count handed to the allocator is below 2^32, and equals the image's bytes with its edge while width * depth + 7 and that count are below 2^32 |
| Images.CreateAllocationWraps | src/mambaApi/c/MB_Create.c:103-121 | MB_Create accepts 65536 x 65536 at 8 bits, 32768 x 32768 at 32 bits and 134217728 x 2 at 32 bits, and asks for 2228288, 1310784 and 128 bytes where they need 4297195584, 4296278080 and 2147483776 |
| Images.PutPixel | src/mambaApi/c/MB_Pixel.c:96-128 | a position outside the image is BadSize, checked before the depth; the written pixel stores the value as its depth keeps it, and no other pixel changes |
| Images.GetPixel | src/mambaApi/c/MB_Pixel.c:187-217 | it applies the same position and depth checks as PutPixel and returns the stored pixel |
| Images.PutThenGet | src/mambaApi/c/MB_Pixel.c:96-217 | reading back a written pixel returns the stored value, and every other pixel reads as it did before |
| Images.Load | src/mambaApi/c/MB_LoadExtract.c:45-133 | only 8- and 32-bit images load; the byte count must be exactly w*h or 4*w*h, as mamba.py's loadRaw asserts before the call, or the call is LoadData; 32-bit pixels are read little-endian |
| Images.LoadCount | src/mambaApi/c/MB_LoadExtract.c:56-92 | the count MB_Load compares len with is w*h or 4*w*h modulo 2^32, and equals the true count below 2^32 |
| Images.LoadAcceptsAgree | src/mambaApi/c/MB_LoadExtract.c:45-133 | while the image holds fewer than 2^32 bytes, the C length check accepts exactly the buffers Load accepts |
| Images.LoadCountWraps | src/mambaApi/c/MB_LoadExtract.c:56 | on a 65536 x 65536 8-bit image, which MB_Create makes, the count wraps to 0: the C check accepts an empty buffer, while Load refuses it |
| Images.Extract | src/mambaApi/c/MB_LoadExtract.c:144-235 | the bytes are the rows in order, each pixel as its little-endian bytes; a binary image is refused |
| Images.ExtractLength | src/mambaApi/c/MB_LoadExtract.c:168-235 | the reported length is a Uint32: the number of bytes extracted modulo 2^32, equal to it below 2^32, and 0 when the depth is refused |
| Images.ExtractLengthWraps | src/mambaApi/c/MB_LoadExtract.c:192-205 | a 32768 x 32768 32-bit image, which MB_Create makes, holds 2^32 bytes, and MB_Extract reports a length of 0 |
| Images.LoadExtractRoundTrip | src/mambaApi/c/MB_LoadExtract.c:45-235 | loading bytes into an image and extracting them again gives the same bytes |
| Images.ExtractLoadRoundTrip | src/mambaApi/c/MB_LoadExtract.c:45-235 | extracting an image and loading its bytes back gives the same image |
| Images.LittleEndianFixture | src/mambaApi/c/MB_LoadExtract.c:181-208 | the 32-bit pixel 0x11223344 extracts as the bytes 44 33 22 11 |
| Images.Copy | src/mambaApi/c/MB_Copy.c:44-89 | an aliased copy returns at once; otherwise the sizes, then the depths, must match, and the result is the source |
| Images.CopyLine | src/mambaApi/c/MB_Copy.c:99-150 | line indices past either image are BadValue, checked first; an aliased copy of a line onto itself changes nothing; otherwise a size mismatch is BadSize, and on success only the destination line changes, becoming the source line |
| Images.CropCopy | src/mambaApi/c/MB_Copy.c:170-230 | the depth pair is checked first, then an empty request, then a start outside either image; the copied rectangle is the request clipped to both images, and the rest of the destination is unchanged |
| Images.CropCopyWhole | src/mambaApi/c/MB_Copy.c:44-230 | cropping all of a non-empty image onto the origin of an image of the same size and depth gives what MB_Copy gives |
| Images.CropCopySelf | src/mambaApi/c/MB_Copy.c:170-230 | with one image as source and destination, the errors are exactly those of CropCopy, the result has the image's size and depth, and pixels outside the requested block keep their values |
| Images.CropCopySelfAgrees | src/mambaApi/c/MB_Copy.c:216-227 | when the destination block starts no lower than the source block, or the source block ends above it, the in-place copy equals the copy between distinct images |
| Images.CropCopySelfRepeats | src/mambaApi/c/MB_Copy.c:225-227 | moving a block d rows down inside one image, the first d destination rows are the source rows and every later row repeats the row d above it |
| Images.CropCopySelfSmears | src/mambaApi/c/MB_Copy.c:225-227 | copying the top two rows one row down within one image writes row 0 into row 2, where distinct images give row 1 there |
| Images.CopyByLines | src/mambaApi/c/MB_Copy.c:44-150 | copying every line in turn with MB_CopyLine ends with MB_Copy's result |
| Images.DepthRange | src/mambaApi/c/MB_Range.c:191-217 | a depth's range is 0 to the depth maximum, and any other depth is refused |
| Images.Range | src/mambaApi/c/MB_Range.c:40-181 | any depth but 1, 8 or 32 is BadDepth; the reported minimum and maximum bound every pixel, and each is attained by some pixel unless it is still the scan's starting value |
| Directions.GetDirections | src/mambaApi/python/mamba.py:103-115 | the hexagonal grid has directions 0..6, the square grid 0..8, and any other object has none |
| Directions.GridNeighbors | src/mambaApi/python/mamba.py:117-128 | the result is 6 for the hexagonal grid, 8 for the square grid and 0 for anything else |
| Directions.GetDirectionsMatchesCore | src/mambaApi/python/mamba.py:103-128 | the Python direction list is exactly the set of directions the C checks accept, one per neighbour plus the centre |
| Directions.SetDefaultGrid | src/mambaApi/python/mamba.py:87-101 | only a real grid replaces the default; anything else keeps it and issues a warning |
| Directions.RotateDirection | src/mambaApi/python/mamba.py:130-141 | 0 is fixed; any other direction moves `step` places round the neighbours, using Python's never-negative modulo; on an unknown grid the modulo by zero raises |
| Directions.RotateIsRotateDirection | src/mambaApi/python/mamba.py:130-141 | on a known grid rotateDirection never raises |
| Directions.RotateCompose | src/mambaApi/python/mamba.py:130-141 | rotating by s and then by t is rotating by s + t |
| Directions.RotateFullTurn | src/mambaApi/python/mamba.py:130-141 | rotating by the number of neighbours leaves every direction in place |
| Directions.TransposeInvolution | src/mambaApi/python/mamba.py:143-149 | transposing a direction twice gives it back |
| Directions.TransposeTable | src/mambaApi/python/mamba.py:143-149 | the transpose pairs 1-5, 2-6, 3-7 and 4-8 on the square grid and 1-4, 2-5 and 3-6 on the hexagonal grid |
| Directions.Offset | src/mambaApi/c/MB_Watershed.c:271-280 | each direction's offset is the one in the sqNbDir and hxNbDir tables; hexagonal diagonals depend on the parity of the row |
| Directions.StepMoves | src/commons/mambaCommon.h:173-183 | every direction other than the centre moves the pixel |
| Directions.StepInjective | src/commons/mambaCommon.h:173-183 | distinct directions lead to distinct neighbours |
| Directions.StepTranspose | src/mambaApi/python/mamba.py:143-149 | a step in a direction followed by a step in its transpose returns to the start, on both grids and on rows of either parity |
| Directions.FarTranspose | src/mambaApi/c/MB_SupFarNb8.c:410-464 | k steps and then k transposed steps return to the start |
| Directions.MakeSE | src/mambaApi/python/mambaComposed/erodil.py:35-61 | a new structuring element keeps each given direction once, in increasing order, with the same set of directions |
| Directions.MakeSEDependsOnlyOnSet | src/mambaApi/python/mambaComposed/erodil.py:35-66 | two lists with the same elements make equal structuring elements |
| Directions.NormalizeSorted | src/mambaApi/python/mambaComposed/erodil.py:45-52 | normalising a list that is already strictly sorted leaves it unchanged |
| Directions.HasZero | src/mambaApi/python/mambaComposed/erodil.py:95-100 | hasZero holds exactly when the centre belongs to the element |
| Directions.WithoutZero | src/mambaApi/python/mambaComposed/erodil.py:79-93 | dropping the centre keeps the other directions, in order |
| Directions.RotateSE | src/mambaApi/python/mambaComposed/erodil.py:102-117 | the rotated element holds exactly the rotations of the element's directions |
| Directions.TransposeSEMember | src/mambaApi/python/mambaComposed/erodil.py:119-132 | a direction belongs to the transposed element exactly when it is a direction of the grid whose transpose belongs to the element |
| Directions.TransposeSETwice | src/mambaApi/python/mambaComposed/erodil.py:119-132 | transposing a structuring element twice gives it back |
| Directions.TriangleTransposed | src/mambaApi/python/mambaComposed/erodil.py:165 | the transposed TRIANGLE [0,3,4] is [0,1,6] |
| Directions.SegmentRotated | src/mambaApi/python/mambaComposed/erodil.py:168 | rotating SEGMENT [0,3] by one step gives [0,4] |
| Directions.MakeSEDropsDuplicates | src/mambaApi/python/mambaComposed/erodil.py:45-52 | a list with duplicates is reduced to each direction once, sorted |
| Directions.TripodWithoutZero | src/mambaApi/python/mambaComposed/erodil.py:167 | TRIPOD without its centre is [1,3,5] |
| Pointwise.InvertInvolution | src/mambaApi/c/MB_Inv.c:67-114 | complementing a value of the depth twice gives it back |
| Pointwise.WrapAddSub | src/mambaApi/c/MB_Sub.c:160-174 | subtracting modulo 2^32 what was added modulo 2^32 gives the first operand back |
| Pointwise.Or | src/mambaApi/c/MB_Add.c:284-384 | binary OR of two binary images of the same size into a binary destination; other depths are refused |
| Pointwise.And | src/mambaApi/c/MB_And.c:70-109 | the sizes are checked, then equal source depths; each pixel is the bitwise AND of the source pixels |
| Pointwise.Inf | src/mambaApi/c/MB_Inf.c:110-160 | each pixel is the minimum of the source pixels (AND for binary images), for equal depths only |
| Pointwise.Sup | src/mambaApi/c/MB_Sup.c:110-160 | each pixel is the maximum of the source pixels (OR for binary images), for equal depths only |
| Pointwise.Diff | src/mambaApi/c/MB_Diff.c:126-177 | a pixel keeps the first source's value where it exceeds the second's and is 0 elsewhere; on binary images this is AND NOT |
| Pointwise.Inv | src/mambaApi/c/MB_Inv.c:122-166 | each pixel becomes its complement within the depth |
| Pointwise.InvTwice | src/mambaApi/c/MB_Inv.c:122-166 | inverting twice gives the source image back |
| Pointwise.Add | src/mambaApi/c/MB_Add.c:284-384 | the sources are ordered so that the second is the deeper one, and the destination must be at least that deep; two binary images are ORed, an 8-bit destination saturates at 255 and a 32-bit one wraps modulo 2^32 |
| Pointwise.AddCommutes | src/mambaApi/c/MB_Add.c:284-384 | swapping the sources of MB_Add changes nothing, error cases included |
| Pointwise.Sub | src/mambaApi/c/MB_Sub.c:238-319 | the destination must be at least as deep as both sources; binary minus binary is the set difference, 8 bits floor at 0 and 32 bits wrap; a binary image cannot be subtracted from a deeper one |
| Pointwise.AddThenSub32 | src/mambaApi/c/MB_Sub.c:238-319 | on 32-bit images, MB_Sub of the same addend undoes MB_Add |
| Pointwise.AddThenSub8 | src/mambaApi/c/MB_Add.c:121-149 | on 8-bit images, MB_Sub undoes MB_Add where the sum did not saturate |
| Pointwise.Mul | src/mambaApi/c/MB_Mul.c:270-371 | binary times binary is AND; a binary source masks the other; 8 times 8 into 8 bits saturates; products into 32 bits wrap |
| Pointwise.MulByBinary | src/mambaApi/c/MB_Mul.c:48-103 | where the binary source is set the product is the other pixel, and elsewhere it is 0 |
| Pointwise.MulCommutes | src/mambaApi/c/MB_Mul.c:270-371 | swapping the sources of MB_Mul changes nothing |
| Pointwise.ConSub8Scalar | src/mambaApi/c/MB_ConSub.c:92-108 | the non-SSE2 kernel: where the exact difference fits in a Sint16 it is clamped to a byte; where it wraps past 32767 the result is 0 |
| Pointwise.ConSub8 | src/mambaApi/c/MB_ConSub.c:53-90 | the SSE2 kernel is the exact difference clamped to [0, 255], whatever the constant |
| Pointwise.ConSub8Agree | src/mambaApi/c/MB_ConSub.c:47-110 | the two builds agree exactly when the difference is below 32768 |
| Pointwise.ConSub8Overflow | src/mambaApi/c/MB_ConSub.c:99 | 0 minus -32768 gives 0 in the non-SSE2 build and 255 in the SSE2 build |
| Pointwise.ConSub | src/mambaApi/c/MB_ConSub.c:166-213 | an 8-bit pixel becomes the difference with the constant truncated to 16 bits, clamped to a byte; a 32-bit result wraps; the 8-to-32 pair keeps the exact difference modulo 2^32 |
| Pointwise.ConSubFixtures | src/mambaApi/c/MB_ConSub.c:166-213 | subtracting i from 255 gives 255 - i, subtracting -255 from 0 gives 255, and 0 - 1 into 32 bits gives 2^32 - 1 |
| Pointwise.ConMul8AsWritten | src/mambaApi/c/MB_ConMul.c:47-68 | the product is kept modulo 2^32 and then capped at 255; while it fits in 32 bits this is the product capped at 255 |
| Pointwise.ConMul8 | src/mambaApi/c/MB_ConMul.c:47-68 | the intended kernel: the product saturating at 255 |
| Pointwise.ConMul8Agree | src/mambaApi/c/MB_ConMul.c:58 | the two kernels agree whenever the product fits in 32 bits |
| Pointwise.ConMul8Overflow | src/mambaApi/c/MB_ConMul.c:58 | 2 times 2^31 gives 0 as written and 255 saturating |
| Pointwise.ConMul | src/mambaApi/c/MB_ConMul.c:101-141 | as written: an 8-bit pixel becomes min((p * value) mod 2^32, 255) and a 32-bit pixel (p * value) mod 2^32; other pairs and sizes are refused |
| Pointwise.ConMulSaturating | src/mambaApi/c/MB_ConMul.c:101-141 | the corrected operator, with 8-bit pixels min(p * value, 255) |
| Pointwise.ConMulAgree | src/mambaApi/c/MB_ConMul.c:58 | for every constant up to 0x01010101 the as-written and corrected operators give the same image |
| Pointwise.ConDiv | src/mambaApi/c/MB_ConDiv.c:103-149 | a zero divisor is BadValue, checked before the depth; each pixel is the floor of the quotient, with the 8-bit divisor clamped to 255 |
| Pointwise.ConDivUndoesConMul | src/mambaApi/c/MB_ConDiv.c:103-149 | on 32-bit images, MB_ConDiv by a constant undoes MB_ConMul by the same constant while no product wraps past 2^32 |
| Pointwise.ConSetPattern | src/mambaApi/c/MB_ConSet.c:61-105 | the binary pattern is all ones or zero, the 8-bit pattern repeats the byte-clamped value four times, and the 32-bit pattern is the value |
| Pointwise.ConSet | src/mambaApi/c/MB_ConSet.c:61-105 | every pixel becomes the constant as its depth keeps it: 1 for any non-zero value on a binary image, the value capped at 255 on 8 bits, the value itself on 32 bits; only the depth is checked |
| Pointwise.Thresh | src/mambaApi/c/MB_Thresh.c:124-170 | low > high is BadValue; a pixel is set iff its value lies in [low, high], with both bounds truncated to a byte for an 8-bit source |
| Pointwise.ThreshLowBytes | src/mambaApi/c/MB_Thresh.c:154 | for an 8-bit source, bounds with the same low bytes select the same pixels |
| Pointwise.ThreshOn256 | src/mambaApi/c/MB_Thresh.c:154 | on an 8-bit source, thresholding on [0, 256] selects the same pixels as [0, 0] |
| Pointwise.ThreshInv | src/mambaApi/c/MB_Thresh.c:124-170 | thresholding the inverted image on the mirrored range selects the same pixels as thresholding the image on the range |
| Pointwise.Mask | src/mambaApi/c/MB_Mask.c:110-147 | a set pixel becomes maskt and a clear one maskf, both truncated to a byte for an 8-bit destination |
| Pointwise.MaskThenThresh | src/mambaApi/c/MB_Mask.c:110-147 | masking a binary image with two different bytes and thresholding on the second gives the binary image back |
| Pointwise.ConSetThenThresh | src/mambaApi/c/MB_ConSet.c:61-105 | a constant image thresholded on its own stored value is set everywhere |
| Pointwise.Convert | src/mambaApi/c/MB_Convert.c:51-166 | equal depths copy; binary to 8 bits maps 1 to 255; 8 bits to binary sets exactly the pixels equal to 255; pairs involving 32 bits are refused |
| Pointwise.ConvertRoundTrip | src/mambaApi/c/MB_Convert.c:92-166 | a binary image converted to 8 bits and back is unchanged, and only the byte 255 converts to a set pixel |
| Pointwise.ExtractBitPlane | src/mambaApi/c/MB_CopyBitPlane.c:66-69 | the result is bit pos of the byte, 0 or 1 |
| Pointwise.SetBitPlane | src/mambaApi/c/MB_CopyBitPlane.c:44-58 | the result is a byte whose bit pos is the given bit |
| Pointwise.SetThenExtract | src/mambaApi/c/MB_CopyBitPlane.c:44-69 | setting bit pos and then extracting it gives the bit, and every other plane is unchanged |
| Pointwise.CopyBitPlane | src/mambaApi/c/MB_CopyBitPlane.c:197-223 | sizes first, then a plane above 7 is BadParameter, then any pair but 1/8 or 8/1 is BadDepth; binary to 8 bits puts each binary pixel into bit `plane` and keeps the other seven planes, and 8 bits to binary extracts bit `plane` |
| Pointwise.Compare | src/mambaApi/c/MB_Compare.c:159-234 | the result is the first raster position where the images differ, with every earlier pixel equal; the destination gets the source value there, or a 1 for binary images; identical images report (-1, -1) and leave the destination as it was |
| Neighbors.SwitchToMatchesOffsets | src/mambaApi/c/MB_Neighbor.c:555-588 | for every direction the checks admit, the dispatched routine reads the neighbour in that direction, and the do-nothing stub is never reached |
| Neighbors.NeighborOp | src/mambaApi/c/MB_SupNbb.c:186-237 | the sizes, the direction and then the depth pair are checked; without aliasing the count becomes 1; the centre direction makes exactly one pass |
| Neighbors.SupNbb | src/mambaApi/c/MB_SupNbb.c:186-237 | each binary pixel is ORed with its neighbour, reading the edge value beyond the frame |
| Neighbors.InfNb8 | src/mambaApi/c/MB_InfNb8.c:240-291 | each byte pixel becomes the minimum of itself and its neighbour |
| Neighbors.InfNbb | src/mambaApi/c/MB_BinHitOrMiss.c:83-102 | binary neighbour minimum, with the checks and shape of MB_InfNb8 |
| Neighbors.DiffNbb | src/mambaApi/c/MB_DiffNbb.c:178-218 | each binary pixel becomes pixel AND NOT neighbour, in one pass |
| Neighbors.CountIgnoredWithoutAlias | src/mambaApi/c/MB_SupNbb.c:214-223 | when source and destination differ, every count gives the result of a single pass |
| Neighbors.AliasedIterates | src/mambaApi/c/MB_Neighbor.c:79-100 | aliased, count passes are one pass followed by count - 1 passes on its own result |
| Neighbors.AliasedCountZero | src/mambaApi/c/MB_Neighbor.c:79-100 | aliased, a count of 0 changes nothing |
| Neighbors.CentreIsPointwise | src/mambaApi/c/MB_Neighbor.c:519-529 | the centre direction combines each pixel with itself in the source, whatever the count |
| Neighbors.PassDuality | src/mambaApi/c/MB_InfNb8.c:240-291 | complementing, taking the neighbour minimum with the complemented edge and complementing again is the neighbour maximum |
| Neighbors.SupOfEmptyMarksBorder | src/mambaApi/c/MB_SupNbb.c:81-91 | on an empty binary image with a filled edge, the neighbour maximum sets exactly the pixels whose neighbour lies beyond the frame |
| Neighbors.InfOfFullClearsBorder | src/mambaApi/c/MB_InfNb8.c:93-115 | on a full image with an empty edge, the neighbour minimum clears exactly the pixels whose neighbour lies beyond the frame |
| Neighbors.InfOfFullFilledEdge | src/mambaApi/c/MB_InfNb8.c:93-115 | with a filled edge, a full image is left unchanged by the neighbour minimum |
| Neighbors.HmtStepMatches | src/mambaApi/c/MB_BinHitOrMiss.c:93-102 | one step keeps a set pixel set exactly when its neighbour in that direction meets that direction's condition |
| Neighbors.HmtFromMatches | src/mambaApi/c/MB_BinHitOrMiss.c:91-104 | after the loop, a pixel is set exactly when it was set and each neighbour in the remaining directions meets its condition |
| Neighbors.BinHitOrMiss | src/mambaApi/c/MB_BinHitOrMiss.c:59-106 | sizes, then depths, then aliasing (BadParameter) are checked; a pixel is set exactly when every pixel es1 names is set and every pixel es0 alone names is clear, with es1 taking priority |
| Neighbors.HmtCentreIsIdentity | src/mambaApi/c/MB_BinHitOrMiss.c:83-89 | with only the centre in es1, the transform returns its source |
| Neighbors.HmtCentreIsComplement | src/mambaApi/c/MB_BinHitOrMiss.c:83-89 | with only the centre in es0, the transform is the complement of its source |
| Neighbors.HmtMoreHitsShrinks | src/mambaApi/c/MB_BinHitOrMiss.c:91-104 | requiring more set neighbours can only remove pixels from the result |
| Shifts.ShiftTransposedReadsFar | src/mambaApi/c/MB_SupFarNb8.c:410-464 | shifting towards the transposed direction brings each pixel its far neighbour in the requested direction |
| Shifts.FarOp | src/mambaApi/c/MB_SupFarNb8.c:410-464 | sizes, direction and depth pair are checked; a count of 0 is the pointwise operator; otherwise each pixel is combined with the pixel count steps away, or with the edge value |
| Shifts.FarZeroIsPointwise | src/mambaApi/c/MB_SupFarNb8.c:410-464 | the pointwise maximum or minimum equals the far pass with no step |
| Shifts.SupFarNb8 | src/mambaApi/c/MB_SupFarNb8.c:410-464 | each byte pixel becomes the maximum of itself and the pixel count steps away |
| Shifts.InfFarNbb | src/mambaApi/c/MB_InfFarNbb.c:212-266 | each binary pixel is ANDed with the pixel count steps away |
| Shifts.InfFarNb32 | src/mambaApi/c/MB_InfFarNb32.c:174-228 | each 32-bit pixel becomes the minimum of itself and the pixel count steps away |
| Shifts.FarOneIsNeighbor | src/mambaApi/c/MB_SupNbb.c:186-237 | a far operator with a count of 1 is the one-pass neighbour operator |
| Shifts.FarOpStepsCompose | src/mambaApi/c/MB_SupFarNb8.c:410-464 | count steps and then one more step reach the pixel count + 1 steps away |
| Shifts.Shift32 | src/mambaApi/c/MB_Shift32.c:162-208 | a count of 0 copies; otherwise pixel p takes the pixel count steps back, vacated line ends take the fill value, and vacated lines take the low byte of the fill in every byte |
| Shifts.Shiftb | src/mambaApi/c/MB_Shiftb.c:197-255 | the binary shift; any non-zero fill fills with ones |
| Shifts.Shift32Back | src/mambaApi/c/MB_Shift32.c:162-208 | shifting by count in d and then in the transposed direction restores every pixel whose source stayed in the frame |
| Shifts.FirstPixelSources | src/mambaApi/c/MB_Shift32.c:83-133 | a shift down by one line fills the first line from outside the frame, and a shift right by one pixel does the same for the first column |
| Shifts.Shift32VacatedPixels | src/mambaApi/c/MB_Shift32.c:68-99 | vacated lines repeat the fill's low byte while vacated line ends get the fill exactly |
| Shifts.LineFillOf256 | src/mambaApi/c/MB_Shift32.c:68-71 | with fill 0x100, a vacated line reads 0 while a vacated column reads 0x100 |
| Shifts.ShiftVector32 | src/mambaApi/c/MB_ShiftVector32.c:158-191 | each pixel takes the pixel (dx, dy) back, or the fill beyond the frame; there is no direction check |
| Shifts.ShiftVectorBack | src/mambaApi/c/MB_ShiftVector32.c:158-191 | shifting by (dx, dy) and back by (-dx, -dy) restores every pixel whose shifted position stayed in the frame |
| Shifts.SupVectorb | src/mambaApi/c/MB_SupVectorb.c:208-241 | each binary pixel is ORed with the pixel the vector shift brings to it |
| Shifts.SupVectorNullIsSup | src/mambaApi/c/MB_SupVectorb.c:208-241 | with the null vector, MB_SupVectorb is the pointwise OR |
| DirBuild.BuildAt | src/mambaApi/c/MB_BldNb8.c:47-87 | the rebuilt value is min(mask, max(germ, rebuilt upstream neighbour)); past the frame the neighbour is the empty edge |
| DirBuild.DualAt | src/mambaApi/c/MB_DualBldNbb.c:51-75 | the dual value is max(mask, min(germ, rebuilt upstream neighbour)); past the frame the neighbour is the filled edge |
| DirBuild.BuildImageBelow | src/mambaApi/c/MB_BldNb8.c:47-87 | the directional build never exceeds the mask |
| DirBuild.BuildImageExtensive | src/mambaApi/c/MB_BldNb8.c:47-87 | from a germ below the mask the build only raises pixels |
| DirBuild.DualImageAbove | src/mambaApi/c/MB_DualBldNbb.c:51-75 | the dual build never goes below the mask |
| DirBuild.DualImageShrinks | src/mambaApi/c/MB_DualBldNbb.c:51-75 | from a germ above the mask the dual build only lowers pixels |
| DirBuild.BldNb8 | src/mambaApi/c/MB_BldNb8.c:355-398 | sizes, direction and the 8/8 pair are checked; the image is rebuilt along the direction and its volume returned |
| DirBuild.BldNb32 | src/mambaApi/c/MB_BldNb32.c:266-309 | the same for the 32/32 pair |
| DirBuild.DualBldNbb | src/mambaApi/c/MB_DualBldNbb.c:264-307 | a binary pixel is set exactly where the mask is set, or where the germ and its rebuilt upstream neighbour (or the filled edge) are set |
| DirBuild.BuildAtIdempotent | src/mambaApi/c/MB_BldNb8.c:355-398 | the rebuilt image is a fixpoint of its own directional build |
| DirBuild.BuildIdempotent | src/mambaApi/c/MB_BldNb8.c:355-398 | the directional build applied twice equals the build applied once |
| DirBuild.BuildAtMonotone | src/mambaApi/c/MB_BldNb8.c:47-87 | a larger germ rebuilds to a larger image under the same mask |
| DirBuild.DualityImages | src/mambaApi/c/MB_DualBldNbb.c:264-307 | pixel by pixel, the dual build and the build of the complements add up to the depth maximum |
| DirBuild.DualBuildIsInvertedBuild | src/mambaApi/c/MB_DualBldNbb.c:264-307 | MB_DualBldNbb of a mask and a germ is the binary build of their inverses, inverted |
| Geodesy.BuildNeighbor | src/mambaApi/python/mamba.py:935-957 | the build the mask depth selects succeeds exactly for same-size, same-depth images and a direction of the grid, otherwise the core's error is raised |
| Geodesy.DualBuildNeighbor | src/mambaApi/python/mamba.py:959-981 | the dual build the mask depth selects, with the same error cases |
| Geodesy.BuildPassBounded | src/mambaApi/python/mambaComposed/geodesy.py:136-141 | a pass of builds keeps the image valid and below the mask |
| Geodesy.BuildPassExtensive | src/mambaApi/python/mambaComposed/geodesy.py:136-141 | from an image below the mask, a pass only raises pixels |
| Geodesy.DualPassBounded | src/mambaApi/python/mambaComposed/geodesy.py:156-161 | a pass of dual builds keeps the image valid and above the mask |
| Geodesy.DualPassShrinks | src/mambaApi/python/mambaComposed/geodesy.py:156-161 | from an image above the mask, a dual pass only lowers pixels |
| Geodesy.BuildPassFixed | src/mambaApi/python/mambaComposed/geodesy.py:136-141 | a pass that returns to its starting image leaves that image unchanged in every direction |
| Geodesy.PropagatedStable | src/mambaApi/c/MB_HierarBld.c:216-294 | an image below the mask that no neighbour step can raise is left unchanged by every directional build |
| Geodesy.BuildStablePropagated | src/mambaApi/python/mambaComposed/geodesy.py:123-141 | conversely, an image no directional build changes cannot be raised by any neighbour step |
| Geodesy.ReconstructionUnique | src/mambaApi/python/mambaComposed/geodesy.py:123-141 | the geodesic reconstruction is unique |
| Geodesy.BuildPassUnder | src/mambaApi/python/mambaComposed/geodesy.py:136-141 | a pass of builds never passes any candidate of its starting image |
| Geodesy.BuildPassCovers | src/mambaApi/python/mambaComposed/geodesy.py:136-141 | a pass of builds covers min(start, mask) |
| Geodesy.Build | src/mambaApi/python/mambaComposed/geodesy.py:123-141 | size and depth mismatches raise; otherwise the result is the geodesic reconstruction: the least image above min(inout, mask) that no neighbour step can raise, below the mask and, if inout was below the mask, above inout |
| Geodesy.DualReconstructionUnique | src/mambaApi/python/mambaComposed/geodesy.py:143-161 | the dual reconstruction is unique |
| Geodesy.DualPassOver | src/mambaApi/python/mambaComposed/geodesy.py:156-161 | a pass of dual builds never drops below a candidate of its start |
| Geodesy.DualPassWithin | src/mambaApi/python/mambaComposed/geodesy.py:156-161 | a pass of dual builds stays within max(start, mask) |
| Geodesy.DualStablePropagated | src/mambaApi/python/mambaComposed/geodesy.py:143-161 | an image no dual build changes cannot be lowered by any neighbour step |
| Geodesy.DualBuild | src/mambaApi/python/mambaComposed/geodesy.py:143-161 | size and depth mismatches raise; otherwise the result is the dual reconstruction: the greatest image within max(inout, mask) that no neighbour step can lower, above the mask and, if inout was above the mask, below inout |
| HierQueue.Enqueue | src/mambaApi/c/MB_HierarBld.c:91-122 | a token goes to the back of its level's list, and the other lists are unchanged |
| HierQueue.DownwardLevels | src/mambaApi/c/MB_HierarBld.c:307-322 | levels never rise along the downward visit |
| HierQueue.UpwardLevels | src/mambaApi/c/MB_Watershed.c:446-461 | levels never fall along the upward visit |
| HierQueue.NbDirTables | src/mambaApi/c/MB_Watershed.c:271-280 | the neighbour tables give the same neighbours as the direction offsets, with the hexagonal row chosen by y % 2 |
| HierarBuild.RaisedLeast | src/mambaApi/c/MB_HierarBld.c:216-250 | raising a neighbour to min(current value, its mask) never passes any candidate reconstruction |
| HierarBuild.Process | src/mambaApi/c/MB_HierarBld.c:216-294 | the token of a pixel already final is skipped; otherwise the pixel becomes final at the water level and every candidate neighbour is raised and queued, keeping the flooding invariant |
| HierarBuild.LevelDone | src/mambaApi/c/MB_HierarBld.c:307-322 | once a level's list is read to its end, no candidate or queued pixel remains at that level |
| HierarBuild.Flood | src/mambaApi/c/MB_HierarBld.c:307-322 | the levels are flooded from 255 down to 0, each list read front to back; the read order is the downward visit, and at the end every pixel is final |
| HierarBuild.Init | src/mambaApi/c/MB_HierarBld.c:177-202 | every pixel is clipped by the mask and queued at its clipped value in raster order, and every pixel starts as a candidate |
| HierarBuild.RasterTokensMembers | src/mambaApi/c/MB_HierarBld.c:177-202 | the list of level l starts with exactly the pixels of value l |
| HierarBuild.ClipReconstruction | src/mambaApi/c/MB_HierarBld.c:177-202 | clipping the marker by the mask does not change its reconstruction |
| HierarBuild.HierarBld | src/mambaApi/c/MB_HierarBld.c:338-399 | a size mismatch is BadSize and any pair but 8/8 is BadDepth; otherwise the result is the geodesic reconstruction of srcdest under the mask, between min(srcdest, mask) and the mask |
| HierarBuild.HierarchicalIsIterative | src/mambaApi/python/mamba.py:1384-1400 | on 8-bit images the hierarchical build and the iterative build both succeed and return the same image |
| Labelling.AdjacentSteps | src/commons/mambaCommon.h:173-183 | the neighbours are exactly the pixels one step away in a direction of the grid |
| Labelling.LinkedSymmetric | src/mambaApi/c/MB_Labelb.c:677-740 | connectivity of set pixels is symmetric |
| Labelling.LinkedTransitive | src/mambaApi/c/MB_Labelb.c:677-740 | connectivity of set pixels is transitive |
| Labelling.CausalShape | src/mambaApi/c/MB_Labelb.c:382-530 | the cells the line labelers read are exactly the neighbours scanned before p, and consecutive cells above touch each other |
| Labelling.JoinRoots | src/mambaApi/c/MB_Labelb.c:79-86 | after the union of root a into b, a pixel's root changes exactly when it was a |
| Labelling.VisitShape | src/mambaApi/c/MB_Labelb.c:382-530 | a visit labels p and keeps the equivalence table well formed |
| Labelling.VisitSound | src/mambaApi/c/MB_Labelb.c:382-530 | a visit only joins the classes of connected pixels |
| Labelling.VisitComplete | src/mambaApi/c/MB_Labelb.c:167-530 | under the corrected rule, or the code's rule on the hexagonal grid, a visit puts p in the class of each labelled neighbour |
| Labelling.ScanCorrect | src/mambaApi/c/MB_Labelb.c:550-609 | after the scan, every set pixel is labelled; under the corrected rule, or on the hexagonal grid, two set pixels share a root exactly when they are connected |
| Labelling.ScanLabels | src/mambaApi/c/MB_Labelb.c:550-609 | the scan opens at most one label per pixel |
| Labelling.VShapeConnected | src/mambaApi/c/MB_Labelb.c:440-445 | the V of three pixels is one 8-connected object |
| Labelling.VShapeSplits | src/mambaApi/c/MB_Labelb.c:440-445 | the square labeler as written leaves the two arms of the V with different roots |
| Labelling.DotRowLabels | src/mambaApi/c/MB_Labelb.c:114-153 | on a row of isolated dots, every dot opens a label of its own |
| Labelling.DotRowOverflows | src/mambaApi/c/MB_Labelb.c:704 | a 64 x 2 image of 32 dots opens label 32 while the tables hold 32 entries, so EQ[32] is written past the end |
| Labelling.LabelCapacity | src/mambaApi/c/MB_Labelb.c:704 | tables of width * height + 1 entries hold every label the scan opens, for any image, grid and rule |
| Labelling.CapacitySuffices | src/mambaApi/c/MB_Labelb.c:704-714 | with width * height + 1 entries, every label index stays inside the tables |
| LabelTidy.FormulaLow | src/mambaApi/c/MB_Labelb.c:92-102 | the low byte of every corrected label lies in [lblow, lbhigh), even after the 32-bit wrap |
| LabelTidy.FormulaNonZero | src/mambaApi/c/MB_Labelb.c:92-102 | with lblow >= 1, no corrected label is 0, the background value |
| LabelTidy.FormulaInjective | src/mambaApi/c/MB_Labelb.c:92-102 | distinct classes get distinct corrected labels while no label wraps |
| LabelTidy.TidyAllCorrect | src/mambaApi/c/MB_Labelb.c:627-643 | after the tidy pass, every set pixel and nothing else carries the corrected label of its class, and every class has been met |
| LabelTidy.LabelImageLow | src/mambaApi/c/MB_Labelb.c:717-731 | the labelled image is a valid 32-bit image, 0 on unset pixels, and every label's low byte lies in [lblow, lbhigh) |
| LabelTidy.LabelsLinked | src/mambaApi/c/MB_Labelb.c:627-643 | with lblow >= 1 and while no label wraps, two set pixels carry the same label exactly when they are connected |
| LabelTidy.LabelsCount | src/mambaApi/c/MB_Labelb.c:733 | with lblow >= 1 and while no label wraps, the returned count is the number of distinct labels in the image |
| LabelTidy.LabelImageClasses | src/mambaApi/c/MB_Labelb.c:627-733 | with lblow >= 1 set pixels are nonzero; while no label wraps, labels follow connectivity and the count is the number of distinct labels |
| LabelTidy.Labelb | src/mambaApi/c/MB_Labelb.c:677-740 | BadSize, then anything but the 1/32 pair is BadDepth, then lblow >= lbhigh or lbhigh > 256 is BadValue; otherwise the result is a labelled image with its object count: 0 off the set pixels and low bytes in [lblow, lbhigh) for every lblow, and for lblow >= 1 the nonzero, connectivity and count results above |
| LabelTidy.ZeroLowSplits | src/mambaApi/c/MB_Labelb.c:92-102 | with lblow = 0 the first class met gets label 0, the "not met yet" mark of CEQ: of two pixels of one class the first is written 0 and the second 1, and ccurrent reaches 2 |
| LabelTidy.LabelbChecked | src/mambaApi/c/MB_Labelb.c:677-740 | MB_Labelb with lblow = 0 refused as BadValue: every set pixel is nonzero and, while no label wraps, labels follow connectivity and the count is the number of distinct labels |
| LabelTidy.LabelbCheckedAgrees | src/mambaApi/c/MB_Labelb.c:698-699 | for lblow >= 1 the checked operator returns exactly what MB_Labelb returns |
| Distance.EdgeValue | src/mambaApi/c/MB_Distanceb.c:114-115 | beside the image the passes read EDGE_DIST for a filled edge and 0 for an empty one |
| Distance.Least | src/mambaApi/c/MB_Distanceb.c:71-86 | FIND_MIN returns one of its arguments, at most each of them |
| Distance.ForwardRule | src/mambaApi/c/MB_Distanceb.c:538-634 | in the forward pass, a set pixel whose earlier neighbours are set takes one more than the least of them |
| Distance.BackwardRule | src/mambaApi/c/MB_Distanceb.c:646-739 | the backward pass keeps the least of the forward value and one more than each later neighbour |
| Distance.ZeroIffUnset | src/mambaApi/c/MB_Distanceb.c:761-863 | a pixel is 0 after either pass exactly when it is unset |
| Distance.CausalBelow | src/mambaApi/c/MB_Distanceb.c:761-863 | the final value never exceeds one more than an earlier neighbour's, although the backward pass does not read those neighbours |
| Distance.NeighbourBelow | src/mambaApi/c/MB_Distanceb.c:761-863 | a set pixel's result is at most one more than any neighbour's |
| Distance.NeighbourWitness | src/mambaApi/c/MB_Distanceb.c:761-863 | a set pixel's result is exactly one more than some neighbour's |
| Distance.PassesSolve | src/mambaApi/c/MB_Distanceb.c:761-863 | the two passes together solve the distance equation on every pixel |
| Distance.PassesUnique | src/mambaApi/c/MB_Distanceb.c:761-863 | the distance equation has exactly one solution, the one the passes compute |
| Distance.ForwardBound | src/mambaApi/c/MB_Distanceb.c:538-634 | along a line, the forward pass grows by at most one per pixel from the left edge value |
| Distance.Distanceb | src/mambaApi/c/MB_Distanceb.c:898-932 | BadSize, then anything but the 1/32 pair is BadDepth; otherwise the 32-bit result solves the distance equation, is 0 exactly on the unset pixels, and fits in 32 bits for images narrower than 2^32 - 1 - EDGE_DIST |
| Distance.DistancebUnique | src/mambaApi/c/MB_Distanceb.c:898-932 | any function that solves the distance equation agrees with the operator's result |
| Watershed.Code | src/mambaApi/c/MB_Watershed.c:43-49 | every status code is a multiple of 2^24 and at most WTS_LAB |
| Watershed.CodeInjective | src/mambaApi/c/MB_Watershed.c:43-49 | the four status codes are distinct |
| Watershed.WordReads | src/mambaApi/c/MB_Watershed.c:52-56 | a word built from a status and a label reads back that label with READ_LABEL and that status with IS_PIXEL |
| Watershed.SetStatusReads | src/mambaApi/c/MB_Watershed.c:54 | SET_STATUS keeps the label and installs the status |
| Watershed.Inspect | src/mambaApi/c/MB_Watershed.c:294-432 | the pixel takes the label of the first basin neighbour, a later basin neighbour with another label makes it a watershed pixel, and candidate neighbours are collected for reinsertion |
| Watershed.Reinsert | src/mambaApi/c/MB_Watershed.c:245-264 | the reinsert list is pushed in the order it was found: each token joins the back of its level's list, becomes queued, and nothing else changes |
| Watershed.PushAllInv | src/mambaApi/c/MB_Watershed.c:115-154 | pushing a basin pixel's candidate neighbours keeps the flooding invariant |
| Watershed.JoiningGrown | src/mambaApi/c/MB_Watershed.c:115-154 | a pushed token never joins a list below the current level |
| Watershed.Process | src/mambaApi/c/MB_Watershed.c:294-432 | the token's pixel is decided as a basin or a watershed pixel, and only a basin pixel queues its candidate neighbours; nothing else changes |
| Watershed.ProcessedEnclosed | src/mambaApi/c/MB_Watershed.c:294-432 | after processing, no candidate pixel touches a basin pixel |
| Watershed.Flooding | src/mambaApi/c/MB_Watershed.c:446-461 | levels 0 to maxLevel - 1 are read in turn, each list front to back including tokens pushed while it is read; the read order is the upward visit |
| Watershed.Init | src/mambaApi/c/MB_Watershed.c:161-184 | in raster order, every seed is queued at level 0 with its label kept, and every other pixel becomes a candidate |
| Watershed.ControlPass | src/mambaApi/c/MB_Watershed.c:470-489 | every candidate left becomes a watershed pixel with its label kept, and nothing else changes |
| Watershed.Drained | src/mambaApi/c/MB_Watershed.c:446-461 | once all 256 levels are read, no pixel is queued |
| Watershed.ControlFinal | src/mambaApi/c/MB_Watershed.c:470-489 | the control pass keeps the segmentation and leaves every pixel a basin or a watershed pixel |
| Watershed.OutputReads | src/mambaApi/c/MB_Watershed.c:52-56 | the words of the output image read back as the cells of the final state |
| Watershed.Watershed | src/mambaApi/c/MB_Watershed.c:515-574 | BadSize, then anything but the 8/32 pair is BadDepth, then maxLevel > 256 is BadValue; otherwise the output is a segmentation of the marker labels, complete when maxLevel is 256, and the tokens were read level by level upward, FIFO within a level, starting from the seeds |

## Left out

- Bit packing, line margins, register-boundary handling and the SSE2
  branches: every operator is modelled per pixel. The one place where the
  SSE2 and scalar builds compute different values is modelled twice (see
  `ConSub` below).
- `ConSub`: models the SSE2 build of MB_ConSub.c, whose 8-bit kernel
  clamps the exact difference. The non-SSE2 build keeps the difference
  in a Sint16 (MB_ConSub.c:92-108). That build is modelled as
  `Pointwise.ConSub8Scalar`, and `Pointwise.ConSub8Agree` says where the
  two agree.
- `Shift32`: takes the count as a natural. MB_Shift32.c:86-99 passes
  the Uint32 count on as a Sint32, so a count of 2^31 or more is negative
  there and moves the read pointer before the line. That case is not
  modelled.
- `Shiftb`, `ShiftVector32`, `SupVectorb` and the far-neighbour
  operators: their counts and vectors are natural or integer values
  without the Sint32 reinterpretation either.
- `InfNbb`: MB_InfNbb.c is not part of this model. The operator is
  taken to have the shape of MB_InfNb8 with the binary depth pair, which
  is how MB_BinHitOrMiss.c:83-102 uses it.
- `Or`: MB_Or.c is not part of this model. It is taken to check sizes
  and depths the way MB_And does and to compute the pixelwise OR.
- `DualBuildNeighbor`: MB_DualBldNb8.c and MB_DualBldNb32.c are not part
  of this model. The 8- and 32-bit dual builds are assumed to follow
  MB_DualBldNbb with the depth maximum as the filled edge.
- `BuildAt`: MB_BldDirection.c, which propagates values along a
  direction, is not part of this model. The directional build is
  modelled as the recursion along the direction that MB_BldNb8.c's line
  routines imply. For the same reason the shift and far-neighbour
  models assume MB_ShftDirection.c reads the pixel count steps back.
- `Distanceb`: the distance values are unbounded naturals. The 32-bit
  wrap of `+ 1` is excluded by the width bound in its last ensures. The
  hexagonal passes assume an even number of lines, which MB_Create's
  rounding of the height guarantees.
- `Labelb`: the scan is modelled with the corrected state-10 rule (see
  Findings). Its connectivity and count results are stated only for
  lblow >= 1 and while no label wraps past 2^32. Labels that wrap keep
  their low byte in range but are not proved distinct. For lblow = 0,
  which MB_Labelb.c:698-699 accepts, only the low-byte and background
  results are stated; `LabelTidy.ZeroLowSplits` shows what goes wrong.
- `LabelsLinked`: requires lblow >= 1 and no wrap. With lblow = 0 the
  first pixel of the first object reads 0, so it no longer shares the
  label of its object (see Findings).
- `LabelsCount`: requires lblow >= 1 and no wrap. With lblow = 0 the
  first object is counted twice once it has a second pixel (see
  Findings).
- `Create`: the new image is all zero for every size accepted. MB_Create
  computes the buffer size in Uint32 (MB_Create.c:103,111,121), so near
  2^32 bytes it allocates and clears far fewer bytes than the image
  needs. That count is modelled as `Images.AllocatedBytes` and shown
  by `Images.CreateAllocationWraps`. The allocator takes an int, so a
  count of 2^31 or more would also change sign. MB_aligned_malloc is not
  part of this model, and neither is an allocation failure.
- `CropCopy`: models two distinct images. One image copied into itself is
  `Images.CropCopySelf`. Within a single row the copy is taken as if the
  row were read before it is written. MB_memcpy of overlapping bytes, with
  source and destination in the same row, is undefined in C.
- `Load`: the byte count is compared exactly, as mamba.py's loadRaw
  asserts before calling MB_Load. The C check alone compares modulo 2^32
  (MB_LoadExtract.c:56,92) and, on an image of 2^32 bytes or more, then
  reads past the buffer. `Images.LoadCount` and `Images.LoadAccepts` state
  that check; its out-of-bounds copy is not modelled.
- `Extract`: returns all the bytes of the image. On an image of 2^32
  bytes or more the C allocates the Uint32-wrapped size
  (MB_LoadExtract.c:155,192) and writes past it; that is not modelled.
  `Images.ExtractLength` reports the wrapped length as the C does.
- `HierarBld` and `Watershed`: the token array with MB_LIST_END links is
  represented as one sequence per level. ERR_CANT_ALLOCATE_MEMORY, which
  only a failed allocation returns, is not modelled for any operator.
- `MB_Destroy` and its reference count: memory management, no pixel
  semantics.
- `hierarBuild32` and `hierarDualBuild32` (geodesy.py:257-322), and the
  32-bit slicing drivers `basinSegment32` and `watershedSegment32`
  (segment.py:126-200): not modelled. They drive MB_HierarBld,
  MB_Watershed and the unseen MB_HierarDualBld and MB_Basins level by
  level through lookup tables and copies of byte planes.
- The other geodesy.py operators (geodesic dilate and erode, `minima`,
  `maxima`, `closeHoles`, `removeEdgeParticles`, `geodesicDistance`):
  not modelled. They compose the modelled primitives without logic of
  their own.
- erodil.py `dilate`, `erode` and the shaped erosions and dilations,
  contrasts.py, extrema.py, filter.py, partitions.py, miscellaneous.py
  and segment.py's `markerControlledWatershed`, `fastSKIZ` and `mosaic`:
  not modelled, for the same reason.
- mamba.py `NumpyWrapper` sizing, palettes and `diffNeighbor`'s depth
  guard, and the pure palette and hit-or-miss pattern helpers of
  mambaExtra.py: not modelled. They are Python wrappers around the core.
- `MB3D_Labelb` and the whole mamba3D Python layer: not modelled. The 3D
  labeller follows the 2D scan plane by plane with a 3D neighbourhood,
  and the Python layer applies 2D operators per plane.
- GUI and display code, PIL and file I/O, and the realtime add-ons: they
  are event-driven, device and foreign-library code.
- `measure.py`, `statistic.py` and `mulRealConst`: floating point.

## Findings

| source | as written | input that shows it | evidently intended | confidence | as-written member | corrected member |
|---|---|---|---|---|---|---|
| src/mambaApi/c/MB_Labelb.c:440-445 | on the square grid, state 10 (up-left and up-right set, left and up clear) copies the up-right label and records no equivalence | a 64 x 2 image with pixels (0,0), (2,0) and (1,1): one 8-connected V whose arms keep labels 1 and 2 | also join the up-left label's class with the up-right one's, as the other two-cell states do | not executed | Labelling.VShapeSplits | Labelling.ScanCorrect |
| src/mambaApi/c/MB_Labelb.c:704 | the equivalence tables get width * height / 4 entries | a 64 x 2 image with a dot at every even x of the first line opens labels 1 to 32, and label 32 indexes EQ[32] in a 32-entry table | tables large enough for every label the scan can open, for example width * height + 1 entries | not executed | Labelling.DotRowOverflows | Labelling.CapacitySuffices |
| src/mambaApi/c/MB_ConMul.c:58 | the 8-bit product is kept in a Uint32 before it is compared with 255, so it wraps first | pixel 2 times constant 0x80000000 wraps to 0 and writes 0 | saturate the exact product at 255, writing 255 | not executed | Pointwise.ConMul8Overflow | Pointwise.ConMulAgree |
| src/mambaApi/c/MB_ConSub.c:99 | without SSE2, the 8-bit difference is kept in a Sint16 before it is clamped; storing an out-of-range int in a Sint16 is implementation-defined in C, and the model takes the usual wrap-around | pixel 0 minus constant -32768 wraps to -32768 and writes 0 (the SSE2 build writes 255) | clamp the exact difference, as the SSE2 build does | not executed | Pointwise.ConSub8Overflow | Pointwise.ConSub8 |
| src/mambaApi/c/MB_Labelb.c:96-98 | a CEQ entry of 0 marks a class not yet met, but with lblow = 0, which MB_Labelb.c:698 accepts, the first corrected label is itself 0 | lblow = 0 and one object of two pixels (0,0) and (1,0): they are written 0 and 1, and the count is 2 | never hand out the label 0, for example by refusing lblow = 0 as the Python default of 1 suggests | not executed | LabelTidy.ZeroLowSplits | LabelTidy.LabelbChecked |
| src/mambaApi/c/MB_LoadExtract.c:56 | the byte count height * width is computed in a Uint32 | a 65536 x 65536 8-bit image, which MB_Create accepts: the count wraps to 0, so len = 0 passes the check and 2^32 bytes are then copied out of the buffer (MB_Create has already allocated only 2228288 bytes for this image, see MB_Create.c:111) | compare len with the exact count | not executed | Images.LoadCountWraps | Images.Load |
| src/mambaApi/c/MB_LoadExtract.c:192-205 | the 32-bit byte count height * width * 4 is computed in a Uint32, both for the allocation and for the reported length | a 32768 x 32768 32-bit image, which MB_Create accepts: 2^32 bytes are written into an allocation of size 0 and the length reported is 0 (MB_Create has already allocated only 1310784 bytes for this image, see MB_Create.c:111) | allocate and report the exact count | not executed | Images.ExtractLengthWraps | Images.Extract |
| src/mambaApi/c/MB_Create.c:111 | the buffer size full_w * full_h, and width * depth inside full_w, are computed in Uint32 | a 65536 x 65536 8-bit image, accepted because its area is 2^32: 4297195584 bytes are needed, and 2228288 are allocated and cleared; a 134217728 x 2 32-bit image gets 128 bytes | compute the size in 64 bits, as the area check above it does, and refuse what does not fit | not executed | Images.CreateAllocationWraps | Images.Create |
