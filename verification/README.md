# alkacon-simapi: the GIF output pipeline and its helpers, in Dafny

Simapi is an image library. This project models the parts of it that carry real logic:

- the octree colour quantizer (`Quantize`), which turns a true-colour image into a palette of at most `maxColors` entries and one index per pixel;
- the two GIF encoders: the Acme encoder (`GifAcmeEncoder`) and the dump encoder (`GifEncoder`). Each has its own LZW compressor and its own bit packer;
- the two ImageIO GIF writers that chain the quantizer and an encoder;
- the JPEG segment scanner (`JPEGSegmentUtil`);
- the pure parts of `Simapi`/`SimapiImpl`: the crop and resize geometry, image-type resolution and `write`'s decisions;
- the identicon renderer (`IdentIcon`): the decoding of the hash, the colour rule and the layout of the patches;
- the coordinate arithmetic of `TileImageFilter`.

The model works on immutable values throughout:

- An image is a sequence of ARGB `int`s.
- A GIF file is a sequence of bytes.
- A stream position is an index.
- A Java exception on a modelled path becomes a `Result` or `Option` error value. The exceptions left out are listed under "Left out".

Each operation has a partner it is proved against:

- **Encoders.** Each encoder is proved against a reference GIF reader (`GifFormat.Read`). That reader uses its own LZW decoder (`LzwDecode`), written from the decoding rules of the GIF89a specification (Appendix F) rather than from either encoder. A file the Acme encoder writes reads back as the pixels it was given. The dump encoder's file does so only once its end code is written at the decoder's width (`GifDump.WriteFixed`). As written, it fails on some images; see "Findings".
- **Bit packers.** Each streaming packer (Acme's `output`/`char_out`, the dump `BitFile`) is proved equal to a plain definition: the codes' bits, little-endian, packed into bytes and cut into sub-blocks.
- **Quantizer.** Each phase (classification, reduction passes, palette, assignment) carries the invariants of the octree. Those are: the shape, the pixel counts, the statistics and the colour count. The phases are proved to keep them. The assignment's tree search is proved equal to a linear scan for the first nearest entry among the colour nodes under its starting node, the parent of the deepest node on the pixel's path.
- **JPEG scanner.** The scanner reads back what a segment writer produces, keeping exactly the requested segments.

Java's arithmetic is written out where it matters. Truncating division is `JavaInt.JavaDiv`. Byte casts are `LowByte`/`SignedByte`. Arithmetic shifts and masks are Euclidean division and remainder.

## Model

| member | source | states |
|---|---|---|
| JavaInt.JavaDiv | src/com/alkacon/simapi/util/Quantize.java:605-618 | Java's `/`: the quotient rounds toward zero and the remainder takes the dividend's sign, unlike Dafny's Euclidean division |
| JavaInt.JavaDivNegate | src/com/alkacon/simapi/util/Quantize.java:605-618 | truncating division is odd in its dividend |
| JavaInt.LowByte | src/com/alkacon/simapi/util/Quantize.java:725 | `(byte) x` then `& 0xff` keeps x modulo 256 |
| JavaInt.SignedByte | src-dump/GifEncoder.java:239-254 | a Java byte holding bits b reads as b or b − 256, within −128..127 |
| JavaInt.Word | src/com/alkacon/simapi/util/GifAcmeEncoder.java:520-524 | a 16-bit word written low byte first, the value taken modulo 65536 |
| Octree.Channels | src/com/alkacon/simapi/util/Quantize.java:740-747 | each channel of an ARGB int lies in 0..255, and with alpha-to-bitmask the alpha is 0 below 0x80 and 255 from it |
| Octree.ChannelsOfArgb | src/com/alkacon/simapi/util/Quantize.java:740-745 | splitting a packed ARGB int gives back the packed channels, negative ints included |
| Octree.TreeDepth | src/com/alkacon/simapi/util/Quantize.java:598-620 | the tree depth always lies in 2..8 |
| Octree.DepthDigits | src/com/alkacon/simapi/util/Quantize.java:605-618 | the depth is the number of base-4 digits of maxColors, clamped to 2..8 |
| Octree.DepthOf256 | src/com/alkacon/simapi/util/Quantize.java:605-618 | the writers' 256 colours give depth 5 |
| Octree.DepthNegate | src/com/alkacon/simapi/util/Quantize.java:605-618 | a negative maxColors gives the depth of its magnitude |
| Octree.Select | src/com/alkacon/simapi/util/Quantize.java:760-762 | the child slot is in 0..15, one bit per channel above the midpoint |
| Octree.SelectToward | src/com/alkacon/simapi/util/Quantize.java:362-381 | the selected child's midpoint moves half a cell toward the colour on every channel |
| Octree.ChildCell | src/com/alkacon/simapi/util/Quantize.java:362-381 | a colour inside a node's cell stays inside the cell of the child it selects |
| Octree.ColoursPositive | src/com/alkacon/simapi/util/Quantize.java:463-480 | a subtree that holds pixels holds a node that gets a palette entry |
| OctreeBuild.Descend | src/com/alkacon/simapi/util/Quantize.java:759-776 | the walk keeps the node's level, midpoint, pixel count and number of slots |
| OctreeBuild.DescendStats | src/com/alkacon/simapi/util/Quantize.java:759-776 | a walk adds exactly the pixel's channel totals to the tree |
| OctreeBuild.DescendCount | src/com/alkacon/simapi/util/Quantize.java:763-765 | the node count grows by the nodes created, at most one per level |
| OctreeBuild.DescendShape | src/com/alkacon/simapi/util/Quantize.java:362-381 | after a walk every child still sits one level below its parent, at its midpoint |
| OctreeBuild.DescendConserved | src/com/alkacon/simapi/util/Quantize.java:768 | below the root each node's numPixels still counts the pixels of its subtree |
| OctreeBuild.DescendSane | src/com/alkacon/simapi/util/Quantize.java:771-776 | channel totals stay within 0..255 times unique |
| OctreeBuild.DescendColours | src/com/alkacon/simapi/util/Quantize.java:771-776 | a walk adds no more colour nodes than the leaves it creates, plus the bottom node if it held no pixel yet |
| OctreeBuild.ShallowFits | src/com/alkacon/simapi/util/Quantize.java:808-817 | a tree four levels deep holds at most 69905 nodes, below MAX_NODES |
| OctreeClassify.NewCube | src/com/alkacon/simapi/util/Quantize.java:339-353 | a fresh cube is valid, at depth TreeDepth(maxColors), with no nodes, no colours, no reserved entry and no statistics |
| OctreeClassify.ValveDepth | src/com/alkacon/simapi/util/Quantize.java:751-755 | the node-count valve can fire only on a tree at least five levels deep |
| OctreeClassify.ValveValid | src/com/alkacon/simapi/util/Quantize.java:751-755 | pruning a level keeps the invariant, lowers the depth by one, and leaves at least four levels |
| OctreeClassify.ValveStats | src/com/alkacon/simapi/util/Quantize.java:486-515 | pruning a level loses no pixel statistics |
| OctreeClassify.ClassifyValid | src/com/alkacon/simapi/util/Quantize.java:740-782 | classifying one pixel keeps the invariant |
| OctreeClassify.ClassifyStats | src/com/alkacon/simapi/util/Quantize.java:749-782 | an opaque pixel adds its channels to the totals, and a transparent one adds nothing |
| OctreeClassify.OpaqueBounds | src/com/alkacon/simapi/util/Quantize.java:740-782 | there are no more opaque pixels than pixels, and their totals stay within range |
| OctreeClassify.Classification | src/com/alkacon/simapi/util/Quantize.java:736-784 | the tree holds exactly the opaque pixels' statistics; index 0 is reserved iff some pixel is transparent; the depth stays within bounds |
| OctreePrune.SweepNode | src/com/alkacon/simapi/util/Quantize.java:486-549 | a node is pruned exactly when the cut selects it; its level and midpoint are kept |
| OctreePrune.SweepNodeStats | src/com/alkacon/simapi/util/Quantize.java:486-498 | what is kept plus what is handed to the parent equals what the subtree held |
| OctreePrune.SweepNodeCount | src/com/alkacon/simapi/util/Quantize.java:486-498 | the nodes removed plus the nodes kept equal the nodes there were |
| OctreePrune.SweepNodeColors | src/com/alkacon/simapi/util/Quantize.java:529-549 | the colour count reduce returns is the number of kept nodes with unique ≠ 0 |
| OctreePrune.SweepNodeNext | src/com/alkacon/simapi/util/Quantize.java:529-549 | the returned threshold is the smallest pixel count left, or the one passed in if that is smaller |
| OctreePrune.SweepNodeFewer | src/com/alkacon/simapi/util/Quantize.java:486-498 | pruning never adds a palette colour |
| OctreePrune.SweepNodeShape | src/com/alkacon/simapi/util/Quantize.java:503-515 | pruneLevel leaves a tree one level shallower, and a reduce pass leaves the depth as it was |
| OctreePrune.SweepNodeConserved | src/com/alkacon/simapi/util/Quantize.java:529-549 | kept nodes still count the pixels of their subtrees |
| OctreePrune.SweepNodeSane | src/com/alkacon/simapi/util/Quantize.java:486-498 | merged totals stay within 0..255 times unique |
| OctreePrune.SweepNodeAbove | src/com/alkacon/simapi/util/Quantize.java:529-549 | after a pass every node left has more pixels than the threshold |
| OctreePrune.SweepNodePrunes | src/com/alkacon/simapi/util/Quantize.java:486-498 | a pruned node has no children left, so no populated subtree is ever detached |
| OctreePrune.ShapeClosed | src/com/alkacon/simapi/util/Quantize.java:503-515 | under the shape invariant, the deepest nodes have no children |
| OctreePrune.ConservedClosed | src/com/alkacon/simapi/util/Quantize.java:529-549 | a node holds at least as many pixels as each child, so a pruned node's children were pruned first |
| OctreeReduce.PassValid | src/com/alkacon/simapi/util/Quantize.java:797-804 | a pass keeps the invariant and sets numColors to the reserved entry plus the colour nodes |
| OctreeReduce.PassStats | src/com/alkacon/simapi/util/Quantize.java:797-804 | a pass loses no statistics |
| OctreeReduce.PassNext | src/com/alkacon/simapi/util/Quantize.java:797-804 | the threshold rises strictly, and it reaches MAX_VALUE only once the root has no children |
| OctreeReduce.Collapsed | src/com/alkacon/simapi/util/Quantize.java:797-804 | a childless root holds the whole tree's statistics and is the only possible colour |
| OctreeReduce.Reduction | src/com/alkacon/simapi/util/Quantize.java:797-804 | succeeds iff maxColors holds the reserved entry plus one colour (when there is any); the result is valid, fits maxColors and keeps the statistics; a cube that already fits comes back unchanged |
| OctreeReduce.ReduceStep | src/com/alkacon/simapi/util/Quantize.java:800-802 | one pass keeps the loop invariant and raises the threshold |
| OctreeReduce.Finish | src/com/alkacon/simapi/util/Quantize.java:797-804 | after the loop the count fits, or the root stands alone with a count that does not |
| OctreePalette.MeanRounds | src/com/alkacon/simapi/util/Quantize.java:463-480 | `(total + unique/2) / unique` is the mean rounded half up, and the byte cast cuts nothing |
| OctreePalette.MapPalette | src/com/alkacon/simapi/util/Quantize.java:463-480 | mapColors appends the rounded means of the colour nodes, in post-order |
| OctreePalette.MapNumbers | src/com/alkacon/simapi/util/Quantize.java:463-480 | colour nodes are numbered consecutively in post-order from the palette's current size |
| OctreePalette.MapStats | src/com/alkacon/simapi/util/Quantize.java:463-480 | numbering the nodes keeps their statistics |
| OctreePalette.MapIndexed | src/com/alkacon/simapi/util/Quantize.java:463-480 | the palette entry at a node's index is that node's rounded mean |
| OctreePalette.PaletteFacts | src/com/alkacon/simapi/util/Quantize.java:644-654 | the palette is the transparent entry (if reserved) then the means; its size is firstColor plus the colour nodes, within numColors |
| OctreePalette.PaletteInBox | src/com/alkacon/simapi/util/Quantize.java:644-654 | every palette entry has channels in 0..255 |
| OctreePalette.PaletteRounded | src/com/alkacon/simapi/util/Quantize.java:463-480 | each channel of entry firstColor + j is the j-th colour node's mean, rounded half up |
| OctreePalette.PaletteTree | src/com/alkacon/simapi/util/Quantize.java:644-654 | the palette pass keeps the root's statistics and colour count, and every populated slot it leaves leads to a colour |
| OctreePalette.PaletteBitsLeast | src/com/alkacon/simapi/util/Quantize.java:659-662 | the bit depth is the least of 1..8 whose power of two holds the palette, and 9 beyond 256 entries |
| OctreePalette.Model | src/com/alkacon/simapi/util/Quantize.java:665-672 | with alpha-to-bitmask, entries are opaque and index 0 is transparent iff reserved; otherwise each entry keeps its own alpha |
| OctreeAssign.Distance | src/com/alkacon/simapi/util/Quantize.java:386-394 | the squared four-channel distance, never negative |
| OctreeAssign.DistanceBound | src/com/alkacon/simapi/util/Quantize.java:386-394 | two in-range colours are less than MAX_VALUE apart, so the first candidate always wins over the initial distance |
| OctreeAssign.ClosestScan | src/com/alkacon/simapi/util/Quantize.java:429-454 | the recursive search equals a scan of the subtree's colour indices in post-order |
| OctreeAssign.ScanFirst | src/com/alkacon/simapi/util/Quantize.java:429-454 | the scan keeps the first candidate at the smallest distance, because only a strict improvement replaces it |
| OctreeAssign.ScanCarried | src/com/alkacon/simapi/util/Quantize.java:429-454 | once a candidate beats the starting distance, the index carried in no longer matters |
| OctreeAssign.DeepestIsParent | src/com/alkacon/simapi/util/Quantize.java:705-723 | the search starts at the parent of the node where the walk stops |
| OctreeAssign.DeepestLit | src/com/alkacon/simapi/util/Quantize.java:705-723 | on a lit tree the search's start holds a colour |
| OctreeAssign.StartLit | src/com/alkacon/simapi/util/Quantize.java:705-723 | the search's candidates all lie in [firstColor, palette size) |
| OctreeAssign.ScanPicks | src/com/alkacon/simapi/util/Quantize.java:429-454 | from MAX_VALUE over a non-empty list, the scan picks the first nearest listed index |
| OctreeAssign.PickNearest | src/com/alkacon/simapi/util/Quantize.java:705-726 | an opaque pixel gets a palette index past the reserved entry: the first nearest colour node under the search's start, whatever index is carried in |
| OctreeAssign.PickNothing | src/com/alkacon/simapi/util/Quantize.java:429-454 | on a tree without colours the search leaves the index as it was |
| OctreeAssign.AssignPixels | src/com/alkacon/simapi/util/Quantize.java:683-726 | a transparent pixel with index 0 reserved gets 0. Every other pixel gets the low byte of the index the search picks: the first nearest colour node under the parent of the deepest node on its path |
| Quantize.OpaqueSome | src/com/alkacon/simapi/util/Quantize.java:740-782 | the opaque statistics are non-empty iff some pixel is opaque |
| Quantize.Process | src/com/alkacon/simapi/util/Quantize.java:830-838 | fails with the root pruned iff maxColors cannot hold the reserved entry (when needed) plus one colour (when any). It fails with a wide palette only when maxColors exceeds 256, so for maxColors ≤ 256 it succeeds iff the root is kept. On success the palette fits maxColors and 256 entries, with PaletteBits bits. Entry 0 is Clear when reserved. Transparent pixels map to 0. Every other pixel maps into [firstColor, size), to the index the octree search picks in the reduced cube it returns. That cube holds exactly the opaque pixels' statistics, and the colour model is built from it. The pick is the first nearest colour node under the parent of the deepest node on the pixel's path, not necessarily the nearest entry of the whole palette |
| Quantize.Emit | src/com/alkacon/simapi/util/Quantize.java:642-728 | the raster rejects the colour model exactly when the reduced cube keeps more than 256 entries. Otherwise the model is the cube's, and every opaque pixel's index is the search's pick for it, inside [firstColor, size) |
| Quantize.PickedByte | src/com/alkacon/simapi/util/Quantize.java:725 | with at most 256 entries, the stored byte is the picked index itself |
| GifWriters.Quantized | src/com/alkacon/simapi/GifWriter/GifImageWriter.java:114-124 | the quantized image reaches the encoder as indexed, with the palette as its table and the indices as its raster |
| GifWriters.WriteAcme | src/com/alkacon/simapi/GifWriter/GifImageWriter.java:114-124 | an indexed image is encoded as it is; any other image with pixels is quantized and written without error, and reads back with in-range indices, transparent iff some pixel is clear, clear pixels at 0 and others never at 0 |
| GifWriters.QuantizedReads | src/com/alkacon/simapi/GifWriter/GifImageWriter.java:114-124 | the quantized image is encodable and reads back with the same indices |
| GifWriters.GridOf | src-dump/GifEncoder.java:284-307 | column x, row y of the dump encoder's grid is getRGB's pixel y·w + x |
| GifWriters.Recoloured | src/com/alkacon/simapi/util/GifImageWriter.java:117-128 | each pixel of the quantized image shows its palette entry |
| GifWriters.WriteDump | src/com/alkacon/simapi/util/GifImageWriter.java:117-128 | the image written always indexes, so the retry never throws. It is the original iff the original indexes. The file is the as-written dump encoder's output for that indexed image |
| GifWriters.WriteDumpFixed | src/com/alkacon/simapi/util/GifImageWriter.java:117-128 | the same image as WriteDump, written by the dump encoder with its end code at the decoder's width; the file reads back with the image's size, table and indices |
| GifWriters.DumpReads | src/com/alkacon/simapi/util/GifImageWriter.java:117-128 | an indexable image written by the corrected encoder reads back as its size, table and indices |
| GifWriters.AlignedDumpUnreadable | src-dump/GifEncoder.java:507-511 | an 11×1 image of opaque black, red, green and blue indexes as it is, yet the as-written encoder's file for it does not read back |
| GifWriters.ReducedIndexable | src/com/alkacon/simapi/util/GifImageWriter.java:117-128 | a quantized image never has more than 256 colours, so the retry never fails |
| GifWriters.Pigeonhole | src-dump/GifEncoder.java:392-429 | distinct colours drawn from a set are no more than the set holds |
| GifWriters.RangeImage | src/com/alkacon/simapi/util/Quantize.java:644-654 | the first n palette slots show at most n colours |
| AcmeLzw.Output | src/com/alkacon/simapi/util/GifAcmeEncoder.java:471-511 | the code goes out at the current width; a pending clear resets the width; otherwise the width grows by one only when free_ent has passed maxcode; the table is untouched |
| AcmeLzw.ClBlock | src/com/alkacon/simapi/util/GifAcmeEncoder.java:257-264 | the table is emptied, free_ent is ClearCode + 2, the clear code goes out, and the width is reset |
| AcmeLzw.Step | src/com/alkacon/simapi/util/GifAcmeEncoder.java:309-337 | a known (match, pixel) pair extends the match and outputs nothing; an unknown one outputs the match's code and starts a new match at the pixel |
| AcmeLzw.Compress | src/com/alkacon/simapi/util/GifAcmeEncoder.java:273-341 | at least three codes; the clear code first at the initial width; the end code last; an empty image emits −1 as its match |
| AcmeLzw.CompressParts | src/com/alkacon/simapi/util/GifAcmeEncoder.java:273-341 | for a non-empty image: the run over the later pixels, the last match, then the end code |
| AcmeLzw.CompressFits | src/com/alkacon/simapi/util/GifAcmeEncoder.java:466-511 | every code fits the width it is output with, and widths stay within 12 bits |
| AcmeOutput.FlushChar | src/com/alkacon/simapi/util/GifAcmeEncoder.java:346-353 | a non-empty packet goes out behind its length byte; an empty one writes nothing |
| AcmeOutput.PutCodeHolds | src/com/alkacon/simapi/util/GifAcmeEncoder.java:474-488 | output appends exactly the code's bits to the stream written so far |
| AcmeOutput.FinishFrames | src/com/alkacon/simapi/util/GifAcmeEncoder.java:501-510 | the last byte and flush complete the stream's sub-blocks |
| AcmeOutput.EmitFrames | src/com/alkacon/simapi/util/GifAcmeEncoder.java:471-511 | emitting fitting codes ending in the end code writes the packed bits cut into 254-byte sub-blocks |
| AcmeOutput.EmitFromEmpty | src/com/alkacon/simapi/util/GifAcmeEncoder.java:447 | from a fresh packer, the image data are the codes packed into bytes, in 254-byte sub-blocks |
| AcmeRoundTrip.WidthsAgree | src/com/alkacon/simapi/util/GifAcmeEncoder.java:489-499 | the compressor widens exactly when a decoder does |
| AcmeRoundTrip.StepInv | src/com/alkacon/simapi/util/GifAcmeEncoder.java:309-337 | each loop step keeps the compressor and the decoder in lockstep |
| AcmeRoundTrip.ClearInv | src/com/alkacon/simapi/util/GifAcmeEncoder.java:330-334 | a full table's clear puts compressor and decoder back to their starting states |
| AcmeRoundTrip.RunInv | src/com/alkacon/simapi/util/GifAcmeEncoder.java:309-337 | the whole loop keeps the lockstep |
| AcmeRoundTrip.CompressDecodes | src/com/alkacon/simapi/util/GifAcmeEncoder.java:273-341 | for code sizes 2..8 and a non-empty image below the clear code, a GIF decoder turns compress's codes back into the pixels |
| AcmeRoundTrip.CompressTerminated | src/com/alkacon/simapi/util/GifAcmeEncoder.java:339-340 | the end code appears only at the end |
| GifAcme.BitsPerPixel | src/com/alkacon/simapi/util/GifAcmeEncoder.java:203-211 | 1, 2, 4 or 8: the least of those whose table holds every colour |
| GifAcme.InitCodeSize | src/com/alkacon/simapi/util/GifAcmeEncoder.java:377-379 | the initial code size is the bits per pixel, but at least 2 |
| GifAcme.Transparency | src/com/alkacon/simapi/util/GifAcmeEncoder.java:418-427 | the control extension is written iff the transparent index is not −1 |
| GifAcme.Layout | src/com/alkacon/simapi/util/GifAcmeEncoder.java:355-454 | the file starts with "GIF89a" and ends with the trailer ';' |
| GifAcme.ImageBlock | src/com/alkacon/simapi/util/GifAcmeEncoder.java:430-453 | the image block is 13 bytes plus the data, from the image separator to the trailer |
| GifAcme.Encode | src/com/alkacon/simapi/util/GifAcmeEncoder.java:152-224 | fails with NotIndexed on a non-indexed image and with PaletteOverflow on more than 256 colours; a success starts with "GIF89a" and ends with the trailer |
| GifAcme.ImageDataFrames | src/com/alkacon/simapi/util/GifAcmeEncoder.java:444-447 | the image data are compress's codes in 254-byte sub-blocks |
| GifAcme.CompressBytesDecode | src/com/alkacon/simapi/util/GifAcmeEncoder.java:444-447 | the packed bytes decode to the pixels, and the padding is never read |
| GifAcme.ImageDataDecodes | src/com/alkacon/simapi/util/GifAcmeEncoder.java:444-453 | the image data decode to the pixels |
| GifAcme.EncodeReads | src/com/alkacon/simapi/util/GifAcmeEncoder.java:355-454 | a GIF reader recovers the size modulo 65536, the table padded with black, the transparent index and every pixel |
| GifAcme.EncodeLayout | src/com/alkacon/simapi/util/GifAcmeEncoder.java:355-454 | an encodable image encodes without error, and its image block reads back as the pixels |
| GifAcme.BodyReads | src/com/alkacon/simapi/util/GifAcmeEncoder.java:418-453 | the extension and image block read back as the transparent index and the pixels |
| GifFormat.Padded | src/com/alkacon/simapi/util/GifAcmeEncoder.java:213-221 | the palette is cut or padded with black to the table size |
| GifFormat.TableOfBytes | src/com/alkacon/simapi/util/GifAcmeEncoder.java:411-415 | reading a written colour table gives the entries back |
| GifFormat.Screen | src/com/alkacon/simapi/util/GifAcmeEncoder.java:382-408 | the screen descriptor holds the size as words modulo 65536, then the flags, background and aspect |
| GifFormat.ReadWritten | src/com/alkacon/simapi/util/GifAcmeEncoder.java:382-415 | a file laid out as screen, table and body reads back its size and table |
| GifDump.BitsNeeded | src-dump/GifEncoder.java:370-380 | 0 for no colours; otherwise the least b ≥ 1 whose 2^b entries hold them |
| GifDump.BitsNeededLeast | src-dump/GifEncoder.java:370-380 | no smaller width holds the colours |
| GifDump.BitsNeededPow2 | src-dump/GifEncoder.java:370-380 | 2^k entries need exactly k bits, but at least one |
| GifDump.Search | src-dump/GifEncoder.java:404-407 | the first entry holding the colour, or the number of entries |
| GifDump.Collect | src-dump/GifEncoder.java:398-414 | on success the table extends the one given, holds at most 256 colours, and there is one index per scanned colour |
| GifDump.CollectIndexes | src-dump/GifEncoder.java:398-414 | each index names the entry holding that pixel's colour |
| GifDump.CollectDistinct | src-dump/GifEncoder.java:398-414 | the entries stay distinct |
| GifDump.CollectFromScan | src-dump/GifEncoder.java:398-414 | every entry is a colour that was scanned |
| GifDump.CollectOrder | src-dump/GifEncoder.java:398-414 | indices are handed out in order of first appearance |
| GifDump.CollectFails | src-dump/GifEncoder.java:409-410 | a failing scan holds 257 distinct colours |
| GifDump.ToIndexColor | src-dump/GifEncoder.java:392-429 | on success: the grid's width and height, one index per pixel, and 1 to 256 table entries |
| GifDump.ToIndexColorFails | src-dump/GifEncoder.java:392-429 | toIndexColor fails iff the image has more than 256 colours |
| GifDump.IndexedColors | src-dump/GifEncoder.java:392-429 | every pixel's index names its own colour, and pixel (0,0) gets index 0 |
| GifDump.IndexedPixels | src-dump/GifEncoder.java:392-429 | every index lies below the table size |
| GifDump.FirstIndexZero | src-dump/GifEncoder.java:392-429 | the first pixel scanned gets index 0 |
| GifDump.ImageDescriptor | src-dump/GifEncoder.java:431-466 | ten bytes, from the separator to a zero flags byte |
| GifDump.TrailerBlock | src-dump/GifEncoder.java:336-356 | the trailer is written as a descriptor: ';' and nine zero bytes |
| GifDump.CodeSize | src-dump/GifEncoder.java:336-356 | the initial code size is bitsNeeded of the table size, raised to 2, within 2..8 |
| GifDump.ImageFile | src-dump/GifEncoder.java:336-356 | the file starts with "GIF87a" and has the screen, the table, the descriptor, the code size, the data, the terminator and a ten-byte trailer around the data |
| GifDump.FlagsOfTable | src-dump/GifEncoder.java:514-543 | the screen flags announce a table of 2^k entries |
| GifDump.ReadImageFile | src-dump/GifEncoder.java:336-356 | a GIF reader sees the size, the table and whatever the data decode to |
| GifDump.WriteFixedReads | src-dump/GifEncoder.java:336-356 | with the end code widened, a reader gets back the size, the table and every index |
| GifDump.AlignedIndexed | src-dump/GifEncoder.java:392-429 | an 11×1 image of four colours gets the indices 0 1 2 3 0 2 1 3 1 0 3 |
| GifDump.AlignedFileUnreadable | src-dump/GifEncoder.java:507-511 | that image's file, as written, does not read back |
| GifDump.WriteUnreadable | src-dump/GifEncoder.java:336-356 | an image of four colours indexes, but its file as written does not decode |
| DumpLzw.Finish | src-dump/GifEncoder.java:507-511 | after the loop the prefix and the end code go out, both at the current width |
| DumpLzw.EndWidth | src-dump/GifEncoder.java:497-511 | the width a decoder reads the end code with is the current width, or one more |
| DumpLzw.FinishFixed | src-dump/GifEncoder.java:507-511 | the corrected finish writes the end code at the width the decoder expects |
| DumpLzw.Compress | src-dump/GifEncoder.java:468-512 | the codes begin with the clear code at cs + 1 bits and end with the end code |
| DumpLzw.CompressFixed | src-dump/GifEncoder.java:468-512 | the corrected codes begin with the clear code and end with the end code |
| DumpLzw.CompressDiffers | src-dump/GifEncoder.java:507-511 | the two differ at most in the end code's width |
| DumpLzw.StepSim | src-dump/GifEncoder.java:487-505 | a step of the dump compressor keeps it in step with the Acme compressor on the same pixel |
| DumpLzw.RunSim | src-dump/GifEncoder.java:487-505 | the dump compressor's loop stays in step with the Acme compressor's loop, and the widths stay consistent |
| DumpLzw.CompressFixedIsAcme | src-dump/GifEncoder.java:468-512 | with the end code widened, the dump compressor writes the Acme compressor's codes, for a first byte below 128 |
| DumpLzw.CompressFixedDecodes | src-dump/GifEncoder.java:468-512 | the corrected codes decode to the pixels |
| DumpLzw.EndCodeShort | src-dump/GifEncoder.java:507-511 | whenever the last data code makes the decoder widen, the codes as written do not decode |
| DumpLzw.SmallImage | src-dump/GifEncoder.java:468-512 | the pixels 0 1 2 at code size 2 end in a 3-bit end code |
| DumpLzw.SmallImageEndShort | src-dump/GifEncoder.java:507-511 | for that image the decoder expects a 4-bit end code |
| DumpLzw.EndCodeShortBytes | src-dump/GifEncoder.java:507-511 | when the codes fill whole bytes, no padding bit completes the short end code, and the data do not decode |
| DumpLzw.AlignedRun | src-dump/GifEncoder.java:487-505 | every pixel of the aligned image starts a new string, and the last is code 15 at 4 bits |
| DumpLzw.AlignedImage | src-dump/GifEncoder.java:468-512 | the aligned image's codes take 48 bits, and their bytes do not decode |
| DumpOutput.PlaceLow | src-dump/GifEncoder.java:123-157 | bits that fit use up part of the byte being filled, and nothing is sent |
| DumpOutput.PlaceFull | src-dump/GifEncoder.java:123-157 | the byte being filled is completed and a fresh one begun, and nothing is sent |
| DumpOutput.WriteBitsHolds | src-dump/GifEncoder.java:123-157 | writeBits appends the low nBits bits of its value, in two's complement for a negative one |
| DumpOutput.FlushFrames | src-dump/GifEncoder.java:101-113 | flush writes the whole bytes and the partial one as the last sub-block |
| DumpOutput.WrittenFrames | src-dump/GifEncoder.java:88-157 | a fresh BitFile writes the codes' bits packed into bytes and cut into 255-byte sub-blocks |
| Bits.BytesBitsToBytes | src/com/alkacon/simapi/util/GifAcmeEncoder.java:501-510 | unpacking the packed bytes gives the bits back, followed by the zero padding |
| Bits.FrameAppend | src/com/alkacon/simapi/util/GifAcmeEncoder.java:249-254 | whole blocks followed by more data frame block by block |
| Bits.UnframeFrame | src/com/alkacon/simapi/util/GifAcmeEncoder.java:346-353 | a reader of the sub-blocks and the terminator gets the data back |
| LzwDecode.DecodeBitsPack | src/com/alkacon/simapi/util/GifAcmeEncoder.java:471-511 | reading the bits of codes that fit their widths gives the codes back |
| JpegSegments.ReadShort | src/com/alkacon/simapi/CmykJpegReader/JPEGSegmentUtil.java:152 | two bytes, big-endian, or Eof |
| JpegSegments.ReadMarker | src/com/alkacon/simapi/CmykJpegReader/JPEGSegmentUtil.java:152-177 | the marker reader fails only with Eof or BadMarker |
| JpegSegments.MarkerErrors | src/com/alkacon/simapi/CmykJpegReader/JPEGSegmentUtil.java:152-177 | the zero-word loop fails only with Eof or BadMarker |
| JpegSegments.ReadMarkerPattern | src/com/alkacon/simapi/CmykJpegReader/JPEGSegmentUtil.java:152-177 | the marker is found iff the bytes have the padded-marker form, and its value is 0xFF00 plus its second byte |
| JpegSegments.NullTerminated | src/com/alkacon/simapi/CmykJpegReader/JPEGSegmentUtil.java:131-143 | the identifier exists iff a NUL exists or the data exceed 256 bytes |
| JpegSegments.NullTerminatedScan | src/com/alkacon/simapi/CmykJpegReader/JPEGSegmentUtil.java:131-143 | the identifier is the ASCII text before the first NUL, cut at 256 characters |
| JpegSegments.RequestMaps | src/com/alkacon/simapi/CmykJpegReader/JPEGSegmentUtil.java:49-51 | ALL_SEGMENTS requests every segment; APP_SEGMENTS exactly the APPn ones |
| JpegSegments.SingleRequest | src/com/alkacon/simapi/CmykJpegReader/JPEGSegmentUtil.java:67-69 | one marker with an identifier requests that pair; without one, every segment with that marker |
| JpegSegments.ReadSegment | src/com/alkacon/simapi/CmykJpegReader/JPEGSegmentUtil.java:151-208 | a read segment ends past its start; a requested marker keeps length − 2 data bytes; an unrequested non-APP segment keeps none; a failure is never NotJpeg |
| JpegSegments.BodyExtent | src/com/alkacon/simapi/CmykJpegReader/JPEGSegmentUtil.java:179-205 | after the marker a segment takes its length field's count of bytes, unless an unrequested identifier runs to the end |
| JpegSegments.SegmentExtent | src/com/alkacon/simapi/CmykJpegReader/JPEGSegmentUtil.java:151-208 | a segment ends `length` bytes after its marker, however its data are read |
| JpegSegments.Collect | src/com/alkacon/simapi/CmykJpegReader/JPEGSegmentUtil.java:92-113 | every kept segment is requested, in stream order, none ends the image before the last; errors are only size or marker errors |
| JpegSegments.ReadSegments | src/com/alkacon/simapi/CmykJpegReader/JPEGSegmentUtil.java:86-114 | fewer than two bytes fail as Eof and a missing SOI as NotJpeg; the segments returned are all requested, and none before the last ends the image |
| JpegSegments.ReadOne | src/com/alkacon/simapi/CmykJpegReader/JPEGSegmentUtil.java:151-208 | one written segment reads back as itself when requested |
| JpegSegments.CollectWritten | src/com/alkacon/simapi/CmykJpegReader/JPEGSegmentUtil.java:92-113 | a written list reads back as its requested segments |
| JpegSegments.ReadWritten | src/com/alkacon/simapi/CmykJpegReader/JPEGSegmentUtil.java:86-114 | segments written after an SOI read back as the requested ones, in order |
| JpegSegments.AllRequested | src/com/alkacon/simapi/CmykJpegReader/JPEGSegmentUtil.java:222-238 | with ALL_SEGMENTS every segment is requested |
| Simapi.OffsetMargins | src/com/alkacon/simapi/Simapi.java:317-354 | with room to spare, the rectangle sits at the start, at the end, or in the middle with the odd pixel after it |
| Simapi.OffsetOverhangs | src/com/alkacon/simapi/Simapi.java:317-354 | without room, the rectangle sticks out on at least one side |
| Simapi.Crop | src/com/alkacon/simapi/Simapi.java:306-358 | an image of the target size comes back unchanged; otherwise a region is returned only if it is non-empty and lies inside the image, and then it sits at the position's origin. Any other region is refused, as getSubimage refuses it |
| Simapi.CropInside | src/com/alkacon/simapi/Simapi.java:306-358 | for an image of positive size, crop succeeds iff the target's width and height are positive and fit inside the image, for every position code |
| Simapi.ResizeKeeps | src/com/alkacon/simapi/Simapi.java:442-450 | an image of the target size is always kept, and with enlarging on, only such an image is kept |
| Simapi.Fill | src/com/alkacon/simapi/Simapi.java:520-529 | the transparent constant is replaced when the model has no alpha, and is never painted |
| Simapi.Place | src/com/alkacon/simapi/Simapi.java:498-575 | no canvas exactly when the scaled size matches; otherwise the image at its position's origin on a canvas with Fill's colour |
| Simapi.PlaceInside | src/com/alkacon/simapi/Simapi.java:531-570 | an image that fits lies entirely on the canvas, against the edges its position names |
| Simapi.Trim | src/com/alkacon/simapi/Simapi.java:196 | Java's trim: no leading or trailing character up to U+0020 remains |
| Simapi.TrimTrimmed | src/com/alkacon/simapi/Simapi.java:196 | a string with nothing to trim is its own trim |
| Simapi.UpperChar | src/com/alkacon/simapi/Simapi.java:196 | exactly the ASCII lower-case letters change; blanks stay blanks and no character becomes a dot |
| Simapi.LastDot | src/com/alkacon/simapi/Simapi.java:186-195 | the last dot's index, or −1 |
| Simapi.Suffix | src/com/alkacon/simapi/Simapi.java:186-195 | the text after the last dot, which holds no dot |
| Simapi.CanonicalFixed | src/com/alkacon/simapi/Simapi.java:198-210 | every canonical name is one of JPEG, GIF, PNG, TIFF, BMP and PNM, or the name itself, and canonicalising is idempotent |
| Simapi.ImageType | src/com/alkacon/simapi/Simapi.java:180-221 | null gives null; a result has a writer and holds no dot |
| Simapi.UpperTwice | src/com/alkacon/simapi/Simapi.java:196 | upper-casing is idempotent |
| Simapi.UpperTrimmed | src/com/alkacon/simapi/Simapi.java:196 | the upper-cased trim has nothing to trim |
| Simapi.ImageTypeNormal | src/com/alkacon/simapi/Simapi.java:180-221 | every name getImageType returns is trimmed, upper case and dot-free |
| Simapi.ImageTypeIdempotent | src/com/alkacon/simapi/Simapi.java:180-221 | getImageType maps each of its results to itself |
| Simapi.Write | src/com/alkacon/simapi/Simapi.java:824-882 | the null checks in order; success iff the format resolves; alpha flattened iff the image has alpha and the format is JPEG, TIFF or BMP; compression set iff the writer can compress |
| SimapiImpl.IgnoreCaseUpper | src/com/alkacon/simapi/SimapiImpl.java:162-177 | equalsIgnoreCase holds iff the upper-case forms are equal |
| SimapiImpl.ImageType | src/com/alkacon/simapi/SimapiImpl.java:150-189 | a result has a registered writer and holds no dot |
| SimapiImpl.ImageTypesAgree | src/com/alkacon/simapi/SimapiImpl.java:150-189 | both implementations agree on every suffix both know, in any case and untrimmed |
| SimapiImpl.MappedCanonical | src/com/alkacon/simapi/SimapiImpl.java:162-177 | on the shared suffixes the two mappings coincide |
| SimapiImpl.PnmNotNormalised | src/com/alkacon/simapi/SimapiImpl.java:150-189 | for "photo.pnm" the two implementations ask for different writer names |
| SimapiImpl.BlankNotTrimmed | src/com/alkacon/simapi/SimapiImpl.java:150-189 | a suffix with a trailing blank is trimmed by one implementation and kept by the other |
| SimapiImpl.DefaultsDiffer | src/com/alkacon/simapi/SimapiImpl.java:243-279 | the two default resizes disagree about keeping the image iff it is smaller in both dimensions |
| SimapiImpl.Place | src/com/alkacon/simapi/SimapiImpl.java:286-351 | no canvas exactly when the scaled size matches; otherwise the canvas is always filled with the background, even the transparent constant |
| SimapiImpl.PlaceAgrees | src/com/alkacon/simapi/SimapiImpl.java:286-351 | given the same scaled image, both background resizes put it at the same origin; the fills agree iff the background is not the transparent constant |
| SimapiImpl.BackgroundResizes | src/com/alkacon/simapi/SimapiImpl.java:286-297 | from one image, the two five-argument background resizes (Simapi's with blowup, this one without) place it identically unless it is strictly smaller than the target both ways. Then this one keeps the image's own size and places it over the larger room, while Simapi's places the enlarged image |
| SimapiImpl.Write | src/com/alkacon/simapi/SimapiImpl.java:524-570 | the same null checks; success iff a writer is registered under the name as given and supports compression; never flattened, compression always set |
| TileFilter.Dimensions | src-dump/filter/TileImageFilter.java:51-59 | fails (division by zero) iff the width or height equals the edge; otherwise the tile size is the incoming size |
| TileFilter.TilesCover | src-dump/filter/TileImageFilter.java:51-59 | the tiles cover the target, and one tile fewer would not |
| TileFilter.CeilingCount | src-dump/filter/TileImageFilter.java:51-59 | `(n + d − 1) / d` is the least number of d-sized pieces covering n |
| TileFilter.Hints | src-dump/filter/TileImageFilter.java:61-66 | RANDOMPIXELORDER is set, TOPDOWNLEFTRIGHT and COMPLETESCANLINES cleared, and every other bit kept |
| TileFilter.HintsIdempotent | src-dump/filter/TileImageFilter.java:61-66 | filtering hints twice changes nothing further |
| TileFilter.TargetTwice | src-dump/filter/TileImageFilter.java:158-180 | mapping a position and mapping it back, with the sides swapped back for the diagonal flip, returns it |
| TileFilter.SourceDest | src-dump/filter/TileImageFilter.java:181-205 | every pixel lands inside the new array and is the one that index takes back |
| TileFilter.DestSource | src-dump/filter/TileImageFilter.java:181-205 | every index of the new array receives a pixel of the rectangle |
| TileFilter.DestInjective | src-dump/filter/TileImageFilter.java:181-205 | no two pixels land on the same index |
| TileFilter.FlipPixels | src-dump/filter/TileImageFilter.java:157-207 | the loop writes every index of the new array with the pixel the operation moves there |
| TileFilter.FlipTwice | src-dump/filter/TileImageFilter.java:157-207 | flipping twice restores the rectangle: every operation is an involution |
| IdentIcon.VerticesOnGrid | src/com/alkacon/simapi/IdentIcon.java:65-155 | every patch vertex names a cell of the 5×5 grid |
| IdentIcon.TableFacts | src/com/alkacon/simapi/IdentIcon.java:158-226 | the flagged patch is exactly the repeated square, and the middle patches are sixteen distinct ones |
| IdentIcon.Hashed | src/com/alkacon/simapi/IdentIcon.java:603-614 | hash() clears byte 6, so the reserved colour is off by default |
| IdentIcon.RenderHash | src/com/alkacon/simapi/IdentIcon.java:324-400 | byte 6 records whether the reserved colour may be used |
| IdentIcon.ColouredHash | src/com/alkacon/simapi/IdentIcon.java:396-398 | bytes 2, 3 and 4 carry the low bytes of blue, green and red |
| IdentIcon.Field | src/com/alkacon/simapi/IdentIcon.java:630-651 | a side or corner byte gives a type in 0..31 and a turn in 0..3 |
| IdentIcon.FieldRoundTrip | src/com/alkacon/simapi/IdentIcon.java:630-651 | the three fields determine the byte, and every choice of fields has one |
| IdentIcon.Decode | src/com/alkacon/simapi/IdentIcon.java:630-651 | the middle type is one of the sixteen centre patches, unturned, inverted by bit 5 of byte 0; corner from byte 1, side from byte 5; colour from bytes 4, 3, 2; the reserved colour allowed iff byte 6 is positive as a signed byte |
| IdentIcon.MiddleDetermines | src/com/alkacon/simapi/IdentIcon.java:630-651 | the middle type depends only on the low four bits of byte 0, and the inversion only on bit 5 |
| IdentIcon.RenderDecodes | src/com/alkacon/simapi/IdentIcon.java:324-400 | icons from hash() never may use the reserved colour; the render variant decides it |
| IdentIcon.ColouredDecodes | src/com/alkacon/simapi/IdentIcon.java:396-398 | the colour variant changes only the colour, to the given components |
| IdentIcon.Normalise | src/com/alkacon/simapi/IdentIcon.java:502-508 | patch modulo the table, turn modulo four, and the inversion toggled for the flagged patch |
| IdentIcon.NormaliseTwice | src/com/alkacon/simapi/IdentIcon.java:502-508 | normalising again only toggles the flagged patch back |
| IdentIcon.Complement | src/com/alkacon/simapi/IdentIcon.java:589-592 | each component x becomes 255 − x, opaque |
| IdentIcon.ComplementTwice | src/com/alkacon/simapi/IdentIcon.java:589-592 | the complement is an involution that fixes no colour |
| IdentIcon.DistanceZero | src/com/alkacon/simapi/IdentIcon.java:574-580 | distances are never negative, and zero iff the RGB agree |
| IdentIcon.ChooseColours | src/com/alkacon/simapi/IdentIcon.java:653-670 | the reserved-colour rule as written: a colour within 96 of the reserved one is swapped for its complement, with no check on the complement |
| IdentIcon.ComplementHitsReserved | src/com/alkacon/simapi/IdentIcon.java:655-669 | with a mid-grey reserved colour, an icon that may not use it gets exactly its RGB |
| IdentIcon.ChooseColoursNearReserved | src/com/alkacon/simapi/IdentIcon.java:655-669 | as written, a protected icon is painted within 96 of the reserved colour iff both the colour and its complement are |
| IdentIcon.Farthest | src/com/alkacon/simapi/IdentIcon.java:452-463 | an opaque colour at least 96 from the given one |
| IdentIcon.ChooseColoursFixed | src/com/alkacon/simapi/IdentIcon.java:452-463 | a protected icon is never painted within 96 of the reserved colour; wherever the written rule already keeps that distance, the two agree |
| IdentIcon.Layout | src/com/alkacon/simapi/IdentIcon.java:694-719 | sixteen calls at the grid cells in order, stroked with the fill's complement when needed; only the middle four may be inverted |
| IdentIcon.RenderDrawsReserved | src/com/alkacon/simapi/IdentIcon.java:655-669 | a hash with colour bytes 128 and byte 6 clear draws the reserved grey |
| IdentIcon.RenderFixedAvoidsReserved | src/com/alkacon/simapi/IdentIcon.java:452-463 | with the documented rule a protected icon never paints within 96 of the reserved colour |
| IdentIcon.CellsCoverGrid | src/com/alkacon/simapi/IdentIcon.java:694-719 | the sixteen calls cover the 4×4 grid, each cell once |
| IdentIcon.RenderSymmetric | src/com/alkacon/simapi/IdentIcon.java:694-719 | every identicon has four-fold rotational symmetry |
| IdentIcon.DrawSymmetric | src/com/alkacon/simapi/IdentIcon.java:700-719 | the symmetry for one drawing call |

## Left out

- Image I/O, streams and AWT are not modelled: ImageIO readers and writers, `ImageInputStream`/`DataOutput`, `BufferedImage`, `IndexColorModel` construction and `Graphics2D` drawing. Images are sequences of ARGB ints, files are byte sequences, and drawing is a list of calls.
- Floating point is not modelled: the scale factors of resize, and IdentIcon's `getColorDistance`, stroke test and `brighter`/`darker`. The distance threshold is an exact integer comparison of squared distances, which agrees with the float test for 8-bit components. `brighter` and `darker` are kept as uninterpreted markers on a colour.
- IdentIcon.RenderHash and IdentIcon.Hashed: the MD5 digest is an input; hashing itself is not modelled.
- `TileImageFilter.setPixels` and `blendPixels` are not modelled: they copy tiles into a buffer and blend with float weights.
- SimapiImpl.Place: the stray diagonal `g.drawLine` of the background resize (SimapiImpl.java:304) is not modelled.
- Simapi.UpperChar, SimapiImpl.EqualsIgnoreCase, SimapiImpl.Mapped and SimapiImpl.IgnoreCaseUpper: only ASCII letters are case-folded. Java's `toUpperCase`/`equalsIgnoreCase` follow Unicode and the default locale, so characters such as 'ı' or 'ß' and a Turkish locale are not modelled.
- OctreeBuild.DescendStats, OctreeClassify.ClassifyStats and OctreePrune.SweepNodeStats: channel totals, `unique` and `numPixels` are unbounded here; Java's ints wrap past 2^31 − 1, which needs more than 8 million pixels of full intensity in one node.
- TileFilter.Dimensions: `targetWidth + tileWidth − 1` is unbounded here, where Java wraps near 2^31.
- GifAcme.Encode and GifWriters.WriteAcme: `width * height` is not computed as a Java int; the pixels are the raster's sequence, whatever its length.
- GifDump.ToIndexColor, GifDump.WriteFixedReads, GifWriters.WriteDump and GifWriters.WriteDumpFixed require width and height below 32768: the dump encoder's constructors cast them to `short` (GifEncoder.java:287-288 and 322-323), so a larger image would wrap negative.
- OctreeClassify.Classification and Quantize.Process require fewer than 2^31 − 1 pixels, so that the root's MAX_VALUE pixel count exceeds every child's and a reduce threshold below MAX_VALUE never selects the root.
- Quantize.Process: for maxColors above 256 it is not stated which images end with more than 256 palette entries, which fail with `WidePalette`. Quantize.Emit states that failure exactly, in terms of the reduced cube.
- OctreeReduce.Reduction returns `None`, and Quantize.Process fails with `RootPruned`, when reduction would prune the root. The source prunes it, which sets the root's parent and cube to null. If maxColors < firstColor, the loop runs again and the second reduce pass throws a NullPointerException in `pruneChild`. Otherwise `mapColors` throws it on the root's colour.
- The octree is an immutable recursive `Octree.Tree`, not Java's mutable nodes. Aliasing is not modelled. The parent pointer is replaced by the walk keeping the previous node, which is where `node.m_parent.closestColor` starts.
- OctreeAssign.At reads an index past the palette as the clear colour, where Java would throw. The search only visits indices inside the palette (OctreeAssign.StartLit).
- LZW string tables of both encoders are maps from (prefix, byte) to code. Acme's open-addressing hash table and the dump encoder's `LzwStringTable` probing are not modelled.
- DumpLzw.CompressFixedIsAcme, DumpLzw.CompressFixedDecodes and DumpLzw.EndCodeShort require the first pixel below 128. For a first byte of 128 or more, `findCharString` with the empty prefix returns the byte sign-extended. `toIndexColor` always gives the first pixel index 0, so the writers never reach that case.
- TileFilter.FlipPixels requires the rectangle to lie inside the pixel array, which the source assumes of its callers and does not check.
- AcmeRoundTrip.CompressDecodes and GifAcme.EncodeReads require a non-empty image. On an empty one, compress outputs −1 as its final match (AcmeLzw.Compress states this) and the file does not decode.
- GifAcme.Encode: the MaskOutOfBounds error stands for the `masks[-1]` array index exception, which only a code after an end code can cause; compress never emits one.
- GifFormat.Read is a reference reader for the files these encoders write: one image, a global table, no interlacing. It does not check the decoded pixel count against width × height.
- Byte masks and shifts (`& 0x1f`, `>> 5`, `& 0xff`) are modelled as arithmetic remainders and quotients rather than bit-vector operations.
- The GIF writers' ImageIO parameters, metadata and argument checks are not modelled.
- JpegSegments.ReadSegment: the JPEG marker constants (SOI, SOS, EOI, the APPn range) and `JPEGSegment`'s identifier parsing come from classes outside this model. They take their standard values from section B.1.1.3 of ITU-T T.81.
- GifWriters.WriteDump: the `GifEncoder` used by `com.alkacon.simapi.util.GifImageWriter` is not part of this model. It is taken to behave as src-dump/GifEncoder.java, whose end-code width is the first finding below.

## Findings

| source | as written | input that shows it | evidently intended | confidence | as-written member | corrected member |
|---|---|---|---|---|---|---|
| src-dump/GifEncoder.java:507-511 | after the loop, writeLzwCompressed writes the last prefix and then the end code at the current width, without the check that widens the code width once the last added string's code no longer fits | the 11×1 image with four colours laid out as indices 0 1 2 3 0 2 1 3 1 0 3 (code size 2): the last data code makes a decoder widen to 5 bits, the end code is written in 4, and the 48 bits fill whole bytes, so no padding bit completes it. A decoder that follows the GIF rules strictly finds no end code and rejects the data; decoders that stop after width × height pixels still show the image | write the end code at the width the decoder expects, as the Acme encoder's output does | medium (not executed) | DumpLzw.EndCodeShort, DumpLzw.AlignedImage, GifDump.AlignedFileUnreadable, GifDump.WriteUnreadable, GifWriters.WriteDump, GifWriters.AlignedDumpUnreadable | DumpLzw.CompressFixedDecodes, GifDump.WriteFixedReads, GifWriters.WriteDumpFixed, GifWriters.DumpReads |
| src/com/alkacon/simapi/IdentIcon.java:655-669 | a colour within 96 of the reserved colour is replaced by its RGB complement, without checking that the complement is itself far from the reserved colour | reserved colour (127,127,127) and hash colour (128,128,128): the complement is (127,127,127), exactly the reserved colour, for an icon that is not allowed to use it | the documentation (IdentIcon.java:452-463) promises a protected icon never gets a colour near the reserved one: choose a replacement at least 96 away | medium (not executed) | IdentIcon.ChooseColours, IdentIcon.ComplementHitsReserved, IdentIcon.ChooseColoursNearReserved, IdentIcon.RenderDrawsReserved | IdentIcon.ChooseColoursFixed, IdentIcon.RenderIconFixed, IdentIcon.RenderFixedAvoidsReserved |
