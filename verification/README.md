# Decoders, parser and searches of FILLY, modelled and proved

FILLY ships three C libraries and an installer plugin whose algorithms are worth a
proof: the image decoders of `src/stb_image.h`, the JSON library `src/cJSON.c`, the
font reader `src/stb_truetype.h` and the filter lists of
`plugins/artixforge/install_hub.c`.  This project models their algorithms in Dafny and
proves what they promise.  `dafny verify dfyconfig.toml` checks everything.

Code that works step by step in C is a method here, with the same branches, constants
and limits: the buffers are arrays, the structs are classes, and each method is proved
against a specification function.  What the formats' standards say is written down
separately, without the code's shortcuts, and lemmas connect the two.

## What is modelled

- **Inflate** (`Bits`, `BitReversal`, `Canonical`, `CodeCounts`, `BitStream`, `InflateSpec`,
  `InflateIntake`, `ZHuffman`, `Inflate`, `InflateExtend`, `InflateApi`,
  `InflateStored`, `BitWriter`, `InflateTokens`, `InflateHeader`, `InflateWriter`,
  `InflateReader`).  `InflateSpec` is a reference decoder for sections 3.2.3 to 3.2.7 of
  RFC 1951 on a stream of bits.  The class `ZBuf` is the bit buffer machine with its
  nine-bit fast table, slow path, growing output and overlapping copies.  The main result
  is that every valid stream is decoded to the reference output, and that whatever else
  is accepted is a valid stream once zero bytes are appended to it.  `InflateWriter` is
  the other direction: streams of stored, fixed and dynamic blocks as a writer makes them,
  with codes and extra bits computed from lengths and distances by arithmetic, are decoded
  to what they were written for; and a stream is valid if and only if it has been written
  so (`InflateReader.ValidIffWritten`).
- **JSON** (`JsonText`, `JsonRoundTrip`, `JsonEscapes`, `JsonTree`, `JsonForest`,
  `JsonMoves`, `JsonParser`, `JsonRoom`, `JsonPrinter`, `JsonApi`, `JsonSpelling`,
  `JsonCompact`).  The parser builds a tree of nodes
  linked by `next`, `prev` and `child`; the printer walks it.  Printing and parsing again
  gives the same tree back exactly when all strings are free of those control bytes that
  the printer garbles and nesting stays within 1000.  `JsonSpelling` has all ways to spell
  a value, with blanks and escapes, and each is read as that value; what is printed is the
  compact one.  Any run of parsing, appending,
  detaching and duplicating, at any depth, keeps every list well linked.
- **GIF** (`GifRaster`, `GifLzwSpec`, `GifLzw`, `GifWriter`).  Prefix chains against a
  dictionary of strings, and the order of pixels against the four passes of an interlaced
  frame; frames that an LZW encoder has written are decoded to their indices.
- **JPEG** (`TopBits`, `JpegHuffman`, `JpegTables`, `JpegDecode`, `JpegFastAc`, `JpegBlock`,
  `JpegWriter`).  Tables and bit reader against canonical decoding; the combined AC table
  against the two single steps; whole baseline blocks against the standard's sequence of
  codes; scans that an encoder has written are decoded to their coefficients.
- **PNG** (`PngFilter`, `PngSamples`, `PngImage`, `PngRules`, `Adam7`, `PngInterlace`).
  Filtered scanlines to samples of every bit depth, and the seven interlace passes; images
  packed and filtered by the words of the specification are decoded pixel by pixel.
- **Fonts** (`Cmap`, `CmapWriter`, `EdgeSort`, `CharstringSpec`, `Charstring`,
  `CharstringDraws`, `CharstringOperands`, `CharstringBox`, `CharstringPaths`,
  `Prefilter`).
  Character map searches, on any table and on tables written for given segments; the edge
  sort with its unguarded scans; the Type 2 charstring interpreter that runs twice, with
  the coordinates that each operator draws to; and the in-place box filters.
- **Installer hub** (`HubSpec`, `Hub`, `HubScripts`).  The store, the visible items and all
  editing modes as a machine driven by keys, and what a user's keys come to.

`Common` holds the few definitions that several modules share.

## Where the code does not do what it looks like

Each of these is stated and proved, with the exact condition under which the code does
meet the property and an input for which it does not.

- `print_string_ptr` writes five characters for a control byte without short escape but
  steps over four, so the next character overwrites the last digit
  (`JsonRoundTrip.ControlByteLost`; `JsonRoundTrip.PrintThenParse` is the
  if-and-only-if).
- For such a byte it asks for room for two characters.  Its writes stay inside the room
  that `ensure` grants if and only if there is no such byte (`JsonRoom.StringFits`,
  `JsonRoom.ControlByteOverruns`).  They leave the buffer itself exactly when doubling
  has not made up for it, which for a whole value is known before the call
  (`JsonPrinter.PrintBuffer.PrintUnformatted`, `JsonRoom.PrintEnd`): never if no string
  has such a byte (`JsonRoom.PlainFits`), and for one string of n bytes 1, alone or in an
  array, from n = 51 on (`JsonRoom.OnesOverrun`, `JsonRoom.OnesInArray`).
- The JPEG fast table uses 255 for "no entry", which is also the number of the 256th
  symbol (`JpegHuffman.ClashMisreads`, `JpegHuffman.ClashExample`,
  `JpegHuffman.DecodesCanonically`).
- `stbi__mul2shorts_valid` compares two negative factors the wrong way round; the
  decoder only passes second factors from 0 on, for which it is exact
  (`JpegBlock.MulChecked`, `JpegBlock.MulCheckFails`).
- The GIF decoder keeps adding codes up to 8192 and then gives up, where Appendix F of
  GIF89a stops adding at 4096 and goes on.  It agrees with the standard if and only if
  fewer than `8192 - 2^cs` data codes follow each other without a clear code, `cs` being
  the minimum code size (`GifLzwSpec.RunIsStandard`); the frame of
  `GifLzw.DecodeLongRun` is refused.
- `add_item_to_array` does not clear the item's own `next`, so the list stays well
  formed exactly if that was null or the list was empty (`JsonTree.AddItemToArray`,
  `JsonForest.AppendLinked`).  Nor does it see that a list is appended to its own child
  (`JsonForest.AppendInside`), or a detach that the item is in another list
  (`JsonForest.DetachForeign`); the general results are for calls where neither is so.
- The cmap reader leaves `idDelta` out for glyphs found through the glyph array, where
  the OpenType specification adds it (`Cmap.GlyphIsStandard`); in the table of
  `Cmap.FindShifted` it finds glyph 7 where that has 8.
- Vertices are stored in 16 bits while the bounding box is not.  The stored points are
  the drawn ones exactly if the box fits 16 bits (`CharstringBox.StoredIfBoxFits`).  They
  lie inside the box exactly if every drawn coordinate that does not fit comes back into
  it (`CharstringBox.StoredInBoxIff`), which holds of all glyphs with a box exactly if each
  of its sides fits 16 bits or covers them, or no glyph has that box
  (`CharstringPaths.BoxHoldsStored`, `CharstringPaths.BoxIsDrawn`).  One glyph program is
  given whose stored points leave their box (`CharstringPaths.StoredOutside`), and one
  whose points stay in a box that does not fit (`CharstringPaths.StoredInsideWideBox`).
- In the quicksort an edge can be left out of both parts of a partition, and always is
  when all edges differ in y0 (`EdgeSort.PartitionDistinct`); the final insertion sort
  makes up for it.
- An inflate stream that ends early is decoded as if zero bits followed.  It is accepted
  exactly if the reference decoder accepts the zero-extended stream and the bit buffer,
  which adds its last 16 zero bits only once, does not run dry on the way
  (`InflateApi.Decode`); it never does before the end of the data and of the first four
  bytes (`InflateIntake.IntakeOfAccepted`).  The single byte 3 is such a stream
  (`InflateApi.DecodeTruncated`).
- In the hub, Enter in a menu reads outside of the list of choices exactly if that is
  empty (`Hub.HubData.MenuKey`); two Enter keys crash the hub of `Hub.EnterTwice`.  Enter
  in a multiselect crashes exactly where printing the marked choices does not end well
  (`Hub.HubData.MultiselectKey`), as in the hub of `Hub.MarkAndEnter`.  A hub without
  categories crashes at Enter and Down (`Hub.HubData.BrowseKey`, `Hub.EnterNowhere`).
- A typed zero byte, which the terminal sends for Ctrl-Space
  (`src/backend/terminal/terminal.c:144-147`), cuts the text of an input off at the cursor
  and puts the cursor behind it.  The cursor stays in the text exactly if the typed byte
  is not zero (`Hub.HubData.InputKey`), and in runs without zero bytes it always does
  (`Hub.HubData.Run`); a key writes or reads outside of the text's block exactly if it
  types with the cursor two behind the end of the text, or erases where no zero follows
  (`Hub.HubData.Crashes`).  In the hub of `Hub.TypeBehindEnd` a zero byte and any two bytes
  more are typed.

## Model

| member | source | states |
|---|---|---|
| `BitReversal.Round` | src/stb_image.h:4107-4114 | one line of the swap network exchanges neighbouring blocks of k bits, bit by bit |
| `BitReversal.Reverse16` | src/stb_image.h:4107-4114 | the four rounds reverse the low 16 bits of any number |
| `BitReversal.ReverseBits` | src/stb_image.h:4116-4122 | shifting the 16-bit reversal leaves the reversal of exactly the low `bits` bits |
| `Canonical.Unique` | src/stb_image.h:4124-4169 | at most one symbol's canonical code (RFC 1951 section 3.2.2) is a prefix of the next bits |
| `Canonical.Cover` | src/stb_image.h:4226-4236 | bits below the end code of a length start with the code of some symbol of at most that length |
| `Canonical.FirstLength` | src/stb_image.h:4226-4236 | the first length whose end code exceeds the window is the length of the one matching symbol |
| `Canonical.NoneMatches` | src/stb_image.h:4234-4236 | no length qualifies exactly when no symbol matches |
| `Canonical.EndFits` | src/stb_image.h:4138-4149 | once every used length fits, every end code fits its length, so the shifted `maxcode` stays within 16 bits |
| `ZHuffman.Table.Build` | src/stb_image.h:4124-4169 | accepts exactly the length lists whose codes fit, and then all five tables describe the canonical code |
| `ZHuffman.Table.StartCodes` | src/stb_image.h:4135-4150 | first codes, first slots and shifted end codes of every length, and refusal exactly when a length overflows |
| `ZHuffman.Table.FillFast` | src/stb_image.h:4155-4168 | every nine-bit continuation of a short code, in stream order, gets the symbol's entry and no other entry changes |
| `ZHuffman.FastLookup` | src/stb_image.h:4243-4271 | a fast entry names the one symbol of the stream at this position, and an empty one rules out all short codes |
| `ZHuffman.SlowLookup` | src/stb_image.h:4224-4241 | the length search ends at the length of the matching symbol, and the slot holds that symbol and size: the defensive checks never fire |
| `ZHuffman.SlowMiss` | src/stb_image.h:4233-4236 | running off the last length means that no symbol matches |
| `InflateSpec.SymbolUnique` | src/stb_image.h:4243-4271 | the reference decoder's symbol at a position is the only one there |
| `Inflate.ZBuf.FillBits` | src/stb_image.h:4202-4212 | buffered bits stay a window of the stream of at most 32 bits; the corruption branch is never taken |
| `Inflate.ZBuf.ZReceive` | src/stb_image.h:4214-4222 | returns the next n bits of the stream, zero-extended, and moves on by n |
| `Inflate.ZBuf.HuffmanDecode` | src/stb_image.h:4243-4271 | fast table or slow path, a result is the one symbol at this position with exactly its length consumed; failure means exactly that there is none or the bit buffer is dry |
| `Inflate.ZBuf.HuffmanDecodeSlowpath` | src/stb_image.h:4224-4241 | the slow path alone, for codes longer than nine bits |
| `Inflate.ZBuf.Refill` | src/stb_image.h:4246-4259 | the buffer is filled up, or at the end of the data gets 16 zero bits, once; it fails exactly if those have been added and are being used up |
| `Inflate.ZBuf.Expand` | src/stb_image.h:4273-4293 | keeps what has been written and makes room, or fails only if no doubling below 2^32 can hold it |
| `Inflate.ZeroNeverGrows` | src/stb_image.h:4282-4285 | doubling a limit of zero makes no room however often it is done, so that loop would not end |
| `Inflate.ZBuf.CopyMatch` | src/stb_image.h:4349-4355 | both copy loops append the reference copy, overlap included |
| `Inflate.ZBuf.ParseStep` | src/stb_image.h:4312-4355 | one round of the block loop is one step of the reference decoder |
| `Inflate.ZBuf.ParseHuffmanBlock` | src/stb_image.h:4309-4357 | a whole block is accepted exactly if the bit buffer does not run dry on the reference's steps within the limit, and then leaves the reference output |
| `Inflate.ZBuf.ReadCodeLengths` | src/stb_image.h:4379-4403 | the code lengths of a dynamic block with repeats 16, 17 and 18, as section 3.2.7 defines them |
| `Inflate.ZBuf.ComputeHuffmanCodes` | src/stb_image.h:4359-4407 | both tables of a dynamic block are the ones the header describes |
| `Inflate.FixedTablesFit` | src/stb_image.h:4452-4465 | the fixed codes fit, so the table builder cannot refuse them |
| `Inflate.ZBuf.ReadStoredHeader` | src/stb_image.h:4415-4425 | at most three buffered bytes are drained, all of them header bytes, and no payload is lost |
| `Inflate.ZBuf.ParseUncompressedBlock` | src/stb_image.h:4409-4436 | a stored block appends its bytes, refused for a wrong complement, missing data or a full limit, as the reference says |
| `Inflate.ZBuf.ParseZlibHeader` | src/stb_image.h:4438-4450 | accepts exactly the headers the reference accepts |
| `Inflate.ZBuf.ParseZlib` | src/stb_image.h:4481-4508 | on every input, with any mix of blocks, success is exactly that the bit buffer does not run dry on the reference's way through the zero-extended stream, and gives its output |
| `InflateIntake.BlockLate` | src/stb_image.h:4309-4357 | a block on which the buffer does not run dry is accepted by the reference; one on which it does ends behind the data, if the reference accepts it |
| `InflateIntake.IntakeOfAccepted` | src/stb_image.h:4243-4259 | a stream on which the buffer does not run dry is accepted by the reference; an accepted one on which it does ends behind the data and behind the first four bytes |
| `InflateApi.LimitIrrelevant` | src/stb_image.h:4273-4293 | a limit that the output respects plays no role for what is decoded |
| `InflateApi.DecodesUniquely` | src/stb_image.h:4481-4508 | a stream has at most one decoding |
| `InflateApi.InflateWithinLimit` | src/stb_image.h:4273-4293 | an accepted output never exceeds the limit |
| `InflateApi.Decode` | src/stb_image.h:4510-4566 | every valid stream whose output fits is decoded to exactly that output; there is a result exactly if the reference accepts the zero-extended stream and the buffer's intake, a function of the input, does not run dry, as it never does within the data and the first four bytes; every result is valid once zero bytes are appended; the length as an int |
| `InflateApi.ToInt` | src/stb_image.h:4549 | the cast keeps the output length exactly up to INT_MAX |
| `InflateApi.TruncatedAccepted` | src/stb_image.h:4243-4259 | the single byte 3 is no valid stream, but its zero extension decodes to nothing |
| `InflateApi.DecodeTruncated` | src/stb_image.h:4481-4508 | the code accepts that byte, with an empty result |
| `InflateExtend.InflateKept` | src/stb_image.h:4197-4200 | the reference gives the same result when zero bytes are appended to an accepted stream |
| `InflateStored.StoredIsValid` | src/stb_image.h:4409-4436 | any bytes cut into stored blocks are a valid stream for them |
| `InflateStored.DecodeStored` | src/stb_image.h:4510-4566 | and that stream is decoded to them, if the buffer can hold them |
| `InflateTokens.LengthTable` | src/stb_image.h:4295-4301 | the 29 length codes by a formula: eight lengths with codes of their own, then four codes to each power of two and as many extra bits, and 258 last |
| `InflateTokens.DistanceTable` | src/stb_image.h:4303-4307 | the 30 distance codes by a formula: four distances with codes of their own, then two codes to each power of two |
| `InflateTokens.LengthRead` | src/stb_image.h:4334-4338 | every length from 3 to 258 is what the code and the extra bits stand for that are computed from it by its highest bit, quotient and remainder |
| `InflateTokens.DistanceRead` | src/stb_image.h:4339-4342 | every distance from 1 to 32768 is what the code and the extra bits computed from it stand for |
| `InflateTokens.BlockWritten` | src/stb_image.h:4309-4357 | a block written from literals and matches, with any prefix code, is read up to its last bit as the bytes that they describe: a match repeats what stands its distance before, also its own bytes |
| `InflateHeader.FixedLitCode` | src/stb_image.h:4472-4475 | the values of the 288 fixed codes, in four ranges (RFC 1951 section 3.2.6) |
| `InflateHeader.FixedDistCode` | src/stb_image.h:4477 | the fixed distance codes are the five-bit numbers |
| `InflateHeader.SizesWritten` | src/stb_image.h:4361-4376 | the sizes of the code length codes are found where a writer puts them: the repeat codes and zero first, then the lengths from 8 outwards |
| `InflateHeader.RunWritten` | src/stb_image.h:4380-4401 | a single length, three to six repetitions, three to ten zeros or eleven to 138 zeros are read as that run |
| `InflateHeader.HeaderWritten` | src/stb_image.h:4359-4407 | a header written for any two lists of code lengths, cut into runs in any way, is read as these lists |
| `InflateWriter.HeaderAccepted` | src/stb_image.h:4438-4449 | a zlib header is accepted exactly if its method is 8, it names no dictionary, and it is a multiple of 31 |
| `InflateWriter.StreamIsValid` | src/stb_image.h:4481-4511 | every stream of stored, fixed and dynamic parts written for some bytes, with or without a zlib header and with anything behind it, is a valid stream for these bytes |
| `InflateWriter.DecodeWritten` | src/stb_image.h:4520-4556 | such a stream is decoded to these bytes, if the buffer can hold them |
| `InflateReader.TokenIsWritten` | src/stb_image.h:4314-4356 | every literal or match that is read is what a writer spells by those bits |
| `InflateReader.BlockIsWritten` | src/stb_image.h:4309-4357 | every compressed block that is accepted has been written from tokens that describe exactly the bytes it adds |
| `InflateReader.HeaderIsWritten` | src/stb_image.h:4359-4407 | every header that is accepted has been written for its two lists of code lengths |
| `InflateReader.StoredIsWritten` | src/stb_image.h:4409-4436 | every stored block that is accepted has been written for its bytes |
| `InflateReader.ValidIffWritten` | src/stb_image.h:4481-4511 | a stream is valid for some bytes if and only if it has been written for them, so nothing else is accepted within its own bits |
| `JsonRoundTrip.DecodePlain` | src/cJSON.c:411-428 | what a faithful byte is written as is read in one step, as that byte |
| `JsonEscapes.PointRead` | src/cJSON.c:95-139 | every code point that is no surrogate, written as one escape or a surrogate pair in either case, is read as its UTF-8 bytes |
| `JsonEscapes.Utf8Reads` | src/cJSON.c:120-134 | those bytes are the shortest UTF-8 sequence (RFC 3629 section 3) for the code point |
| `JsonParser.Continuation` | src/cJSON.c:126-129 | `(cp \| 0x80) & 0xBF` is the continuation byte of the low six bits |
| `JsonParser.Lead` | src/cJSON.c:130-133 | the marks give the lead bytes of the two, three and four byte forms |
| `JsonParser.Surrogates` | src/cJSON.c:114 | the masks and shifts combine a surrogate pair to its code point |
| `JsonParser.RoomForStep` | src/cJSON.c:150-162 | a decoding step never writes more than it reads once one byte is taken off per escape that the first scan counts |
| `JsonParser.AdvanceScan` | src/cJSON.c:150-162 | where the two scans disagree about escapes, the first one is at most one byte ahead and counts at most one escape per two bytes |
| `JsonParser.ParseBuffer.FindStringEnd` | src/cJSON.c:150-158 | the closing quote and the number of escapes passed, or failure at the end of the buffer |
| `JsonParser.ParseBuffer.DecodeInto` | src/cJSON.c:160-189 | for every byte input all writes, with the final zero, stay inside the allocation, and the result is the decoded string |
| `JsonParser.ParseBuffer.ParseStringItem` | src/cJSON.c:141-197 | the item gets exactly the decoded string, or the call fails where the text has none |
| `JsonParser.ParseBuffer.ParseNumberItem` | src/cJSON.c:199-232 | the item gets the number that strtod reads, for integer literals of int range without fraction or exponent |
| `JsonParser.ParseBuffer.ParseValue` | src/cJSON.c:234-256 | the buffer stands after the value, and the item is the root of a well-linked tree of new nodes that holds it |
| `JsonParser.ParseBuffer.ParseArrayItem` | src/cJSON.c:258-289 | the same for an array: children in order, first child's prev the last one; refused beyond depth 1000 |
| `JsonParser.ParseBuffer.ParseObjectItem` | src/cJSON.c:291-330 | the same for an object, each child with its key |
| `JsonParser.ParseBuffer.ParseNextItem` | src/cJSON.c:269-279 | one round of the loop links a new item behind the list and fills it, leaving the others untouched |
| `JsonParser.ParseBuffer.ParseDocument` | src/cJSON.c:332-344 | the whole text becomes a fresh tree with the contents of the parsed value, or null is returned exactly when parsing fails |
| `JsonTree.AddItemToArray` | src/cJSON.c:597-610 | append is sequence append on a well-linked tree, exactly if the item's own next link was null or the list empty; refusals change nothing |
| `JsonForest.AppendLinked` | src/cJSON.c:597-610 | appending an item that is still in another list leaves the list ill linked |
| `JsonForest.AppendInside` | src/cJSON.c:597-610 | a list appended to its own child is in no tree any more |
| `JsonTree.Relink` | src/cJSON.c:733-737 | the next, prev and child links of all items after the updates of a detach, whatever they were before |
| `JsonForest.DetachForeign` | src/cJSON.c:731-739 | detaching the last item of another list leaves both lists ill linked |
| `JsonTree.Unlink` | src/cJSON.c:733-737 | the four pointer updates close the gap around the child, whether first, middle, last or only |
| `JsonTree.DetachItemViaPointer` | src/cJSON.c:731-739 | exactly that child leaves the list and both trees stay well linked; an item without prev link that is not in the list is refused and nothing changes |
| `JsonTree.DetachItemFromObject` | src/cJSON.c:740-743 | the child that the search by name finds, and only that one, is detached |
| `JsonTree.GetArraySize` | src/cJSON.c:676-681 | the walk along next ends and counts exactly the children |
| `JsonTree.GetArrayItem` | src/cJSON.c:653-661 | the child at the index, null outside of the list |
| `JsonTree.GetObjectItem` | src/cJSON.c:663-674 | the first child of that name unless a nameless one precedes it |
| `JsonTree.DuplicateRec` | src/cJSON.c:699-726 | a deep copy of new nodes only, well linked, holding what the original holds with strings cut at a zero byte |
| `JsonTree.CopiedIsEqual` | src/cJSON.c:23-31 | a duplicate's contents equal the original's exactly if no string holds a zero byte |
| `JsonTree.OneContents` | src/cJSON.c:699-726 | well-linked nodes hold one contents only |
| `JsonTree.ItemOfInjective` | src/cJSON.c:234-256 | different values are built differently |
| `JsonForest.TidyWith` | src/cJSON.c:597-610 | exchanging the subtree at a path for another one keeps all nodes apart |
| `JsonForest.PutIn` | src/cJSON.c:597-610 | a tree with another well-linked subtree at the same node of a path is well linked and holds the exchanged contents |
| `JsonForest.AppendAt` | src/cJSON.c:597-612 | appending to a list at any depth leaves the whole tree well linked, with one more child there |
| `JsonForest.DetachAt` | src/cJSON.c:731-739 | detaching from a list at any depth gives two well-linked trees that share the old nodes between them |
| `JsonForest.DuplicateAt` | src/cJSON.c:699-729 | any item of a tree is copied to new nodes only |
| `JsonForest.Forest.Append` | src/cJSON.c:597-612 | among separate trees, one tree becomes the last child of a list in another |
| `JsonForest.Forest.Detach` | src/cJSON.c:731-739 | a child at any depth becomes a tree of its own |
| `JsonForest.Forest.Run` | src/cJSON.c:597-739 | after any sequence of parse, append, detach and duplicate all lists are well linked, no node is in two places, and the contents are those of sequence append, removal and copying |
| `JsonMoves.AppendThenDetach` | src/cJSON.c:597-739 | detaching what has just been appended, at any depth, gives both trees back |
| `JsonMoves.DetachThenAppend` | src/cJSON.c:597-739 | appending what has just been detached moves the child to the end of its list |
| `JsonMoves.OthersKept` | src/cJSON.c:597-739 | items that are not above or below the changed one keep their contents |
| `JsonPrinter.PrintBuffer.Ensure` | src/cJSON.c:353-368 | the text so far is kept and the buffer has the room, or twice that if it had to grow; refused only beyond INT_MAX |
| `JsonPrinter.PrintBuffer.UpdateOffset` | src/cJSON.c:370-373 | the offset moves exactly over the text that stands behind it |
| `JsonPrinter.PrintBuffer.PrintStringItem` | src/cJSON.c:393-433 | any string is written in its escaped form, garbled digits included, and the call leaves the buffer exactly if that form does not fit the buffer that ensure has left |
| `JsonPrinter.PrintBuffer.PrintStringPtr` | src/cJSON.c:393-433 | the same, and for a null pointer the empty string behind the offset |
| `JsonRoom.StringFits` | src/cJSON.c:404-428 | the writes stay inside the room asked for, and inside the room granted, if and only if all bytes are faithful |
| `JsonRoom.ControlByteOverruns` | src/cJSON.c:404-428 | for the one-byte string 01 eight bytes are written where five are asked for |
| `JsonRoom.OnesOverrun` | src/cJSON.c:404-428 | in a new buffer a string of n such bytes is written outside if and only if n is at least 51 |
| `JsonRoom.PiecesText` | src/cJSON.c:443-519 | the texts that a value's requests for room are made for, joined, are its printed form |
| `JsonRoom.ValueModest` | src/cJSON.c:404-408 | every request covers its text if and only if all strings of the value are faithful |
| `JsonRoom.PlainFits` | src/cJSON.c:353-368 | then the buffer is never left, and no request is refused for a text of less than INT_MAX bytes |
| `JsonRoom.OnesInArray` | src/cJSON.c:458-484 | an array of one string of n bytes 01 leaves the buffer if and only if n is at least 51 |
| `JsonPrinter.PrintBuffer.PrintValue` | src/cJSON.c:443-456 | walking the tree of items appends exactly the printed form of the value it holds, and ends as its requests for room, placed one after another, end |
| `JsonPrinter.PrintBuffer.PrintArray` | src/cJSON.c:458-484 | the same for an array, following next from child |
| `JsonPrinter.PrintBuffer.PrintObject` | src/cJSON.c:486-519 | the same for an object with its keys |
| `JsonPrinter.IntTextLength` | src/cJSON.c:375-391 | an int takes at most eleven bytes, so the number buffer suffices |
| `JsonPrinter.PrintBuffer.PrintUnformatted` | src/cJSON.c:521-538 | the result is the printed form of the tree's value, or the call leaves the buffer or is refused, exactly as the requests of that value say; never for faithful strings and a text of int size |
| `JsonRoundTrip.DecodeEscaped` | src/cJSON.c:393-433 | escaping and decoding gives back every string of faithful bytes |
| `JsonRoundTrip.DecodeChanged` | src/cJSON.c:413-428 | every other string comes back changed or not at all |
| `JsonRoundTrip.StringRoundTrip` | src/cJSON.c:141-197 | a printed string is read to its end, and is the same string exactly if its bytes are faithful |
| `JsonRoundTrip.NumberRoundTrip` | src/cJSON.c:199-232 | every printed int is read back |
| `JsonRoundTrip.ValueRoundTrip` | src/cJSON.c:234-256 | a printed value in any context is read to its end, and is the same exactly under that condition at every depth |
| `JsonRoundTrip.ParseNested` | src/cJSON.c:258-262 | no parsed value nests deeper than the limit |
| `JsonRoundTrip.PrintThenParse` | src/cJSON.c:332-344 | print then parse is the identity and reads all of the text, if and only if all strings are faithful and nesting is at most 1000 |
| `JsonRoundTrip.ControlByteLost` | src/cJSON.c:413-428 | the one-byte string 01 does not survive |
| `JsonSpelling.BlanksSkipped` | src/cJSON.c:69-75 | any run of spaces, tabs, line ends and other control bytes in front of a token is skipped, and nothing else |
| `JsonSpelling.UnitsSpelled` | src/cJSON.c:141-197 | a string whose characters stand for themselves, behind a backslash or as hexadecimal code points is scanned to its closing quote and decoded to what they stand for |
| `JsonSpelling.NumberSpelled` | src/cJSON.c:199-232 | a sign and decimal digits, also with leading zeros, are read as that number |
| `JsonSpelling.ItemsRead` | src/cJSON.c:258-289 | the items of a list with blanks around every token are read as their values, up to the closing bracket |
| `JsonSpelling.EntriesRead` | src/cJSON.c:291-330 | the members of an object with blanks around every token are read as their keys and values |
| `JsonSpelling.SpellingRead` | src/cJSON.c:234-256 | every spelling of every value is read as that value |
| `JsonSpelling.TextRead` | src/cJSON.c:332-345 | a text with blanks before the value and anything behind it is read as the value |
| `JsonSpelling.ParseSpelled` | src/cJSON.c:332-345 | the parser builds the tree of the value that a text spells |
| `JsonCompact.PrintIsCompact` | src/cJSON.c:443-519 | the printed form of a value is its compact spelling: no blanks, no leading zeros, and only quotes, backslashes and control bytes escaped, by a letter |
| `JsonApi.PrintThenParseTree` | src/cJSON.c:332-344 | if printing succeeds, which is known from the value, parsing the text builds the same tree from new nodes, exactly if all strings are faithful and nesting is at most 1000 |
| `JsonApi.PrintStrings` | plugins/artixforge/install_hub.c:515 | an array of strings built item by item is printed as that array, or ends as that array's printing ends |
| `JsonApi.Build` | src/cJSON.c:540-612 | any value can be built as a well-linked tree of new items |
| `JsonApi.PrintBuilt` | src/cJSON.c:521-538 | and is printed from it as its requests for room say |
| `GifRaster.RowOrderPermutes` | src/stb_image.h:6679-6688 | the row order, interlaced or not, takes every row exactly once |
| `GifRaster.Frame.TargetsCover` | src/stb_image.h:6664-6688 | every pixel of the rectangle is the target of one of the first w * h indices |
| `GifRaster.Frame.TargetsDiffer` | src/stb_image.h:6664-6688 | no two of them have the same target |
| `GifRaster.Frame.TargetInside` | src/stb_image.h:6857-6863 | all targets lie inside the image |
| `GifRaster.Raster.NextRow` | src/stb_image.h:6679-6688 | stepping the cursor by lines and passes follows the row order of Appendix E of GIF89a |
| `GifRaster.Raster.Emit` | src/stb_image.h:6664-6688 | the n-th index is drawn at the n-th target and all other pixels stay |
| `GifRaster.Raster.PastTheEnd` | src/stb_image.h:6666 | once the rectangle is full nothing more is drawn |
| `GifLzw.Decoder.OutGifCode` | src/stb_image.h:6654-6662 | expanding a prefix chain terminates and emits the dictionary's string for the code |
| `GifLzw.Decoder.AddCode` | src/stb_image.h:6749-6759 | the new entry is the previous string with the first byte of this code's string, also when the code is the new one itself |
| `GifLzw.Decoder.Accept` | src/stb_image.h:6744-6768 | a data code is accepted exactly when the reference accepts it, with the same string, table and width |
| `GifLzw.Decoder.TakeCode` | src/stb_image.h:6719-6731 | the buffered bits give the next code of the payload across sub-block borders |
| `GifLzw.Decoder.ProcessRaster` | src/stb_image.h:6691-6774 | for every code size up to 12 the frame is accepted exactly when the run over its payload ends well, and its indices are emitted |
| `GifLzwSpec.ReactAlike` | src/stb_image.h:6733-6768 | one code is treated as in Appendix F unless the decoder's table is full |
| `GifLzwSpec.RunIsStandard` | src/stb_image.h:6691-6774 | a run is the standard's run, the same indices or the same refusal, if and only if in the standard's own code sequence fewer than 8192 - 2^cs data codes follow each other without a clear code; otherwise it gives up |
| `GifLzwSpec.BlocksJoined` | src/stb_image.h:6719-6727 | joining the sub-blocks that data is cut into gives the data back |
| `GifLzwSpec.LongRunRefused` | src/stb_image.h:6749-6753 | a clear code and 12300 zero bytes are accepted by the standard and refused by the decoder |
| `GifLzw.Decoder.DecodeFrame` | src/stb_image.h:6691-6774 | for minimum code sizes 2 to 8 a frame is accepted exactly when Appendix F's decoder accepts it and its code sequence has no such long row of data codes, with the same indices |
| `GifLzw.DecodeLongRun` | src/stb_image.h:6749-6753 | the frame with that data in sub-blocks is refused |
| `GifWriter.WidthGrows` | src/stb_image.h:6763-6766 | the decoder's width after each code is the number of bits of the greatest code that can stand there |
| `GifWriter.PieceRead` | src/stb_image.h:6744-6768 | the code for a single index, or for an earlier piece and the index behind it, gives that piece, also where the index is the first one of the piece itself |
| `GifWriter.FrameIsRead` | src/stb_image.h:6691-6774 | the codes that an LZW encoder writes for any indices, cut into pieces in any way, are read as these indices |
| `GifWriter.DecodeWritten` | src/stb_image.h:6691-6774 | the frame of these codes in sub-blocks is accepted and its indices are drawn |
| `JpegHuffman.SlotIsIndex` | src/stb_image.h:2007-2030 | in the ascending list of JPEG sizes a symbol's slot is its own number |
| `JpegHuffman.TableIsCanonical` | src/stb_image.h:2097-2146 | fast table and length search decode every window as Annex C of T.81 does |
| `JpegHuffman.ClashMisreads` | src/stb_image.h:2033-2044 | with a short code for symbol 255 some window is misread |
| `JpegHuffman.ClashExample` | src/stb_image.h:2033-2044 | one code of eight bits and 255 of nine are accepted, and some window is then misread |
| `JpegHuffman.DecodesCanonically` | src/stb_image.h:2097-2146 | the tables decode canonically on all windows if and only if symbol 255 has no short code |
| `JpegTables.Huffman.Build` | src/stb_image.h:2003-2046 | accepts exactly the counts of at most 256 codes that fit, and the tables then describe their code |
| `JpegTables.Huffman.FillCodes` | src/stb_image.h:2016-2031 | codes, the differences from code to symbol and the end codes of each length, refused exactly on overflow |
| `JpegDecode.Reader.GrowBuffer` | src/stb_image.h:2075-2091 | the buffer keeps holding the next bits of the unstuffed data, zeros after their end; it is filled to more than 24 bits unless it meets the marker just then |
| `JpegDecode.RefilledFacts` | src/stb_image.h:2075-2091 | a second filling always brings the bits |
| `JpegDecode.Reader.HuffDecode` | src/stb_image.h:2097-2146 | for every accepted table, the value of the symbol that table and length search find, its length consumed; -1 exactly if there is none or it reaches past the bits in the buffer |
| `JpegDecode.ReadAcIsStandard` | src/stb_image.h:2097-2146 | without a short code for symbol 255 that is what Annex C of T.81 defines |
| `JpegDecode.Reader.ExtendReceive` | src/stb_image.h:2153-2166 | rotation, mask and bias give the signed value of the next n bits (T.81 section F.2.2), and 0 with nothing consumed exactly if the marker has just cut them off |
| `JpegFastAc.BuildFastAc` | src/stb_image.h:2050-2073 | every entry is the packed run, length and value of its nine bits, or zero |
| `JpegFastAc.FastAcAgrees` | src/stb_image.h:2050-2073 | a non-zero entry gives the coefficient, run and position of the two single steps |
| `JpegFastAc.ReadCoefficient` | src/stb_image.h:2231-2259 | one round of the AC loop gives the coefficient, position and filling of TakeAc, for every accepted table and also past the data |
| `JpegFastAc.TakenIsRead` | src/stb_image.h:2231-2259 | that is the coefficient read from the zero-extended data in two single steps, unless there is a marker that has not been met and the reading goes past the data |
| `JpegBlock.DezigzagInverts` | src/stb_image.h:2192-2207 | the table lists the places in zigzag order (T.81 figure A.6); its fifteen extra entries are the last place |
| `JpegBlock.ZigzagInverts` | src/stb_image.h:2192-2207 | every place is in the table at its zigzag position, so no two of the 64 share one |
| `JpegBlock.AddIntsValid` | src/stb_image.h:1070-1075 | says exactly whether the sum is an int, and stays within int while finding out |
| `JpegBlock.MulChecked` | src/stb_image.h:1078-1084 | says whether the product fits a short, for exactly the factors given by the condition |
| `JpegBlock.MulCheckFails` | src/stb_image.h:1078-1084 | refuses -1 times -2 |
| `JpegBlock.PlaceOne` | src/stb_image.h:2240-2242 | one store through the table sets that one coefficient and no other |
| `JpegBlock.NoOverflow` | src/stb_image.h:2242-2258 | a value times its factor stays within int |
| `JpegBlock.DecodeDc` | src/stb_image.h:2215-2227 | the block holds just the new DC coefficient, refused exactly if no code is found, its size is over 15, the prediction leaves int or the product leaves short; also past the data |
| `JpegBlock.DecodeRest` | src/stb_image.h:2229-2261 | the AC loop reads the coefficients in zigzag order, mixing the combined table and single steps, also past the data, and never looks past the zigzag table |
| `JpegBlock.DecodeBlock` | src/stb_image.h:2210-2263 | on every input, accepted exactly if the code sequence read with the tables and the bit buffer gives a block, which is then in place, dequantised, with reader and prediction moved on; for reads that do not go past the data into a marker that is the sequence of T.81 section F.2.2 |
| `JpegBlock.BlockTaken` | src/stb_image.h:2075-2091 | a block is read as if zero bits followed the data whenever no marker ends them, the marker has been met before, or the block ends within the data |
| `JpegBlock.BlockIsStandard` | src/stb_image.h:2210-2263 | without a short code for symbol 255 in either table, that block is the one read by Annex C |
| `JpegBlock.DezigzagLine` | src/stb_image.h:2194-2207 | the table follows the zigzag line from the top left corner, step by step |
| `JpegWriter.MagnitudeRead` | src/stb_image.h:2153-2166 | the bits that an encoder writes for a value are read as that value |
| `JpegWriter.ValueRead` | src/stb_image.h:2244-2259 | a value behind any number of zeros, sixteen of them at a time, is read at its place |
| `JpegWriter.RestRead` | src/stb_image.h:2229-2261 | the AC coefficients are read as they were written, zeros at the end by the code for the end of the block |
| `JpegWriter.BlockRead` | src/stb_image.h:2210-2264 | any 64 coefficients written after a prediction with any canonical tables are read again, up to the last bit |
| `JpegWriter.DecodeWritten` | src/stb_image.h:2210-2264 | the decoder accepts such a block, leaves exactly those coefficients at their places, and stands behind its last bit |
| `JpegWriter.StuffedRead` | src/stb_image.h:2075-2091 | bytes stuffed as section F.1.2.3 of T.81 has it, with or without a marker behind them, are read as they were |
| `JpegWriter.DecodeScan` | src/stb_image.h:2949-2978 | all blocks of a scan of one component are decoded from the stuffed bytes, each with the last one's DC coefficient as prediction |
| `PngFilter.Paeth` | src/stb_image.h:4657-4668 | the branch-free form equals the predictor of the PNG specification for all integers |
| `PngFilter.ReconAt` | src/stb_image.h:4754-4785 | each reconstructed byte adds the prediction from bytes reconstructed before |
| `PngFilter.ReconFiltered` | src/stb_image.h:4754-4785 | reconstruction undoes filtering for each filter type, row and distance |
| `PngFilter.SubRow` | src/stb_image.h:4759-4763 | the loop reconstructs a sub row, and a Paeth row below a zero row |
| `PngFilter.AvgRow` | src/stb_image.h:4768-4773 | the loops reconstruct an average row |
| `PngFilter.PaethRow` | src/stb_image.h:4774-4779 | the loops reconstruct a Paeth row, with the shortcut for the first pixel |
| `PngFilter.UnfilterRow` | src/stb_image.h:4746-4785 | any row of any filter type; on the first row the substitutes stand for a zero row above that is never read |
| `PngSamples.ByteField` | src/stb_image.h:4797-4817 | shifting a byte up and taking its top bits yields its bit fields in order |
| `PngSamples.ExpandBits` | src/stb_image.h:4790-4817 | depths 1, 2 and 4: every sample of the row, scaled, without overflow |
| `PngSamples.AlphaExpand8` | src/stb_image.h:4675-4693 | the backward loops insert alpha correctly even where source and destination start together |
| `PngSamples.ShowPairs` | src/stb_image.h:4827-4851 | depth 16: big-endian pairs, with alpha if wanted |
| `PngSamples.ShowRow` | src/stb_image.h:4789-4852 | a row of any depth and channel count becomes its output samples, nothing else changes |
| `PngImage.RowsRestored` | src/stb_image.h:4736-4787 | for every image and choice of filters the reconstructed rows are the original ones |
| `PngImage.Png.DecodeRows` | src/stb_image.h:4736-4853 | with two alternating row buffers every row is the reconstructed one; refused exactly for an unknown filter type |
| `PngImage.Png.CreateImageRaw` | src/stb_image.h:4696-4859 | succeeds exactly if nothing is too large, the data is complete and all filter types are known, and then shows the reconstructed image |
| `PngImage.FilteredImageShown` | src/stb_image.h:4696-4859 | decoding filtered data shows the samples of the original rows |
| `PngRules.RuleDecides` | src/stb_image.h:4754-4785 | reconstruction leaves exactly the row for which each byte less its filtered one is the prediction as the PNG specification words it: nothing, left, above, half the sum rounded down, or the nearest of the three to left plus above less upper left |
| `PngRules.PackedSample` | src/stb_image.h:4789-4849 | samples of any depth packed one after the other, the highest bits first, are found again |
| `PngRules.PixelIs` | src/stb_image.h:4789-4852 | grey samples are spread so that the largest becomes 255, and an added alpha channel is opaque |
| `PngRules.DecodeImage` | src/stb_image.h:4696-4859 | the data of an image, packed and filtered row by row with any filter types, is decoded to its samples, pixel by pixel |
| `Adam7.StepsCount` | src/stb_image.h:4880-4881 | in unsigned arithmetic the pass sizes count exactly the positions inside the image, without underflow |
| `Adam7.TargetBelongs` | src/stb_image.h:4888-4893 | every pass pixel goes to a place inside the image that belongs to its pass |
| `Adam7.EveryPixelOnce` | src/stb_image.h:4873-4895 | every image pixel is the target of exactly one pixel of one pass |
| `Adam7.PassByPattern` | src/stb_image.h:4874-4877 | each pass goes to the pixels that bear its number in the 8 by 8 pattern of the PNG specification |
| `PngInterlace.CopyPixel` | src/stb_image.h:4890-4893 | the copied pixel is in place and all other pixels stay |
| `PngInterlace.CopyPass` | src/stb_image.h:4888-4895 | all pixels of a pass are in place and those of other passes stay |
| `PngInterlace.CreateInterlaced` | src/stb_image.h:4861-4904 | succeeds exactly if every non-empty pass can be decoded, and then every pixel is the right one of its pass |
| `Cmap.FindSegment` | src/stb_truetype.h:1226-1251 | the search by halves lands on the first segment ending at the code point or later and stays inside the segments |
| `Cmap.FindGlyph4` | src/stb_truetype.h:1219-1263 | format 4 agrees with a linear scan for every code point, and with the OpenType specification exactly if idDelta is not missed |
| `Cmap.GlyphIsStandard` | src/stb_truetype.h:1258-1262 | the scanned glyph is that of the OpenType specification exactly unless the code point's segment finds a glyph other than 0 in the glyph array and has an idDelta other than 0 |
| `Cmap.DeltaLeftOut` | src/stb_truetype.h:1258-1262 | in a valid table of one segment with idDelta 1 the scanned glyph is 7 where the specification has 8 |
| `Cmap.FindShifted` | src/stb_truetype.h:1219-1263 | the search on such a table finds glyph 7 |
| `Cmap.GroupSide` | src/stb_truetype.h:1270-1284 | one comparison rules out all groups on one side |
| `Cmap.FindGlyph12` | src/stb_truetype.h:1264-1286 | formats 12 and 13 agree with a linear scan for every code point |
| `CmapWriter.GlyphRead` | src/stb_truetype.h:1258-1262 | the offset of a segment leads to its own glyphs behind the table |
| `CmapWriter.FindWritten4` | src/stb_truetype.h:1219-1263 | in a format 4 table written for any segments, a code point is found as what its segment maps it to, by a difference or a list, and others have no glyph |
| `CmapWriter.FindWritten12` | src/stb_truetype.h:1264-1286 | in a format 12 or 13 table written for any groups, a code point is found as its group's glyph, counted on in format 12, and others have none |
| `EdgeSort.InsertionSort` | src/stb_truetype.h:3102-3118 | sorts, keeping the edges |
| `EdgeSort.MedianToFront` | src/stb_truetype.h:3127-3147 | the first edge becomes the median of three, with one edge not smaller and another not larger behind it |
| `EdgeSort.Partition` | src/stb_truetype.h:3149-3169 | the unguarded scans stay inside; edges before i are not larger and edges after j not smaller than the first; at most one edge between the parts |
| `EdgeSort.PartitionDistinct` | src/stb_truetype.h:3149-3169 | if all edges differ in y0, exactly one edge ends up in neither part |
| `EdgeSort.Quicksort` | src/stb_truetype.h:3120-3180 | terminates on strictly smaller parts and only rearranges its range |
| `EdgeSort.SortEdges` | src/stb_truetype.h:3182-3186 | the same edges in order of y0 |
| `CharstringSpec.StepAdvances` | src/stb_truetype.h:1725-1966 | every command uses up bytes of its buffer and leaves the buffers of outer callers alone: the lexicographic measure of termination |
| `CharstringDraws.OperatorDraws` | src/stb_truetype.h:1762-1837 | the ten line and curve operators, for every stack: each vertex and control point is where the arguments up to it lead, each along its own axis; too few arguments are refused, left-over ones have no effect |
| `CharstringDraws.FlexStep` | src/stb_truetype.h:1867-1947 | the four flex operators draw two curves through the six points that their arguments give; where they end level with their beginning |
| `CharstringDraws.MoveStep` | src/stb_truetype.h:1746-1760 | a move takes the last argument or the last two, closes the contour and begins another one there |
| `CharstringDraws.VertexNear` | src/stb_truetype.h:1660-1669 | coordinates are cut off towards zero |
| `CharstringOperands.IntPushed` | src/stb_truetype.h:1949-1963 | every integer of 16 bits is pushed from its bytes in one, two or three bytes |
| `CharstringOperands.FixedPushed` | src/stb_truetype.h:1954-1955 | every number of 16.16 bits is pushed from its five bytes |
| `CharstringOperands.SubroutineCalled` | src/stb_truetype.h:1671-1683 | subroutine i is called by i less 107, 1131 or 32768, depending on how many there are |
| `CharstringOperands.MaskPassed` | src/stb_truetype.h:1731-1737 | a hint mask is passed over in as few bytes as hold a bit for each stem |
| `Charstring.Context.V` | src/stb_truetype.h:1623-1637 | one more vertex, measured into the box or stored in the next place |
| `Charstring.Context.AxisLineTos` | src/stb_truetype.h:1768-1785 | the loop entered at either half draws the lines along the axes in turn |
| `Charstring.Context.AxisCurveTos` | src/stb_truetype.h:1787-1801 | the same for curves, with the fifth argument at the end |
| `Charstring.Context.RCurveLine` | src/stb_truetype.h:1809-1815 | curves and a final line; the second stack check never fires |
| `Charstring.Context.RLineCurve` | src/stb_truetype.h:1817-1823 | lines and a final curve; the second stack check never fires |
| `Charstring.Context.StraightCurveTos` | src/stb_truetype.h:1825-1837 | curves along one axis, the first one shifted by the odd argument |
| `Charstring.Context.FlexCurves` | src/stb_truetype.h:1867-1942 | the four flex operators as two curves |
| `Charstring.ControlOperator` | src/stb_truetype.h:1729-1861 | hints, calls and returns step the machine as specified, with all refusals |
| `Charstring.RunCharstring` | src/stb_truetype.h:1713-1970 | terminates on every program, and in both modes answers and draws exactly what the program says |
| `Charstring.GetGlyphShapeT2` | src/stb_truetype.h:1972-1987 | the writing pass fills exactly the vertices that the counting pass found |
| `Charstring.GetGlyphInfoT2` | src/stb_truetype.h:1989-1998 | the smallest box around all end points and cubic control points, zero for a glyph without any |
| `CharstringBox.StoredIfBoxFits` | src/stb_truetype.h:1633-1635 | stored points are the drawn ones exactly if the box fits 16 bits |
| `CharstringBox.StoredInsideBox` | src/stb_truetype.h:1633-1635 | every stored point lies inside a box that fits 16 bits |
| `CharstringBox.StoredInBoxIff` | src/stb_truetype.h:1633-1635 | stored points lie inside the box exactly if every drawn coordinate outside of 16 bits comes back into it |
| `CharstringBox.SettledHolds` | src/stb_truetype.h:1633-1635 | stored points lie inside every box whose sides fit 16 bits or cover them |
| `CharstringPaths.ContourDrawn` | src/stb_truetype.h:1713-1970 | the program written for a list of places, each near the one before, draws the closed contour through them |
| `CharstringPaths.FirstVertex` | src/stb_truetype.h:1713-1970 | the first point that any program draws is in the range of 16 bits |
| `CharstringPaths.BoxIsDrawn` | src/stb_truetype.h:1713-1970 | some glyph has a given box if and only if both its sides reach into 16 bits |
| `CharstringPaths.BoxHoldsStored` | src/stb_truetype.h:1633-1635 | all glyphs with a box have their stored points inside it exactly if each of its sides fits 16 bits or covers them, or no glyph has the box |
| `CharstringPaths.StoredOutside` | src/stb_truetype.h:1972-1998 | for a program of lines to x = 20000 and x = 40000 the box is [0, 40000] and a stored vertex has x = -25536 |
| `CharstringPaths.StoredInsideWideBox` | src/stb_truetype.h:1972-1998 | for a program of lines from x = -40000 to x = 40000 two stored points are other than the drawn ones, and all lie in the box |
| `Prefilter.WindowMoves` | src/stb_truetype.h:3731-3735 | the window's sum changes by the sample that comes and the one that goes |
| `Prefilter.TotalMoves` | src/stb_truetype.h:3731-3771 | the unsigned total never wraps and is always the exact window sum |
| `Prefilter.RingMoves` | src/stb_truetype.h:3733-3734 | the ring buffer holds each sample until it leaves the window, for widths up to 8 |
| `Prefilter.FilterLine` | src/stb_truetype.h:3722-3771 | in place, every sample becomes the floor of its window's mean and nothing else changes |
| `Prefilter.HPrefilter` | src/stb_truetype.h:3715-3775 | every row of the rectangle is box filtered, everything outside stays |
| `Prefilter.VPrefilter` | src/stb_truetype.h:3777-3837 | every column of the rectangle is box filtered, everything outside stays |
| `HubSpec.Matching` | plugins/artixforge/install_hub.c:123-143 | the strictly increasing list of exactly the indices whose lower-cased text contains the lower-cased query |
| `HubSpec.EmptyQueryMatches` | plugins/artixforge/install_hub.c:125-128 | the shortcut for an empty query is that list |
| `HubSpec.TypedText` | plugins/artixforge/install_hub.c:471 | a typed byte goes into the text at the cursor, a zero cuts it off there, and one behind the end nothing shows |
| `HubSpec.ErasedInside` | plugins/artixforge/install_hub.c:472 | a backspace inside the text takes out the byte in front of the cursor |
| `HubSpec.ErasedBehind` | plugins/artixforge/install_hub.c:472 | behind the end it joins the string at the cursor to the text, or leaves the text as it is |
| `Hub.HubData.HubGet` | plugins/artixforge/install_hub.c:46-50 | the value of the key |
| `Hub.HubData.HubSet` | plugins/artixforge/install_hub.c:52-61 | only that key's value changes and keys stay distinct |
| `Hub.HubData.HubGetItem` | plugins/artixforge/install_hub.c:78-87 | the visible item at the cursor |
| `Hub.HubData.UpdateFilter` | plugins/artixforge/install_hub.c:123-143 | the index list is exact and the selection is pulled back into it |
| `Hub.HubData.EnterEdit` | plugins/artixforge/install_hub.c:212-240 | every kind of editing starts from the item's current value: selected in the lists, as text, as yes or no, or from nothing |
| `Hub.HubData.MenuKey` | plugins/artixforge/install_hub.c:458-466 | the selection moves within the choices and Enter stores the selected one with its profile; it crashes exactly if there is none |
| `Hub.HubData.TypeByte` | plugins/artixforge/install_hub.c:471 | strlen, realloc, memmove and store put the byte in place, whatever realloc's new bytes are; they go outside of the block exactly if the cursor is two behind the end of the text |
| `Hub.HubData.EraseByte` | plugins/artixforge/install_hub.c:472 | strlen and memmove take out the byte in front of the cursor; strlen goes outside of the block exactly if no zero follows the cursor |
| `Hub.HubData.InputKey` | plugins/artixforge/install_hub.c:467-479 | the keys edit the text's block at the cursor, Enter stores the text, and it crashes exactly as typing and erasing do; from inside the text every key edits the text at the cursor without a crash, and the cursor stays inside exactly if the key is no zero byte |
| `Hub.HubData.InsideIsSafe` | plugins/artixforge/install_hub.c:467-479 | with the cursor inside the text no key crashes |
| `Hub.HubData.PasswordKey` | plugins/artixforge/install_hub.c:480-489 | the keys edit the chosen field, in which a zero byte leaves nothing, and Enter stores the password exactly if both are equal and not empty |
| `Hub.HubData.YesNoKey` | plugins/artixforge/install_hub.c:490-498 | Enter stores the choice, and y and n store theirs |
| `Hub.HubData.SubWidgetKey` | plugins/artixforge/install_hub.c:442-455 | the result that an embedded widget answers is stored under the item it was opened on: a string as it is, a boolean as yes or no, an array or object as printed from its tree of items; it crashes exactly where that cannot be printed |
| `Hub.HubData.FilterKey` | plugins/artixforge/install_hub.c:499-509 | every key keeps the invariant and moves query and selection as it should; Enter stores the selected choice under the item editing was opened on |
| `Hub.HubData.MultiselectKey` | plugins/artixforge/install_hub.c:510-520 | selection and query as in filter mode, the space bar toggles exactly the selected choice, and Enter stores the marked choices in order as a JSON array, built and printed as cJSON items; it crashes exactly where that print leaves its buffer or is refused |
| `Hub.HubData.BrowseKey` | plugins/artixforge/install_hub.c:532-542 | Down moves only onto a visible item, Left and Right wrap around the categories, Enter opens the item at the cursor in the way of its widget, and function keys choose their action; without categories Enter and Down crash |
| `Hub.HubData.ConfirmKey` | plugins/artixforge/install_hub.c:532-533 | only y answers, and proceeding answers with the whole store |
| `Hub.HubData.HandleKey` | plugins/artixforge/install_hub.c:526-543 | the invariant holds after every event in every mode, and the store changes only by what the open edit commits, under the item that was opened; it crashes exactly at Enter in an empty menu or on marked choices that cannot be printed, on such a result of a widget, on typing or erasing outside of a text's block, and at Enter or Down without categories; the cursor stays in the text unless a zero byte is typed |
| `Hub.HubData.CommitsArePossible` | plugins/artixforge/install_hub.c:442-520 | what an event stores is a possible value of an item of the hub, such as one of its choices, and the event is one that ends an edit |
| `Hub.HubData.constructor` | plugins/artixforge/install_hub.c:569-618 | the store holds the items' values, later ones of the same id in place of earlier ones |
| `Hub.HubData.Run` | plugins/artixforge/install_hub.c:526-543 | through any run of events the invariant holds, and the store is the one from before with what each event has committed put in order, all of it possible values of the hub's items; an answer is that store; without typed zero bytes the cursor of an input stays in its text |
| `Hub.EnterTwice` | plugins/artixforge/install_hub.c:458-466 | in a hub with a menu without choices the second Enter crashes |
| `Hub.TypeBehindEnd` | plugins/artixforge/install_hub.c:471 | in a hub with an input of any value, a zero byte and two bytes more crash |
| `Hub.EnterNowhere` | plugins/artixforge/install_hub.c:78-87 | Enter crashes in a hub without categories |
| `Hub.MarkAndEnter` | plugins/artixforge/install_hub.c:515 | in a hub with a multiselect whose one choice is 51 bytes 01, opening it, marking the choice and Enter crash |
| `HubScripts.ChooseFromMenu` | plugins/artixforge/install_hub.c:458-466 | any choice of a menu can be reached with the arrows and stored under its item alone |
| `HubScripts.TypeText` | plugins/artixforge/install_hub.c:467-479 | text that is typed into an input goes to the end of the value that was there |
| `HubScripts.AnswerByLetter` | plugins/artixforge/install_hub.c:490-498 | y and Y store yes, n and N store no |
| `HubScripts.AnswerByEnter` | plugins/artixforge/install_hub.c:490-498 | Enter keeps an answer, and Tab turns it over |
| `HubScripts.SetPassword` | plugins/artixforge/install_hub.c:480-489 | a password is stored exactly if it is typed alike twice and not empty |
| `HubScripts.FindChoice` | plugins/artixforge/install_hub.c:499-509 | typing a query and Enter stores the first choice that holds it in capital or small letters |
| `HubScripts.ListedByName` | plugins/artixforge/install_hub.c:69-72 | a value is listed in a condition exactly if it is one of the names between its commas, blanks before them aside |
| `HubScripts.NthVisibleIs` | plugins/artixforge/install_hub.c:78-87 | the cursor is on the visible item that has as many visible ones before it as its position says |
| `HubScripts.ChosenAt` | plugins/artixforge/install_hub.c:510-520 | the marked choices are stored in the order of the choices |
| `HubScripts.LowerIsAscii` | plugins/artixforge/install_hub.c:123-143 | each capital letter matches as its small one, and nothing else is changed |

## Left out

- Inflate.ZBuf.Expand: a zero initial size for an expandable buffer is excluded by a precondition, because the doubling loop of stbi__zexpand would not end for it (ZeroNeverGrows).
- Allocation failures: allocation always succeeds, apart from the size checks in the code.
- JsonParser.ParseBuffer.ParseNumberItem: numbers other than integer literals of int range, also 1e2 and 12., are reported as not modelled; the printer model has none.
- JsonParser.ParseBuffer.ParseDocument: a document with such a number gives no tree here.
- JsonSpelling.SpellingRead: is silent about texts outside of RFC 8259 that the parser takes all the same, such as hexadecimal escapes with digits that are none, which count as 0.
- JSON strings with a zero byte: C code sees them cut there; the parsed item keeps all decoded bytes, and only duplicates and searches by name cut them.
- JsonTree.DetachItemViaPointer: an item of another list, which has a prev link, is unlinked from that list with the wrong parent; such calls are excluded (DetachForeign).
- JsonForest.Forest.Append: appending a tree to a list inside itself, which makes a cycle, is excluded (AppendInside).
- cJSON_Delete, most cJSON_Create and all cJSON_AddXToObject functions and the type queries: freeing memory and easy members.
- InflateSpec.Header: takes window sizes above 32 KiB, as the code does, which RFC 1950 excludes; and the checksum behind a zlib stream is read by neither.
- InflateSpec.DynamicTables: takes 287 and 288 literal codes, as the code does, which section 3.2.7 of RFC 1951 excludes; a valid stream here is one for these laxer rules.
- Bitwise operators on machine words are functions on natural numbers with explicit widths; `k & ~m` on disjoint masks is a subtraction.
- GifRaster.Raster.Emit: counts offsets in pixels instead of four bytes each, and leaves out palettes, transparency and disposal between frames.
- GifLzw.Decoder.DecodeFrame: minimum code sizes outside 2 to 8 are only compared with the code's own rules (ProcessRaster), because Appendix F does not define them.
- JpegDecode.Reader.HuffDecode: leaves out the STBI_ASSERT on the found code, which aborts in a build with assertions where symbol 255 clashes (src/stb_image.h:2140).
- JpegWriter.DecodeScan: collects the blocks where the code transforms each of them, and has no restart intervals.
- JPEG segments and restart intervals, progressive scans, the inverse transform and colour conversion.
- The PNG chunk reader, palettes and transparency; samples of 16 bits are numbers, not two bytes in the machine's order.
- The three loops that expand 1, 2 and 4 bit samples differ only in the depth and are one method with the depth as parameter; the same holds for the five kernel widths of the prefilters.
- Negative code points, and cmap formats 0, 2 and 6: table look-ups without search.
- Floating point in fonts: coordinates are real numbers, and a cast to int drops the fraction without a range limit; edges with NaN are excluded.
- Charstring.ControlOperator: leaves out the STBTT_assert of stbtt__buf_seek (src/stb_truetype.h:852), which aborts in a build with assertions when a hint mask skips past the end of its buffer.
- The CFF INDEX and dictionary parsers: a font is given by its charstrings and subroutines; the choice of subroutines by FDSelect is a parameter.
- The rasterizer, TrueType outlines and the packers.
- HubSpec.LowerByte: is tolower in the C locale, which leaves bytes from 128 on as they are.
- Hub.HubData.EnterEdit: leaves out the disk picker, whose choices come from lsblk.
- Hub.HubData.Commit: what a quick profile stores is a parameter, the profile tables are not part of this model.
- Hub rendering, and the widgets embedded in the hub: their replies are parameters.
