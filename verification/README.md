# Verified models of the boot tools' codecs

This project models three parts of the repository in Dafny and proves what they promise.

* **The LZ4 block codec** (`tools/lz4.c`). `Lz4Format` defines what a block *is*: a list of sequences, its
  LZ77 expansion over a history, its bytes, and the parsing restrictions of the LZ4 block format.
  The compressor (`Lz4Emit`, `Lz4Count`, `Lz4Job`, `Lz4Compress`, `Lz4Context`, `Lz4OneShot`,
  `Lz4Streaming`) and the decoders (`Lz4Copy`, `Lz4Cut`, `Lz4DecodeState`, `Lz4Decode`, `Lz4DecodeReference`,
  `Lz4DecodeApi`, `Lz4StreamDecode`) are imperative, over arrays, positions and the mutable state of the
  original, and are proved against that definition. `Lz4RoundTrip` puts both sides together.
* **The newc cpio reader and its writers** (`tools/bootstrap.c`, `tools/insert_devnodes.py`,
  `tools/pack_cpio.py`): `CpioFormat`, `CpioUnpack`, `CpioInsert`.
* **The dependency closure** (`tools/dep_closure.py`): `DepClosure`.

`ByteSeq` holds the type of bytes and what it means for bytes to stand at a position.
`dafny verify dfyconfig.toml` checks everything.

## How the codec is modelled

Memory is a sequence or array of bytes, a pointer is a position in it. The configuration is the 64-bit
little-endian one with `LZ4_MEMORY_USAGE` 14, `LZ4_DISTANCE_MAX` 65535 and `LZ4_FAST_DEC_LOOP` 1; the
64-byte stripes of AArch64 are a parameter of the decoder. Integers are unbounded; where the C code
depends on 16 or 32 bits (indexes kept in the table, `currentOffset`, the delta of a renormalisation) the
reduction is written out, and where it does not, the proofs show that values stay in range.

A decoder is one function with two loops and gotos between them; its program points are a datatype, and
one invariant (`Good`) says for each what has been read and written. A compressor call is a `Job`: history
and source are seen as one stream, in which table indexes are positions. `Encodes(out, hist, data)` is the
hinge: `out` is a conforming block that stands for `data` after the history `hist`. Compressors establish
it, decoders use it. `Covers(h, hist)` says that two histories end alike as far as offsets reach, which is
all that a decoder, or a table that survives a call, may rely on.

## What the code does that its documentation does not say

* The decoders accept the offset 0, which the block format forbids. A full decoding then writes zero bytes;
  the expansion in `Lz4Format` says so too, so that success and meaning of a full decoding hold for such
  blocks (`Fitting`, as opposed to `Conforming`). The reference decoder leaves what was in the output
  instead. Compressed output is shown never to contain it.
* A full decoding may accept blocks that break the end-of-block rules; the reference decoder accepts exactly
  those that keep them. What is proved about success of `LZ4_decompress_safe` is about blocks that keep
  them (`Fits`); what is proved about bounds and meaning, and that everything else it accepts is a block with
  room, is about all inputs.
* `pack_cpio.trailer` writes a header of eleven fields, without the two of the device number. A reader of
  thirteen fields finds the name where it looks for the size of the name. `unpack_cpio` therefore answers -2,
  after it has taken all entries, to every archive that `pack_cpio` writes (`PackedUnpacks`), and to every
  archive of entries in its own layout, with any filler, that this trailer ends (`WrittenUnpacks`); `main` of
  the bootstrapper then powers off (`tools/bootstrap.c:136`). With a trailer of thirteen fields the answer is 0
  (`UnpackArchive`).
* `pack_cpio.entry` pads between name and data, while `unpack_cpio` expects the data right behind the name: it
  sees a record whose data begin too early, and a gap of nothing or four bytes behind it (`PackedIsRecord`).
  `PackedReads` says exactly when the data survive, `PackedLoses` shows a file that does not.
* `insert_devnodes` looks for headers at multiples of four only, `unpack_cpio` at every position. A device
  directory that filler has moved off a multiple of four is unpacked, but not found by the scan
  (`OneByteMisses`); and what lies inside an entry that it does not see can look to it like the directory
  (`ShamHeader`). `SplicePreserves` is about the first device directory that the scan can see, and presumes
  that there is no such sham header before it (`Undisturbed`), as in archives that `pack_cpio` writes
  (`PackedSplices`).
* `dep_closure` lists a library as removable although it is loaded, if another name leads to the same file:
  its whole path, a symbolic link, a name like `./a`. It also misses what a library needs that it found but
  that is not in the listing. `RemovableLibraries` says that these are the only cases, and `Straight` which images
  are free of them; the three lemmas behind it are examples.

## Model

| member | source | states |
|---|---|---|
| `Lz4Format.CopyMatchUnique` | tools/lz4.c:2205-2219 | A window that keeps what was there and repeats it at the match distance is the match copy, however it was produced |
| `Lz4Format.CopyMatchAt` | tools/lz4.c:1960-1964 | Every byte of a match equals the byte `offset` before it, overlap included |
| `Lz4Format.ExpandExtend` | tools/lz4.h:433-437 | More history in front of what the offsets reach does not change an expansion |
| `Lz4Format.ConformingAt` | tools/lz4.c:243-250 | In a conforming block any sequence has an offset of 1..65535 inside the window, starts its match 12 bytes and ends it 5 bytes before the end |
| `Lz4Format.Layout` | tools/lz4.c:1121-1234 | Where token, literal length, literals, offset and match length of a sequence stand, both directions |
| `Lz4Format.ParseSerialize` | tools/lz4.c:1121-1338 | Parsing the bytes of a block gives the block back |
| `Lz4Format.ParseSound` | tools/lz4.c:2226-2371 | Whatever parses is the serialisation of what it parses to, so the format is unambiguous both ways |
| `Lz4Copy.WildCopy8` | tools/lz4.c:465-473 | Copies through the end by whole words, with the period of the distance, writing at most 7 bytes past it |
| `Lz4Copy.WildCopy32` | tools/lz4.c:530-541 | The same in two 16-byte halves, for distances down to 16 |
| `Lz4Copy.WildCopy64` | tools/lz4.c:513-527 | The same in 64-byte steps, for distances of at least 64 |
| `Lz4Copy.StretchIsMultiple` | tools/lz4.c:475-511 | After the tabulated prologue, source and destination are at least 8 and a multiple of the offset apart |
| `Lz4Copy.StretchRepeats` | tools/lz4.c:475-511 | Copying at that stretched distance repeats with the offset itself |
| `Lz4Copy.MemcpyUsingOffsetBase` | tools/lz4.c:491-511 | The prologue and chunked copy equal the overlapping byte copy, for every offset below 16 |
| `Lz4Copy.MemcpyUsingOffset` | tools/lz4.c:540-581 | The same including the stored patterns for offsets 1, 2 and 4; writes stay within 12 bytes of the end |
| `Lz4DecodeState.AcceptableMatch` | tools/lz4.c:2372-2453 | On a block that fits, no check at a match can fail; only a partial decoding presumes that offsets are not zero |
| `Lz4DecodeState.LitsCopied` | tools/lz4.c:2289-2356 | Copied literals carry the invariant from the literals to the offset |
| `Lz4DecodeState.MatchCopied` | tools/lz4.c:2372-2453 | A copied match carries the invariant to the next token |
| `Lz4DecodeState.PartialMatchCopied` | tools/lz4.c:2409-2423 | A match cut at the end of the output leaves a prefix of the expansion |
| `Lz4Cut.CutOfPrefix` | tools/lz4.c:2303-2348 | What can be read of the first bytes of a block stands for the beginning of what the block stands for |
| `Lz4Cut.CutWholeAhead` | tools/lz4.c:2315-2348 | Literals that the input still has are part of what can be read of it, and the last part when no offset can follow |
| `Lz4Decode.ReadVariableLength` | tools/lz4.c:1983-2013 | Reads exactly an extended length, or fails because it would reach the limit |
| `Lz4Decode.LiteralLength` | tools/lz4.c:2092-2104 | The literal length, with an error only where the block is not acceptable |
| `Lz4Decode.FastLiterals` | tools/lz4.c:2080-2121 | The literal half of the fast loop keeps the invariant, whichever exit it takes |
| `Lz4Decode.FastMatch` | tools/lz4.c:2123-2219 | The match half of the fast loop keeps the invariant: 18-byte, dictionary, pattern and stripe copies |
| `Lz4Decode.ExtDictMatch` | tools/lz4.c:2377-2403 | A match in the external dictionary, also one that runs on into the prefix, is the match copy |
| `Lz4Decode.SafeHead` | tools/lz4.c:2226-2273 | The two-stage shortcut keeps the invariant and hands over at the right point when a stage does not apply |
| `Lz4Decode.SafeLiterals` | tools/lz4.c:2289-2352 | Literals in the middle or at the end of a block: errors only where the block is not acceptable |
| `Lz4Decode.PartialLiterals` | tools/lz4.c:2303-2348 | In partial decoding, exactly as many literals as input and output have are copied, and decoding stops when the output is full or no offset can follow |
| `Lz4Decode.SafeCopy` | tools/lz4.c:2425-2453 | The 8-byte match copy with its byte-wise tail equals the overlapping copy and stays in the buffer |
| `Lz4Decode.PartialMatch` | tools/lz4.c:2409-2423 | As much of a match as fits |
| `Lz4Decode.FastLoop` | tools/lz4.c:2080-2220 | Runs until it leaves for some point of the safe loop, with the invariant of that point |
| `Lz4Decode.SafeStep` | tools/lz4.c:2226-2454 | From any point of the safe loop to the next, with progress |
| `Lz4Decode.DecompressGeneric` | tools/lz4.c:2021-2464 | For every input, capacity and history mode: it terminates in bounds, changes nothing outside the output, returns at most the capacity or a negative value; success of a full decoding means the input is a block and the output its expansion; blocks that fit succeed, with offsets of zero too; partial decoding of a conforming block gives the prefix that fits, and of input that is cut off an error or as much as fits of what can be read |
| `Lz4DecodeReference.DecompressUnsafeGeneric` | tools/lz4.c:1859-1975 | On any input: it succeeds if and only if the input begins with a block that fits the history and has exactly the output size, and then returns the size of that block, the only one there; if no offset is zero the output is its expansion. Otherwise it refuses, or would read past its input |
| `Lz4DecodeReference.Completed` | tools/lz4.c:1910-1918 | Literals that fill the output complete a block, and no other block of that size stands there |
| `Lz4DecodeReference.Expected` | tools/lz4.c:1896-1973 | Whatever block stands in the input makes the decoder read its next sequence, and no check fails on it |
| `Lz4DecodeApi.EncodesCovered` | tools/lz4.c:2577-2587 | What a block stands for depends only on the last 65535 bytes of history |
| `Lz4DecodeApi.EncodesUnique` | tools/lz4.c:2021-2464 | A block stands for one text after a history |
| `Lz4DecodeApi.DecodedGives` | tools/lz4.c:2456-2464 | From the result of the generic decoder to the text a compressor wrote |
| `Lz4DecodeApi.DecompressSafe` | tools/lz4.c:2469-2475 | Without history: gives back any text that a block stands for; accepts every block that fits; and on any input, what it accepts is a block and what it writes is the expansion of that |
| `Lz4DecodeApi.AcceptedIsBlock` | tools/lz4.h:196-198 | So input that is malformed, or stands for more than there is room for, gives a negative result, and a block that fits its exact size |
| `Lz4DecodeApi.DecompressSafeWithPrefix` | tools/lz4.c:2497-2529 | The same with the history right before the output, of any size |
| `Lz4DecodeApi.DecompressSafeDoubleDict` | tools/lz4.c:2541-2587 | The same with part of the history elsewhere |
| `Lz4DecodeApi.DecompressSafeUsingDict` | tools/lz4.c:2738-2751 | The same, error results included, wherever the dictionary lies |
| `Lz4DecodeApi.DecompressSafePartial` | tools/lz4.c:2477-2484 | The first min(target, capacity, size) bytes of the text; of a block that is cut off anywhere, an error or the first min(target, capacity, what can be read) bytes |
| `Lz4DecodeApi.DecompressSafePartialUsingDict` | tools/lz4.c:2753-2766 | The same with a dictionary |
| `Lz4DecodeApi.DecompressConfined` | tools/lz4.h:194-203 | For any input and mode, the decoder works in a memory of nothing but source, history and output: it reads nothing else |
| `Lz4Count.NbCommonBytesIs` | tools/lz4.c:616-618 | Xor, mask, multiply and shift give the index of the lowest nonzero byte of any nonzero 64-bit word |
| `Lz4Count.BitsInjective` | tools/lz4.c:393-400 | Bytes with the same bits are the same, so words compare as bytes do |
| `Lz4Count.Count` | tools/lz4.c:688-712 | Exactly the length of the longest common run up to the limit |
| `Lz4Emit.WriteMatchExt` | tools/lz4.c:1222-1232 | Four 0xFF bytes at a time, then the rest, are the extension of the length, and where the spill may go |
| `Lz4Emit.WriteLiterals` | tools/lz4.c:1132-1143 | Token, literal length and literals in place, with the spill of 8-byte copies inside the output |
| `Lz4Job.StreamSame` | tools/lz4.c:955-980 | Comparing bytes in memory is comparing them in the stream of history and source |
| `Lz4Job.IndexFits` | tools/lz4.c:719-719 | No index is cut off when stored, 16 bits being enough below `LZ4_64Klimit`; except in a call that starts at 64 KB or above, where what is left of it is too low to be tried |
| `Lz4Job.PutIndex` | tools/lz4.c:829-840 | Storing an index keeps the invariant of the table |
| `Lz4Job.TriedIsNear` | tools/lz4.c:1094-1103 | An entry that passes the tests lies in the stream, before the current position and at most 65535 back |
| `Lz4Compress.TryCandidate` | tools/lz4.c:1055-1108 | A candidate is found if and only if it passes the tests and shares 4 bytes; it is a match of at least 4 bytes; the position takes its slot and the table stays usable |
| `Lz4Compress.Search` | tools/lz4.c:1049-1111 | The first hit among the positions of the skip schedule, or none before the last 12 bytes; with the table after exactly these attempts |
| `Lz4Compress.CatchUp` | tools/lz4.c:1113-1118 | Extends a match backwards over equal bytes, to the anchor, the lower limit or a difference |
| `Lz4Compress.MatchCode` | tools/lz4.c:1174-1194 | The match ends 5 bytes before the end of the source or at a difference, across the end of the external dictionary too: it is as long as it can be |
| `Lz4Compress.MaximalIsLongest` | tools/lz4.c:1174-1194 | No longer match exists at that distance |
| `Lz4Compress.SequenceEmitted` | tools/lz4.c:1120-1234 | A written sequence extends the block so far to one that expands to the source so far |
| `Lz4Compress.EncodeLiterals` | tools/lz4.c:1120-1146 | Literals in place; given up only when not even the shortest sequence with them, and what must follow it, fits |
| `Lz4Compress.EncodeMatch` | tools/lz4.c:1156-1234 | Offset and length in place; fails exactly when they and the end do not fit; in fillOutput mode the match is cut to the longest that fits |
| `Lz4Compress.ClearPositions` | tools/lz4.c:1199-1214 | Removes every index beyond the end of a shortened match |
| `Lz4Compress.WriteMatch` | tools/lz4.c:1147-1239 | The whole of a match, of all the bytes that match unless it is cut or given up for lack of room; after which no table index lies ahead |
| `Lz4Compress.NextPosition` | tools/lz4.c:1241-1307 | The end test; the table update; the next match at once if and only if the next position is a hit |
| `Lz4Compress.LiteralsFitBound` | tools/lz4.c:1120-1129 | Where a block of nothing but literals fits, the test for the literals of a sequence cannot fail |
| `Lz4Compress.MatchFitsBound` | tools/lz4.c:1196-1217 | Nor can the test for a match |
| `Lz4Compress.AdaptedRunFits` | tools/lz4.c:1316-1320 | The trimmed last run fits with its length bytes, one more literal would not, at most one byte is left over, and 5 or 8 literals are kept when there was room for them |
| `Lz4Compress.EncodeLast` | tools/lz4.c:1311-1338 | Fails if and only if the output is limited and the last literals do not fit; otherwise they complete a conforming block that expands to the source, or in fillOutput mode to as much as fits, one more literal being too many |
| `Lz4Compress.RunHits` | tools/lz4.c:1049-1111 | In a source of one repeated byte the second position is a hit |
| `Lz4Compress.RunMatched` | tools/lz4.c:1147-1307 | And the match goes to the match limit: one sequence, then five literals |
| `Lz4Compress.CompressGenericValidated` | tools/lz4.c:939-1347 | In all output modes, table widths and history modes: writes stay in the output, a nonzero result is a conforming block for the source; in fillOutput mode for the consumed part, which leaves at most one byte unused when it is not all; 0 is returned only in limitedOutput mode with less room than a block of nothing but literals takes; and a source of one repeated byte gives exactly the size of its only match |
| `Lz4Context.Context.PrepareTable` | tools/lz4.c:892-931 | Exactly when a used table is cleared, and the 64 KB gap otherwise |
| `Lz4Context.CompressGeneric` | tools/lz4.c:1353-1388 | Refusals, the empty input, and the new state after a call |
| `Lz4OneShot.CleanIsUsable` | tools/lz4.c:1423-1459 | Whatever earlier calls left in a state, a new block can trust the table |
| `Lz4OneShot.UnusedIsUsable` | tools/lz4.c:1423-1459 | So it can where the table was never used and the offset is not zero: its empty slots are never tried |
| `Lz4OneShot.CleanAfter` | tools/lz4.c:1423-1459 | And leaves it so, when it fails too |
| `Lz4OneShot.CompressFastExtState` | tools/lz4.c:1391-1412 | A block for the whole source or 0, never 0 with room for a block of nothing but literals; no more than `srcSize + srcSize / 255 + 16` bytes are returned or written; `n` times one byte take 10 bytes and the extension of the match length, or 0 is returned if that does not fit |
| `Lz4OneShot.PlainSizeIs` | tools/lz4.c:1311-1338 | What a block of nothing but literals takes, and that it stands for them |
| `Lz4OneShot.CompressFastExtStateFastReset` | tools/lz4.c:1423-1459 | The same on a state used before, for single blocks or for streaming, and the state is clean again unless the source was refused |
| `Lz4OneShot.CompressFast` | tools/lz4.c:1462-1478 | The same with a state of its own |
| `Lz4OneShot.CompressDestSize` | tools/lz4.c:1490-1525 | A block of at most the target size and the bound for the first `consumed` bytes, which are all if a block of nothing but literals fits; if they are not all, the target is filled but for one byte at most; 0 exactly for a size out of range or no room at all |
| `Lz4Streaming.ResetStreamFast` | tools/lz4.c:1579-1581 | After streaming or single blocks of either width: forgets the history and leaves a table that streaming can use, a 32-bit one as it is, 64 KB further on |
| `Lz4Streaming.StreamIsResettable` | tools/lz4.c:1414-1422 | The other way round, a state last used for streaming is one that the `_fastReset` call accepts |
| `Lz4Streaming.Rescaled` | tools/lz4.c:1696-1713 | Renormalisation keeps every distance within 64 KB and makes every other entry too far to use |
| `Lz4Streaming.RenormDictT` | tools/lz4.c:1696-1713 | Afterwards indexes stay below 2 GB; the history is at most cut to its last 64 KB |
| `Lz4Streaming.IndexDictionary` | tools/lz4.c:1629-1652 | The slot of the hash of every visited position holds some position of the dictionary with that hash, and the table holds nothing else |
| `Lz4Streaming.LoadDict` | tools/lz4.c:1596-1655 | The history becomes the last 64 KB of the dictionary; too short a dictionary is none |
| `Lz4Streaming.AdjustDict` | tools/lz4.c:1733-1752 | Exactly what is kept of the history: nothing of one too small, of one that the source overlaps the last 64 KB behind the source, else all |
| `Lz4Streaming.PrepareStream` | tools/lz4.c:1727-1752 | The same after renormalisation, and when the source is taken to continue the history |
| `Lz4Streaming.StreamUsable` | tools/lz4.c:1754-1787 | Stale entries pass no test or lie in the history, with or without `dictSmall` |
| `Lz4Streaming.CompressFastContinue` | tools/lz4.c:1716-1790 | The block stands for the source after everything compressed so far, of which only the last 64 KB must still be in place; never 0 with room for a block of nothing but literals; the state then remembers the source, and before it all of the history that the source continues (its last 64 KB after renormalisation) |
| `Lz4Streaming.SaveDict` | tools/lz4.c:1823-1845 | The end of the history, moved to a safe place |
| `Lz4StreamDecode.StreamDecode.SetStreamDecode` | tools/lz4.c:2608-2621 | Wherever the next call decodes to, it can refer to exactly the dictionary, and needs only that to stay in place |
| `Lz4StreamDecode.StreamDecode.SafeContinue` | tools/lz4.c:2649-2687 | Gives back what a block stands for after the remembered history, which then grows by exactly that, in all three arrangements of buffers |
| `Lz4RoundTrip.OneShotRoundTrip` | tools/lz4.h:187-203 | Compressing any text and decompressing it into enough room returns its size and the text |
| `Lz4RoundTrip.PartialRoundTrip` | tools/lz4.h:276-305 | Partial decompression returns the least of target, capacity and size, and the first bytes of the text |
| `Lz4RoundTrip.CutRoundTrip` | tools/lz4.c:2303-2348 | Of a compressed text of which only the first bytes arrived, partial decompression returns an error or the beginning of the text, as long as target, room and what can be read allow |
| `Lz4RoundTrip.DestSizeRoundTrip` | tools/lz4.h:248-261 | The block fits the target, fills it unless it holds the whole text, and decompresses, in exactly the consumed size and with either decoder, to that prefix of the text |
| `Lz4RoundTrip.DecompressFast` | tools/lz4.c:2486-2493 | On any input: reads exactly the block of the given size that the input begins with, whatever follows it, or fails when there is none |
| `Lz4RoundTrip.BothDecoders` | tools/lz4.c:2486-2493 | On any input: what the reference decoder reads to the last byte, the safe one accepts with the same size, and both write the same when no offset is zero; the token of an empty block must be zero |
| `Lz4RoundTrip.FastRefinesSimple` | tools/lz4.c:2486-2493 | Hence both agree on every block of `LZ4_compress_fast`, and the reference decoder reads it to its end; `DestSizeRoundTrip` says the same for `LZ4_compress_destSize` |
| `Lz4RoundTrip.ReuseState` | tools/lz4.c:1391-1459 | After any run of calls on one state, failed ones included, every block stands for its text alone |
| `Lz4RoundTrip.CompressWithDict` | tools/lz4.c:1657-1665 | A block compressed after loading a dictionary stands for the source after the whole dictionary |
| `Lz4RoundTrip.DictRoundTrip` | tools/lz4.c:2738-2751 | It comes back with a copy of the dictionary anywhere clear of the output |
| `Lz4RoundTrip.FreshStream` | tools/lz4.c:1573-1577 | A new compressor and a new decompressor agree on an empty past |
| `Lz4RoundTrip.CompressNext` | tools/lz4.c:1716-1790 | One compression step of a stream keeps the coupling with the past |
| `Lz4RoundTrip.DecompressNext` | tools/lz4.c:2649-2687 | One decompression step of a stream, wherever its output goes, keeps the coupling with the past |
| `Lz4RoundTrip.CompressStream` | tools/lz4.c:1716-1790 | Any number of pieces laid end to end become a chain of blocks, each standing for its piece after all before; what is then remembered is all of them or 64 KB or more |
| `Lz4RoundTrip.SaveAfterStream` | tools/lz4.c:1823-1845 | `LZ4_saveDict` after a stream saves exactly the last bytes of the text, as many as asked for and as there are, up to 64 KB |
| `Lz4RoundTrip.DecompressStream` | tools/lz4.c:2649-2687 | Such a chain decompresses to the exact sizes and to the text |
| `Lz4RoundTrip.StreamRoundTrip` | tools/lz4.h:430-443 | Streaming round trip: from any states that remember the same past, renormalisations included, exact sizes and the whole text come back, and the states agree again |
| `Lz4RoundTrip.OpenWithDict` | tools/lz4.c:2608-2621 | Loading a dictionary on one side and setting it on the other makes both remember the same past |
| `Lz4RoundTrip.DictStreamRoundTrip` | tools/lz4.h:355-371 | Streaming round trip of any number of blocks after a dictionary |
| `CpioFormat.HexInverts` | tools/bootstrap.c:31-41 | Reading `%08x` digits gives the number back |
| `CpioFormat.DigitValues` | tools/bootstrap.c:31-41 | Which characters are digits, of which value, in either case; all others count as 0 |
| `CpioFormat.FieldReads` | tools/insert_devnodes.py:12-18 | Every header field of a written entry reads back from its place |
| `CpioFormat.RecordLayout` | tools/insert_devnodes.py:12-18 | Where magic, fields, name and data of a written entry stand |
| `CpioFormat.NoBorder` | tools/bootstrap.c:58-66 | No proper end of the magic is a beginning of it |
| `CpioFormat.FirstMagic` | tools/bootstrap.c:58-66 | Filler without the magic cannot complete one with the header behind it |
| `CpioUnpack.Hx` | tools/bootstrap.c:31-41 | The value of eight digits, without loss in 32 bits |
| `CpioUnpack.UnpackStep` | tools/bootstrap.c:67-107 | At a header: a code to stop with, or one entry and the position after its padding |
| `CpioUnpack.UnpackCpio` | tools/bootstrap.c:53-110 | The loop computes the parse that the lemmas speak about, with its codes 0 and -1 to -4 |
| `CpioUnpack.UnpackStops` | tools/bootstrap.c:53-110 | Every run stops at a position whose bytes are the reason for its code: 0 at a whole entry named TRAILER!!!, -1 where no magic follows, -2 at a name size of 0 or from 1024 on, -3 at an entry longer than the rest, -4 without room for a header |
| `CpioUnpack.UnpackCut` | tools/bootstrap.c:53-110 | An archive cut inside an entry gives the entries before it and -3; cut inside a header, -1 or -4 |
| `CpioUnpack.UnpackRecord` | tools/bootstrap.c:53-110 | The parse is compositional: a written entry contributes itself, whatever surrounds it |
| `CpioUnpack.UnpackFiller` | tools/bootstrap.c:58-66 | The scan locks on the next header exactly |
| `CpioUnpack.UnpackItems` | tools/bootstrap.c:53-110 | Any entries with any filler between them come out in order, before whatever the rest gives |
| `CpioUnpack.UnpackShifts` | tools/bootstrap.c:53-110 | What is unpacked from a position on depends on nothing before it |
| `CpioUnpack.UnpackArchive` | tools/bootstrap.c:53-110 | Entries, filler and a trailer of thirteen fields give exactly the entries and code 0 |
| `CpioInsert.EntryRecordReads` | tools/insert_devnodes.py:12-18 | The arguments of `entry` come back: mode, name less "./", data, device numbers |
| `CpioInsert.TrailerMisread` | tools/pack_cpio.py:37-46 | The trailer's eleven fields make a reader of thirteen take the name for the size of the name |
| `CpioInsert.WrittenUnpacks` | tools/pack_cpio.py:37-46 | Any records (headers of thirteen fields, name, data, padding of any bytes) with any filler, closed by `trailer`: refused with code -2, after all entries have been taken in order |
| `CpioInsert.PackedUnpacks` | tools/pack_cpio.py:20-79 | Every archive of entries that `pack_cpio.entry` writes (names below 1023 bytes, none of them that of the trailer), closed by `trailer` and followed by anything: refused with code -2, after every entry has been taken in order, with the data that `PackedReads` speaks of |
| `CpioInsert.PackedIsRecord` | tools/pack_cpio.py:20-34 | A packed entry is, to a reader of the other layout, a record with shifted data and a gap of nothing or four bytes |
| `CpioInsert.PackedIsArchive` | tools/pack_cpio.py:20-34 | So a packed archive is an archive of those records with those gaps as fillers |
| `CpioInsert.PackedCoincides` | tools/pack_cpio.py:20-34 | When the layout of `pack_cpio.entry` is the one the unpacker reads: then entry and data are right and there is no gap |
| `CpioInsert.PackedReads` | tools/pack_cpio.py:20-34 | The unpacker reads the right data if and only if the name ends on a boundary or the data are all zeros |
| `CpioInsert.PackedLoses` | tools/pack_cpio.py:20-34 | A one-byte file `init` whose byte is lost |
| `CpioInsert.PyInt16Hex` | tools/insert_devnodes.py:37-39 | On eight digits, Python's `int(_, 16)` and `hx` agree |
| `CpioInsert.PyInt16Forms` | tools/insert_devnodes.py:37-39 | What else `int(_, 16)` takes: a sign, `0x`, white space, an underscore between digits |
| `CpioInsert.InsertDevnodes` | tools/insert_devnodes.py:29-59 | The scan loop and splice compute the functions that the lemmas speak about |
| `CpioInsert.ScanStep` | tools/insert_devnodes.py:33-50 | Each step of the scan in terms of bytes: the magic, sizes in range, the four names; then four bytes on, or behind the entry, or found |
| `CpioInsert.ScanArchive` | tools/insert_devnodes.py:29-54 | For any filler: the scan visits the entries it can see (header at a multiple of four, less than 64 MB) as the unpacker does and stops at the first device directory among them, unless a sham header inside another entry stops it |
| `CpioInsert.SteppableSeen` | tools/insert_devnodes.py:33-50 | With filler in multiples of four and entries below 64 MB it sees all of them |
| `CpioInsert.ScanMisses` | tools/insert_devnodes.py:33-53 | If no entry that it can see is named `./dev`, `./dev/`, `dev` or `dev/`, and no sham header lies inside another entry, the outcome is that of scanning what follows the entries |
| `CpioInsert.OneByteMisses` | tools/insert_devnodes.py:33-53 | One byte of filler hides the directory from the scan and not from the unpacker |
| `CpioInsert.ShamHeader` | tools/insert_devnodes.py:33-60 | A file without its header at a multiple of four, whose data hold a device directory: the scan takes that for one, and the nodes would go into the middle of the file |
| `CpioInsert.SplicePreserves` | tools/insert_devnodes.py:54-60 | For any filler and any ending, and without sham headers inside entries that the scan does not see (`Undisturbed`): if entry `k` is the first that it can see and that has one of the four names, the output unpacks to the entries through `k`, then console, null and zero, then all others, with the same code as the input |
| `CpioInsert.PackedSplices` | tools/insert_devnodes.py:29-60 | For every archive that `pack_cpio` writes of files below 64 MB, no condition is left: the nodes come directly behind the first entry with one of the four names |
| `CpioInsert.PackedMisses` | tools/insert_devnodes.py:29-53 | And without such a name the answer is that there is none |
| `DepClosure.LeastFixpoint` | tools/dep_closure.py:32-40 | A closed set of reachable names is the set of all of them, and the least closed set |
| `DepClosure.NewName` | tools/dep_closure.py:36-40 | Collecting a name and queueing its library keeps the worklist invariant |
| `DepClosure.Closure` | tools/dep_closure.py:32-40 | The worklist terminates with exactly the reachable names, in whatever order names are taken |
| `DepClosure.Removable` | tools/dep_closure.py:44-48 | The list of the paths `<libdir>/<f>` of exactly the files that are neither in the closure nor kept, without repeats |
| `DepClosure.ClosureIsWanted` | tools/dep_closure.py:27-40 | All that is collected is wanted by the loader, and all that is wanted is collected if and only if the libraries found outside the listing need nothing new |
| `DepClosure.LoadedWhen` | tools/dep_closure.py:38-47 | Then a library outside the closure is loaded if and only if another name in the closure leads to its file |
| `DepClosure.LoadedByPath` | tools/dep_closure.py:38-40 | If different paths are different files: if and only if its name, or its whole absolute path as a name, is wanted |
| `DepClosure.StraightIsSafe` | tools/dep_closure.py:32-48 | If every library named is in the listing, and those in it are different files, neither exception occurs |
| `DepClosure.RemovableLibraries` | tools/dep_closure.py:32-48 | Removable are exactly the paths `<libdir>/<f>` of files that are not reachable and not kept, without repeats; exactly when a removable library is loaded; and in a straight image never, while all others on disk are loaded or kept |
| `DepClosure.RemovedThoughLoaded` | tools/dep_closure.py:36-48 | A library needed by its whole path is removable and loaded |
| `DepClosure.RemovedBehindLink` | tools/dep_closure.py:36-48 | So is the target of a symbolic link |
| `DepClosure.RemovedBehindUnlisted` | tools/dep_closure.py:36-48 | So are a library needed as `./a` and what it needs |

## Left out

- CompressFastExtStateFastReset: as for ResetStreamFast, a table that was never used must have its offset 64 KB below 2 GB.
- DecompressSafeUsingDict, DecompressSafeDoubleDict, SafeContinue: the part of memory that holds a separate dictionary must be clear of the output buffer.
- ResetStreamFast: a table that was never used must have its offset 64 KB below 2 GB; past that, after 32767 such resets in a row without a block, nothing is stated.
- `byPtr` tables, big-endian and 32-bit code, and the address-overflow tests that only matter there: other configurations.
- `usingDictCtx`, `LZ4_attach_dictionary` and `LZ4_compress_forceExtDict`: variants of the dictionary modes that are modelled.
- Input and output in one buffer (in-place decompression) and `LZ4_decoderRingBufferSize`: the input of a decoder is a value here.
- The deprecated entry points and `LZ4_decompress_fast_continue`/`_usingDict`: aliases and further callers of the reference decoder.
- Compression ratio: each search is pinned down, and with it runs of one byte, but how good a parse of a whole text is, and what history and acceleration contribute, is not stated; dictionary indexing says what can be found.
- The 16 KB hash table is 8192 slots, of which the 32-bit width uses the first 4096; it is never read in one width after being written in the other.
- What `LZ4_decompress_unsafe_generic` does once it has read past its input: the original does not know where that ends, and the model stops there with an outcome of its own.
- Bytes of an output buffer between the result and the capacity: unspecified after a call, as in the original.
- `LZ4_compress_fast_continue` with a negative size, which its renormalisation asserts against.
- The file system effects of `unpack_cpio` (mkdir, symlink, mknod, write, chmod): it returns the list of entries it would act on.
- Names that are not ASCII in the cpio writers: names are bytes here, and `len(name)` counts characters.
- Reading and writing files, `llvm-readelf` and directory listings: their results are parameters.
- The order and printing of removable libraries by size, the boot images, the init programs and `tools/elf_deps.py`: nothing here depends on them.
