# gzdoom core: MVE cutscene decoder, console dispatch, DeHackEd parsing

This project models three parts of gzdoom in Dafny and proves properties of them.

- **The Interplay MVE decoder** (`InterplayDecoder` in
  `src/common/cutscenes/playmve.cpp`). The decoder reads chunks
  `[u16 size][u16 type]` from a byte source. Each chunk holds opcodes
  `[u16 size][u8 type][u8 version]`. The opcodes:
  - set up the frame timer and the audio and video formats;
  - fill a 16-bit audio sample ring from 8-bit, 16-bit, DPCM or silence payloads;
  - set palette entries;
  - load a decoding map;
  - rebuild every 8x8 block of the current frame with one of sixteen block routines;
  - publish the frame and swap the two frame buffers.

  The model is the class `MveDecoder.InterplayDecoder`. Its fields are arrays
  for the palette, the ring, the frames and the map, plus integers for the
  cursors. Each opcode is a method proved against value-level definitions in
  `MveFormat`, `MveAudio` and `MveBlocks`. The source performs reads and writes
  it never bounds-checks. In the model, any of these that would leave the chunk
  or the frame ends the opcode with `Fault`, and `RunFrame` then returns false.

- **Console dispatch** (`src/c_dispatch.cpp`). This covers:
  - the key slots of an action button (`ConsoleKeys.ButtonStatus`);
  - the case-insensitive CRC key of a command name;
  - the binary search of the action table;
  - the sorted hash-bucket chains of console commands (`ConsoleHash`, one
    sequence per bucket);
  - the splitting of a command string at `;` outside quotes (`AddCommandString`);
  - the argument tokenizer (`ParseCommandLine`).

  The buffers the C code rewrites in place are arrays.

- **DeHackEd patch parsing** (`src/d_dehacked.cpp`). This covers:
  - the patch reader `DehText.Patch`: `igets`, `GetLine`, `ReadChars`, and
    `ReplaceSpecialChars` over an array;
  - the white-space helpers;
  - the name and state-span searches and `HandleKey` (`DehTables`);
  - the Frame and Misc section handlers with their field packing and the
    infighting rule, and the version mapping of `DoDehPatch` (`DehPatch`).

`CText` holds the C string comparisons (`strnicmp`, `stricmp`) that both the
console and the DeHackEd code use. `Wrappers` holds `Option`.

Some of the source's code runs past its buffers or otherwise does something
its authors evidently did not intend. For each such place, the model keeps the
code as written as a separate function, with a lemma that exhibits the input.
The rest of the model uses a corrected definition with the intended property
proved. Both are listed under "## Findings".

## Model

Paths are relative to the repository root.

| member | source | states |
|---|---|---|
| CText.StrnicmpWhole | src/d_dehacked.cpp:430 | strnicmp over the whole of two strings is 0, negative or positive exactly when their lower-cased forms are equal, ordered before, or ordered after each other |
| CText.StricmpOrder | src/c_dispatch.cpp:682 | stricmp is zero, negative or positive exactly when the lower-cased strings are equal, precede or follow each other |
| CText.StrnicmpAbove | src/c_dispatch.cpp:682-690 | comparing an entry with a name over the name's length is positive exactly when the lower-cased entry compares greater than the lower-cased name |
| CText.StrnicmpMatch | src/c_dispatch.cpp:682-690 | the comparison over the name's length is zero and the entry ends there exactly when entry and name are equal ignoring case |
| CText.PrecedesTrans | src/c_dispatch.cpp:675-692 | the case-insensitive order the chains keep is transitive |
| CText.PrecedesAsym | src/c_dispatch.cpp:675-692 | the order is asymmetric |
| CText.PrecedesTotal | src/c_dispatch.cpp:675-692 | two different strings are always ordered one way or the other |
| CText.AboveTrans | src/c_dispatch.cpp:675-692 | "compares greater" is transitive |
| CText.AboveAsym | src/c_dispatch.cpp:675-692 | "compares greater" is asymmetric |
| CText.AboveIrrefl | src/c_dispatch.cpp:675-692 | no name compares greater than itself |
| ConsoleKeys.KeyNum | src/c_dispatch.cpp:267 | masking with KEY_DBLCLICKED - 1 gives a number in [0, KEY_DBLCLICKED), so never the console's 0xffff |
| ConsoleKeys.PressReleaseRoundTrip | src/c_dispatch.cpp:263-339 | pressing a nonzero key that was not held, then releasing it, restores the slots |
| ConsoleKeys.PressKeepsDistinct | src/c_dispatch.cpp:279-297 | pressing never puts a key into two slots |
| ConsoleKeys.ReleaseKeepsDistinct | src/c_dispatch.cpp:304-338 | releasing never puts a key into two slots |
| ConsoleKeys.HeldCountClear | src/c_dispatch.cpp:318-335 | clearing one held slot lowers the number of held slots by one, so bDown clears exactly when it was the last |
| ConsoleKeys.HeldCountZero | src/c_dispatch.cpp:318-335 | no slot is held exactly when the count of held slots is zero |
| ConsoleKeys.ButtonStatus.constructor | src/c_dispatch.cpp:263-339 | every slot is empty and no flag is set |
| ConsoleKeys.ButtonStatus.PressKey | src/c_dispatch.cpp:263-298 | key 0 sets slot 0 to 0xffff, empties the rest and sets bDown and bWentDown. A held key, or full slots, change nothing. Otherwise the key goes into the lowest empty slot and bDown and bWentDown are set |
| ConsoleKeys.ButtonStatus.ReleaseKey | src/c_dispatch.cpp:300-339 | key 0 empties every slot and clears bDown. A key not held changes nothing. Otherwise its slot is emptied, bWentUp is set, and bDown stays set exactly when another slot is still held |
| ConsoleKeys.MakeKey | src/c_dispatch.cpp:219-229 | the key is the CRC register over the lower-cased name, inverted |
| ConsoleKeys.MakeKeyLen | src/c_dispatch.cpp:231-247 | length 0 gives 0xffffffff; any other length gives the zero-terminated key of that prefix |
| ConsoleKeys.EmptyKeysDiffer | src/c_dispatch.cpp:219-247 | the zero-terminated key of the empty name is 0, unlike the 0xffffffff of length 0 |
| ConsoleKeys.CrcCaseInsensitive | src/c_dispatch.cpp:224-226 | names equal ignoring case drive the CRC register through the same values |
| ConsoleKeys.KeyCaseInsensitive | src/c_dispatch.cpp:219-229 | names that differ only in case have the same key |
| ConsoleKeys.ActionMapsAscending | src/c_dispatch.cpp:107-134 | the action table's keys strictly ascend |
| ConsoleKeys.BinarySearch | src/c_dispatch.cpp:254-261 | over an ascending table, the search finds the entry with the key exactly when there is one |
| ConsoleKeys.FindButton | src/c_dispatch.cpp:254-261 | None exactly when no action has the key, otherwise the button of the action that has it |
| ConsoleHash.InsertPoint | src/c_dispatch.cpp:675-692 | every entry before the insert point compares at most equal to the name, and the entry at it compares greater |
| ConsoleHash.ScanChainForName | src/c_dispatch.cpp:675-692 | on an ordered chain, a match exactly when the name is there, at an entry equal to it ignoring case. Without a match, prev is the entry just before the insert point |
| ConsoleHash.FindNameInHashTable | src/c_dispatch.cpp:694-699 | a match is an entry equal to the name ignoring case; on a valid table, none exactly when no bucket holds the name |
| ConsoleHash.InsertKeepsOrder | src/c_dispatch.cpp:701-736 | inserting at the insert point keeps a chain ordered |
| ConsoleHash.InsertKeepsDistinct | src/c_dispatch.cpp:701-736 | inserting a name not yet present keeps the names of a chain distinct |
| ConsoleHash.InsertKeepsTable | src/c_dispatch.cpp:701-736 | the table stays valid: every bucket ordered, distinct and holding only names of its key |
| ConsoleHash.AddToHash | src/c_dispatch.cpp:701-736 | false with the table unchanged when the name is present; otherwise the entry is inserted at the insert point of its bucket. The table stays valid |
| ConsoleText.QuoteEnd | src/c_dispatch.cpp:478-486 | the scan of a quoted part stops at a quote not preceded by a backslash, or at the end of the string |
| ConsoleText.Break | src/c_dispatch.cpp:474-494 | the command ends at a ';' outside quotes, or at the end of the string |
| ConsoleText.BreakAgrees | src/c_dispatch.cpp:478-486 | where every quote is closed, the split as written and the corrected split agree |
| ConsoleText.SplitJoin | src/c_dispatch.cpp:474-535 | joining the commands with ';' gives back the string |
| ConsoleText.ProcessRunsSegments | src/c_dispatch.cpp:474-535 | without a wait command, every command of the string runs, in order, and nothing is deferred |
| ConsoleText.FindBreak | src/c_dispatch.cpp:478-494 | the scan over the buffer stops where Break says |
| ConsoleText.AddCommandString | src/c_dispatch.cpp:467-540 | the buffer is left as it was. The commands run and the deferred rest after a positive wait are what Process gives on the string |
| ConsoleText.ProcessStep | src/c_dispatch.cpp:495-535 | one command of the string: a positive wait defers the rest, anything else runs and the scan goes on |
| ConsoleText.QuotedAgrees | src/c_dispatch.cpp:572-598 | where the quote is closed, the consumption as written and the corrected one agree |
| ConsoleText.ParseCommandLine | src/c_dispatch.cpp:551-637 | argc is the number of arguments Args finds and the size is the bytes they take. Filling writes exactly those packed arguments at their offsets, so counting and filling agree |
| ConsoleText.ArgsSizeConcat | src/c_dispatch.cpp:551-637 | the size of two runs of arguments is the sum of their sizes |
| ConsoleText.PackedSize | src/c_dispatch.cpp:551-637 | the packed arguments take exactly the counted size |
| ConsoleText.QuotedEsc | src/c_dispatch.cpp:572-598 | for a text without backslashes, escaping its quotes and closing it makes the quoted argument give back the text, and the rest after it |
| ConsoleText.ArgsQuoteAll | src/c_dispatch.cpp:563-637 | for arguments without backslashes, quoting each and joining them with spaces tokenizes back to that list |
| DehTables.FindName | src/d_dehacked.cpp:423-446 | over a table sorted case-insensitively, an index whose name equals the query ignoring case, or -1 exactly when there is none |
| DehTables.MatchUnique | src/d_dehacked.cpp:290-291 | in a sorted table of distinct names, at most one index matches |
| DehTables.LocateRange | src/d_dehacked.cpp:495-512 | a state number is located exactly when it is in 1 .. the sum of the spans |
| DehTables.SpanUnique | src/d_dehacked.cpp:495-512 | a state number lies in exactly one span |
| DehTables.FindState | src/d_dehacked.cpp:495-512 | none at or below 0 or past the spans; otherwise the span's first state plus the number's offset into the unique span holding it |
| DehTables.FindKey | src/d_dehacked.cpp:467-478 | the index of the first key whose name equals the query ignoring case, or the table's length when no key does |
| DehTables.HandleKey | src/d_dehacked.cpp:467-478 | true exactly when no key matches. The record becomes KeyStore: only the field of the first matching key is set to the value |
| DehTables.KeyStoreIs | src/d_dehacked.cpp:467-478 | after storing, a field holds the value when the first key matching the name (ignoring case) is that field's key, and otherwise keeps its old value |
| DehText.UnescapeShrinks | src/d_dehacked.cpp:565-632 | decoding never lengthens a string, so the write position never passes the read position |
| DehText.UnescapeEscape | src/d_dehacked.cpp:565-632 | decoding a string whose backslashes were escaped gives the string back |
| DehText.ReadEscape | src/d_dehacked.cpp:591-628 | one character or escape is read: what it stands for and where the next starts, as Unescape reads it |
| DehText.ReplaceSpecialChars | src/d_dehacked.cpp:565-632 | the buffer then holds the decoded string and a terminator, and everything after them is unchanged |
| DehText.EscapeDropsNextChar | src/d_dehacked.cpp:628 | the decoder as written turns "\x41B" into "A": the B after the escape is lost, where the corrected decoder gives "AB" |
| DehText.ShortEscapeShifted | src/d_dehacked.cpp:605-618 | a hex escape with one digit at the end of the string is worth 0x40 as written and steps past the terminator |
| DehText.GetLineSpec | src/d_dehacked.cpp:670-725 | never a passed-over line, and the text left is shorter unless the patch ended |
| DehText.LineComment | src/d_dehacked.cpp:674-677 | a line starting with '#' is passed over |
| DehText.LineBody | src/d_dehacked.cpp:681-683 | after the leading white space, an empty line is passed over and any other is parsed from its first printable character |
| DehText.ParseKeyValue | src/d_dehacked.cpp:685-708 | a key and a value around " = " are read back as that key and value |
| DehText.ParseModeWord | src/d_dehacked.cpp:709-724 | a word, a space and an argument without '=' are read back as a section word and its argument |
| DehText.ModeArgOverrun | src/d_dehacked.cpp:713-715 | a section word that ends the patch has its argument, as written, one past the end of the buffer |
| DehText.ModeArgNextLine | src/d_dehacked.cpp:713-715 | a section word alone on its line has its argument, as written, taken from the next line |
| DehText.SkipWhite | src/d_dehacked.cpp:634-640 | the position just past the run of spaces at the start of the string |
| DehText.StripWhite | src/d_dehacked.cpp:642-650 | a terminator is written just after the last non-space character, and nothing else changes |
| DehText.TrimEndIdempotent | src/d_dehacked.cpp:642-650 | stripping twice is stripping once |
| DehText.TrimEnd | src/d_dehacked.cpp:642-650 | the stripped string is a prefix that is empty or ends in a non-space, and everything cut off is space |
| DehText.TrimEndSpaces | src/d_dehacked.cpp:642-650 | appending spaces does not change the stripped string |
| DehText.CopyTextIs | src/d_dehacked.cpp:542-563 | the copy is the text read without its carriage returns: size characters, or all of the text when it comes up short |
| DehText.CopyTextShort | src/d_dehacked.cpp:542-563 | the copy comes up short exactly when the text, without its carriage returns, is shorter than size |
| DehText.ReadCharsOverrun | src/d_dehacked.cpp:550-560 | asking for 4 characters with "ab" left, the copy as written goes 2 past the terminator, where the corrected copy reports the text ran out |
| DehText.ConsumedAgrees | src/d_dehacked.cpp:550-560 | where enough text is left, the copy as written moves exactly as far as the corrected one |
| DehText.Patch.constructor | src/d_dehacked.cpp:1938-1939 | the whole patch text is unread |
| DehText.Patch.Igets | src/d_dehacked.cpp:652-668 | none at the end of the patch; otherwise the line starts at the old position, its newline is replaced by a terminator, and reading resumes after it |
| DehText.Patch.GetLine | src/d_dehacked.cpp:670-725 | the result code and the two halves are what GetLineSpec makes of the unread text, and reading resumes after that line |
| DehText.Patch.ReadChars | src/d_dehacked.cpp:542-563 | the copy, the position it reaches and the success flag are CopyText's; the copy is terminated and the rest of the buffer untouched |
| DehPatch.PackRoundTrip | src/d_dehacked.cpp:1196-1212 | packing gives a canonical state. Its accessors return the tic count, misc1 (0 under a big tic count) and frame mod 64 with the fullbright bit. SF_BIGTIC is set exactly when the tic count is above 254 |
| DehPatch.UnpackPack | src/d_dehacked.cpp:1196-1212 | unpacking a canonical state and packing it again gives the same state |
| DehPatch.FrameKeysOk | src/d_dehacked.cpp:1126-1193 | the Frame keys keep the tic count within -1 .. 65534 and misc1 within a byte |
| DehPatch.StoreInitial | src/d_dehacked.cpp:1100-1124 | a Frame section without keys leaves a state unchanged, except frames 47 and 48 |
| DehPatch.FrameResultCanonical | src/d_dehacked.cpp:1094-1215 | after a Frame section every state is still canonical |
| DehPatch.PatchFrame | src/d_dehacked.cpp:1094-1215 | the section's key lines are read with GetLine. The result is the code of the line that ended them, and the states become FrameResult of those keys |
| DehPatch.MiscSectionAsWritten | src/d_dehacked.cpp:1437-1494 | as written, the infighting setting after a Misc section is always 0 or 1 |
| DehPatch.InfightNotStable | src/d_dehacked.cpp:1490-1491 | as written, a second Misc section without the key turns infighting off, whatever the first set |
| DehPatch.InfightStable | src/d_dehacked.cpp:1490-1491 | corrected, a later section without the key keeps the setting an earlier one stored; a section giving the key stores 1 exactly for 0xDD |
| DehPatch.AppliedKeepsInfight | src/d_dehacked.cpp:1439-1455 | keys other than the infighting one leave its setting alone |
| DehPatch.PatchMisc | src/d_dehacked.cpp:1437-1494 | the result is the code of the line that ended the keys. The record becomes MiscSection of the keys: each known key sets its field, and infighting is normalised when given |
| DehPatch.VersionIndexIs | src/d_dehacked.cpp:1981-1996 | every version maps to an index of the offset table; the five known versions map to distinct indices, and exactly the unknown ones share 1.9's |
| DehPatch.VersionsIs | src/d_dehacked.cpp:1952-1974 | an accepted patch's index is in the table, and an unsigned patch is read as 1.9 with format 6 |
| DehPatch.SignatureLineNull | src/d_dehacked.cpp:1952-1954 | a patch that is only a signature line, without a newline, gets a null read position as written |
| DehPatch.ReadVersions | src/d_dehacked.cpp:1951-1996 | the version index and format are Versions of the patch; a signed patch without both header keys, or whose header is cut short, is refused |
| MveFormat.LE16RoundTrip | src/common/cutscenes/playmve.cpp:93-95 | encoding a 16-bit value little-endian and reading it back gives the value |
| MveFormat.LE32 | src/common/cutscenes/playmve.cpp:93-95 | the 32-bit read is the low word plus 65536 times the high word, below 2^32 |
| MveFormat.AsInt16 | src/common/cutscenes/playmve.cpp:383 | a 16-bit value read as signed lies in [-32768, 32767] and agrees with it mod 2^16 |
| MveFormat.AsUint16 | src/common/cutscenes/playmve.cpp:375 | truncation to 16 bits is the value mod 2^16 |
| MveFormat.DeltaTableShape | src/common/cutscenes/playmve.cpp:56-89 | the DPCM table has 256 entries of 16-bit values, and an entry is 0 exactly for byte 0 |
| MveFormat.FrameDuration | src/common/cutscenes/playmve.cpp:265-272 | the frame duration is rate x divisor x 1000 in 64 bits: a multiple of 1000, 0 exactly when the rate or divisor is |
| MveFormat.Expand6 | src/common/cutscenes/playmve.cpp:502-507 | a 6-bit channel v becomes the byte whose top six bits are v and whose low two bits are v's top two |
| MveFormat.AudioFormatOf | src/common/cutscenes/playmve.cpp:274-288 | stereo, 16-bit and compressed each exactly when their flag bit is set (compression only from version 1) |
| MveAudio.RingAdvanceMod | src/common/cutscenes/playmve.cpp:390-391 | writing k samples from p leaves the cursor at (p + k) mod capacity |
| MveAudio.RingPutAt | src/common/cutscenes/playmve.cpp:394-465 | the slot j samples after the cursor holds sample j when fewer than capacity were written, and every other slot is unchanged |
| MveAudio.RingPutConcat | src/common/cutscenes/playmve.cpp:380-410 | writing two runs one after the other is writing their concatenation |
| MveAudio.Pcm8 | src/common/cutscenes/playmve.cpp:412-423 | each byte b becomes the 16-bit sample (b - 128) x 256 |
| MveAudio.Pcm16 | src/common/cutscenes/playmve.cpp:424-439 | each byte pair becomes its signed little-endian 16-bit sample |
| MveAudio.Silence | src/common/cutscenes/playmve.cpp:447-469 | n zero samples |
| MveAudio.DpcmDecode | src/common/cutscenes/playmve.cpp:394-410 | one 16-bit sample per delta byte; predictors stay 16-bit; in stereo the next channel is the parity of the byte count, in mono always 0 |
| MveAudio.DpcmDecodeSnoc | src/common/cutscenes/playmve.cpp:398-408 | one more byte is one step: the current channel's predictor moves by the table delta, clamped to 16 bits, and is emitted; in stereo the channel toggles |
| MveAudio.DpcmRingSnoc | src/common/cutscenes/playmve.cpp:398-408 | the ring after one more byte holds that byte's clamped sample in the slot after the earlier samples |
| MveAudio.DpcmZeroRun | src/common/cutscenes/playmve.cpp:394-410 | a run of zero bytes (table entry 0 is 0) repeats the seed predictors |
| MveAudio.DpcmPrefix | src/common/cutscenes/playmve.cpp:394-410 | decoding is incremental: the samples of a prefix of the bytes are a prefix of the samples |
| MveAudio.DpcmStereoLeft | src/common/cutscenes/playmve.cpp:394-410 | after a stereo run the left predictor is where a mono run over the even bytes from the left seed leaves it |
| MveAudio.DpcmStereoRight | src/common/cutscenes/playmve.cpp:394-410 | after a stereo run the right predictor is where a mono run over the odd bytes from the right seed leaves it |
| MveBlocks.Block2Vector | src/common/cutscenes/playmve.cpp:664-684 | for a byte below 56, x is in [8, 14] and y in [0, 7]; otherwise x is in [-14, 14] and y in [8, 14] |
| MveBlocks.Block2RoundTrip | src/common/cutscenes/playmve.cpp:664-684 | every motion byte names a distinct vector |
| MveBlocks.Block3Vector | src/common/cutscenes/playmve.cpp:686-707 | block 3's vector is block 2's negated |
| MveBlocks.Block4Vector | src/common/cutscenes/playmve.cpp:709-726 | both offsets lie in [-8, 7], and together they spell the byte |
| MveBlocks.Block5Vector | src/common/cutscenes/playmve.cpp:728-740 | two signed bytes, each in [-128, 127] and equal to its byte mod 256 |
| MveBlocks.BlockSize | src/common/cutscenes/playmve.cpp:650-1099 | no routine reads more than 64 payload bytes |
| MveBlocks.PaintRowsAt | src/common/cutscenes/playmve.cpp:742-1099 | each pixel of a painted block holds its pattern pixel |
| MveBlocks.PaintRowsOutside | src/common/cutscenes/playmve.cpp:742-1099 | painting a block changes no pixel outside it |
| MveBlocks.CopyRowsAt | src/common/cutscenes/playmve.cpp:640-648 | each pixel of a copied block holds the source pixel at the same place in the source block |
| MveBlocks.CopyRowsKeep | src/common/cutscenes/playmve.cpp:640-648 | copying a row changes no pixel outside that destination row |
| MveBlocks.BlockStep | src/common/cutscenes/playmve.cpp:566-619 | a step that succeeds keeps the frame size, advances the cursor by the routine's payload size and had the block and its payload in bounds |
| MveBlocks.MotionStep | src/common/cutscenes/playmve.cpp:664-740 | a motion block succeeds exactly when its source block lies inside the frame |
| MveBlocks.StepCauseSource | src/common/cutscenes/playmve.cpp:664-740 | a step that fails with its block and payload in bounds is a motion block whose source lies outside the frame |
| MveBlocks.NibblesRecompose | src/common/cutscenes/playmve.cpp:553-559 | the routines of blocks 2k and 2k+1 are the low and high nibbles of map byte k |
| MveBlocks.DecodeFrom | src/common/cutscenes/playmve.cpp:551-626 | a finished walk keeps the frame size |
| MveBlocks.WalkStaysInFrame | src/common/cutscenes/playmve.cpp:551-564 | in a w x h frame with stride w, the walk never stops for a destination outside the frame |
| MveBlocks.DestinationInFrame | src/common/cutscenes/playmve.cpp:564 | every block the walk visits lies inside the frame |
| MveBlocks.MotionSourceOutside | src/common/cutscenes/playmve.cpp:664-726 | in a one-block frame, a block 2 byte 0 and a block 4 byte 0 name sources outside the frame, and the walk stops for it |
| MveBlocks.MapOverrun | src/common/cutscenes/playmve.cpp:559 | a map shorter than half the block count stops the walk when it runs out |
| MveDecoder.FrameOpcode | src/common/cutscenes/playmve.cpp:231-249 | too small exactly when fewer than 4 bytes remain; too large exactly when the declared size exceeds what the preamble leaves; otherwise the remaining count drops by 4 + size |
| MveDecoder.SilenceLagMisframes | src/common/cutscenes/playmve.cpp:447-456 | in a chunk of a silence opcode of size 8 and an end-of-chunk opcode, the cursor left 2 bytes short reads a preamble that is too large, where the count's position holds the end-of-chunk opcode |
| MveDecoder.DpcmByteCountAsWritten | src/common/cutscenes/playmve.cpp:365-391 | the count as written is always a 16-bit value |
| MveDecoder.DpcmByteCount | src/common/cutscenes/playmve.cpp:375-391 | defined exactly when the opcode holds its header and seeds; then it is what follows them, rounded down to pairs in stereo, and equals the count as written |
| MveDecoder.DpcmCountOverrunsChunk | src/common/cutscenes/playmve.cpp:375-391 | for an opcode too short for its seeds, the count as written asks for more bytes than any chunk holds |
| MveDecoder.SilenceCount | src/common/cutscenes/playmve.cpp:452-455 | (size - 6) x 8 / depth zero samples, in 16 bits: size - 6 at 8 bits and (size - 6) / 2 at 16 bits |
| MveDecoder.DpcmPayload | src/common/cutscenes/playmve.cpp:376-410 | the samples are the seeds and one per delta byte, all 16-bit, and the bytes consumed lie in the payload |
| MveDecoder.DpcmPayloadNone | src/common/cutscenes/playmve.cpp:376-410 | the compressed payload is missing exactly when the opcode is too short for its seeds or its bytes run past the chunk |
| MveDecoder.InterplayDecoder.constructor | src/common/cutscenes/playmve.cpp:106-135 | a zero palette, an empty ring of the given capacity, no frames, buffer 0 current and 1 previous, audio started exactly when sound is off |
| MveDecoder.InterplayDecoder.Open | src/common/cutscenes/playmve.cpp:173-193 | accepts exactly a source starting with the signature, positioned after the signature and 6 more bytes |
| MveDecoder.InterplayDecoder.SwapFrames | src/common/cutscenes/playmve.cpp:142-147 | the current and previous buffers trade roles, and the indices stay 0 and 1 |
| MveDecoder.InterplayDecoder.TimingGate | src/common/cutscenes/playmve.cpp:208-213 | due exactly when the due time is at or before the clock; then the due time grows by the frame duration mod 2^64, and is never reset to the clock |
| MveDecoder.InterplayDecoder.RunFrame | src/common/cutscenes/playmve.cpp:195-637 | not due: true, without reading. Otherwise it decodes chunks (one unless playing) and returns true exactly when every chunk completed and the last was not the end chunk. At the end of the file: false |
| MveDecoder.InterplayDecoder.NextChunk | src/common/cutscenes/playmve.cpp:215-230 | a short read exactly when the preamble or the declared body is not all in the file; the file position moves past the chunk |
| MveDecoder.InterplayDecoder.ProcessChunk | src/common/cutscenes/playmve.cpp:229-633 | too few bytes for a preamble, or a size above what remains, gives false. Each handled opcode accounts for 4 + its size. After the palette opcode marks the chunk bad, no further opcode is handled |
| MveDecoder.InterplayDecoder.HandleOpcode | src/common/cutscenes/playmve.cpp:251-632 | only a palette opcode can mark the chunk bad; no opcode moves the file position or the due time |
| MveDecoder.InterplayDecoder.CreateTimer | src/common/cutscenes/playmve.cpp:265-272 | the rate and divisor are read, the frame duration becomes rate x divisor x 1000 and the cursor moves by 6 |
| MveDecoder.InterplayDecoder.InitAudioBuffers | src/common/cutscenes/playmve.cpp:274-288 | the format is read from the flags and the rate; the cursor moves by 8 at version 0, else by 10 |
| MveDecoder.InterplayDecoder.StartStopAudio | src/common/cutscenes/playmve.cpp:290-302 | the stream is opened once, on the first such opcode unless audio counts as started; the cursor moves by the size |
| MveDecoder.InterplayDecoder.InitVideoBuffers | src/common/cutscenes/playmve.cpp:304-333 | width and height are 8 times the block counts read, and two fresh frames of that area are allocated |
| MveDecoder.InterplayDecoder.SendBuffer | src/common/cutscenes/playmve.cpp:347-358 | the current frame and palette are published, nFrame grows by one and the buffers swap |
| MveDecoder.InterplayDecoder.WriteRun | src/common/cutscenes/playmve.cpp:394-465 | the ring becomes RingPut of the samples and the cursor stays in [0, capacity), at RingAdvance of their number |
| MveDecoder.InterplayDecoder.AudioFrame | src/common/cutscenes/playmve.cpp:360-445 | a clear stream bit skips the payload and writes nothing. Otherwise the samples of AudioPayload go into the ring and the cursor moves past the bytes read. Fault exactly when they are not all in the chunk |
| MveDecoder.InterplayDecoder.AudioDpcm | src/common/cutscenes/playmve.cpp:376-410 | the ring receives DpcmPayload's samples, or nothing when the payload is missing |
| MveDecoder.InterplayDecoder.SilenceFrame | src/common/cutscenes/playmve.cpp:447-469 | with bit 0 set, SilenceCount zero samples go into the ring; the cursor moves by 6, as written |
| MveDecoder.InterplayDecoder.SetPalette | src/common/cutscenes/playmve.cpp:484-510 | a size outside [4, 0x304] or an index above 255 marks the chunk bad and writes nothing. Otherwise exactly the entries start .. end change, each channel to Expand6 of its byte |
| MveDecoder.InterplayDecoder.SetDecodingMap | src/common/cutscenes/playmve.cpp:519-538 | the map equals the payload; its buffer is replaced exactly when the size differs |
| MveDecoder.InterplayDecoder.VideoData | src/common/cutscenes/playmve.cpp:540-627 | the previous frame is untouched. With a map, the current frame becomes DecodeFrom's and the walk never stops for a destination outside the frame. The cursor ends at the end of the opcode |
| MveDecoder.InterplayDecoder.DecodeBlock | src/common/cutscenes/playmve.cpp:566-619 | the block's pixels and the cursor are BlockStep's; a failed step changes nothing |
| MveDecoder.InterplayDecoder.DecodeMotionBlock | src/common/cutscenes/playmve.cpp:664-740 | succeeds exactly when the source block is in the frame. Blocks 2 and 3 copy within the current frame; blocks 4 and 5 copy from the previous one |
| MveDecoder.InterplayDecoder.CopyBlockFrom | src/common/cutscenes/playmve.cpp:640-648 | the eight rows of the source block are copied to the destination block |
| MveDecoder.InterplayDecoder.PaintBlock | src/common/cutscenes/playmve.cpp:742-1099 | the block becomes PaintRows of the routine's pattern |

## Left out

- playmve.h is not part of this model. The chunk and opcode type numbers (CHUNK_VIDEO = 3, CHUNK_END = 5, CHUNK_BAD = 0xFFFF, the opcode ids) and the preamble sizes are taken from FFmpeg's ipmovie decoder, from which this code was ported.
- c_dispatch.h is not part of this model: KEY_DBLCLICKED is taken as 0x8000.
- MAX_KEYS, the hash table size and the audio ring capacity are parameters.
- info.h is not part of this model. The FState accessors GetTics, GetMisc1 and GetFrame, and the signedness of Misc1, are rebuilt from how the packing code writes the fields.
- The PatchFrame key "Sprite number" is not modelled.
- The PatchMisc keys "BFG Cells/Shot", "Rocket Explosion Style" and "Rocket Explosion Alpha" are not modelled. The alpha is a float, and the other two go through tables outside this model.
- MveDecoder.InterplayDecoder.InitVideoBuffers: the frame area nWidth * nHeight is an unbounded product, not the source's 32-bit product.
- Plain char is taken as signed, as on x86. Bytes 0x80 and above therefore count as blanks in the console and DeHackEd scanners, since they test `c <= ' '`. strnicmp and stricmp compare unsigned bytes after tolower.
- Reads and writes the source leaves unchecked become `Fault` (RunFrame returns false) instead of undefined behaviour:
  - a palette payload longer than the opcode is read from the following bytes of the chunk, and is a fault only past the chunk;
  - a motion source block outside the frame (MveBlocks.MotionSourceOutside exhibits it);
  - a decoding map too short for the frame (MveBlocks.MapOverrun);
  - any opcode read past the end of its chunk, including DPCM seeds and counts.
- MveDecoder.InterplayDecoder.SilenceFrame: the cursor moves by 6 whatever the declared size, as written. MveDecoder.SilenceLagMisframes shows the next preamble then being read from inside the silence payload. The model keeps this behaviour, since the format's intended size for silence opcodes is not known here.
- Opcode types above 0x15 leave the cursor where it is (the source's `default: break;`), as written.
- The source never sets bIsPlaying, so the chunk loop runs once per RunFrame unless the field is set; the field is kept.
- FileReader is a byte sequence with a read position. Chunk reads are slices of it.
- The audio stream (S_CreateCustomStream, S_StopMusic), StreamCallbackFunc and the ring's read cursor are out of scope. They are the consumer on the audio thread; opening the stream is recorded as a flag.
- The texture (animtex) is out of scope; a published frame and its palette are appended to `frames`.
- Printf, assert, the nFps double, Close, and the allocation and freeing of buffers are out of scope.
- The DWaitingCommand and DStoredCommand thinkers are out of scope; the deferred rest of a command string is returned instead. C_DoCommand is out of scope; the commands to run are returned in order.
- FindCVarSub is a parameter (the `$cvar` lookup), and so are strtol and atoi.
- GetCRCTable and CRC1 are a parameter: one step of the CRC register.
- The m_Prev links of the hash chains are sequences, one per bucket.
- Tab completion, C_ExecFile, pullin, BuildString and the gamestate check of C_DoCommand are out of scope.
- HandleMode and the other section handlers (PatchThing, PatchSound, PatchWeapon and the rest) are not modelled. Nor are LoadDehSupp, the lump loading, or the byte-offset writes into actors and weapons.
- DehPatch.ReadVersions: for an unsigned patch the key lines that the loader steps over are not read, since they do not affect the version.

## Findings

| source | as written | input that shows it | evidently intended | confidence | as-written member | corrected member |
|---|---|---|---|---|---|---|
| src/c_dispatch.cpp:478-486 | the quote scan in AddCommandString steps past the terminator when a quote is never closed | `say "hi` | the command ends at the end of the string | not executed | ConsoleText.UnclosedQuoteOverrun | ConsoleText.Break |
| src/c_dispatch.cpp:572-598 | a quoted argument of ParseCommandLine that is never closed is read past the terminator | `"abc` | the argument ends at the end of the string | not executed | ConsoleText.UnclosedArgumentOverrun | ConsoleText.QuotedAgrees |
| src/d_dehacked.cpp:591-628 | after a `\x` or octal escape the loop still does `p++`, dropping the next character, or stepping past the terminator at the end | `\x41B` | "AB": one character per escape, nothing dropped | not executed | DehText.EscapeDropsNextChar | DehText.UnescapeEscape |
| src/d_dehacked.cpp:713-715 | a section word that ends its line gets its argument from after the terminator: the next line, or past the buffer | `[STRINGS]` then a newline and `FOO = bar` | an empty argument | not executed | DehText.ModeArgNextLine | DehText.Patch.GetLine |
| src/d_dehacked.cpp:550-560 | ReadChars never checks for the terminator and copies past the end of the patch | `ab` with size 4 | stop at the end of the text and report it | not executed | DehText.ReadCharsOverrun | DehText.Patch.ReadChars |
| src/common/cutscenes/playmve.cpp:365, 375, 390-391 | the DPCM byte count is computed in 16 bits, so an opcode shorter than its seeds wraps to about 65530 | a mono audio opcode of size 6 | the opcode is rejected | not executed | MveDecoder.DpcmCountOverrunsChunk | MveDecoder.DpcmByteCount |
| src/d_dehacked.cpp:1952-1954 | a signature line without a newline makes strchr return null, and GetLine reads through it | `Patch File for DeHackEd v3.0` and nothing else | the patch is refused | not executed | DehPatch.SignatureLineNull | DehPatch.ReadVersions |
| src/d_dehacked.cpp:1490-1491 | the infighting setting is normalised after every Misc section, so a later section without the key turns infighting off | two Misc sections, the first with `Monsters Infight = 221` | a section that does not give the key leaves the setting alone | not executed | DehPatch.InfightNotStable | DehPatch.InfightStable |
