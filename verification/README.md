# Monitoring client and server: verified model

This project models, in Dafny, the parts of the Monitoring-Client repository whose correctness is not obvious from reading them, and proves what they promise.

* **CRC engine** (`Bits`, `CrcSpec`, `Crc`, `CrcEngines`). The bit-at-a-time `crc_basic`, the table-driven `crc_optimal` and the augmented-message form, as classes and loops over words wider than the CRC. All three are proved against one definition that knows nothing of registers: the remainder of a polynomial division over GF(2), which the division identity determines uniquely. The width is a parameter; words are bit sequences, most significant bit first, and only the low `Bits` bits mean anything.
* **Number text** (`Decimal`, `Arith`, `GroupedText`, `LexicalCast`, `FloatScan`). The right-to-left printer into a buffer, the right-to-left parser with its wrap-around overflow tests, and the mantissa/exponent scan. An unsigned type is its number of values `w` (at least 10), a signed one has `2 * half` values; grouping sizes are signed chars.
* **Event frames** (`Hex`, `Frames`, `Server`, `Delivery`, `Upload`, `ProgramBitmap`, `Minute`). From the processes found running to the events the server uploads: bitmap, frame, sorting and draining, re-assembly from chunks, splitting, the queue over whole runs.
* **Program list** (`ProgramList`). The serialising loop whose bound grows while it runs, and the client's split/write/read.
* **Registry and recovery** (`Registry`, `Server`, `Recovery`). The server's global maps as a state machine over handled calls and gathers, and its composition with a client that calls home.
* **Guest expiry** (`GuestExpiry`). The warning and log-off machine over all runs of polls.

Handlers that update globals are classes (`Server`, `Client`, `ListServer`, `ListClient`, `Monitor`, `CallHomeTask`, `CrcBasic`, `CrcOptimal`, `CrcTable`) whose methods are proved equal to functions on values; runs and invariants are lemmas about those functions.

Results that are not what the code's author would expect, each with its exact condition:

* A frame without blocks hides the rest of the stream when it comes first and yields nothing anywhere else: decoding is faithful exactly when the stream is one frame or no frame is without blocks (`FaithfulIffNoIdleFrames`). The number of blocks is read back exactly when it is at most nine (`BlockCountReadBack`), the length of a user name exactly when it is at most 255 (`UserLengthReadBack`).
* The client restores the program list exactly when the file it overwrites is no longer than the new text (`RestoredIffCovered`).
* Registering a machine whose peer address cannot be read breaks the registry invariant, and nothing else does (`CallKeepsConsistent`).
* Warning flags are shared between guests: nobody is ever kicked twice exactly when the computer has at most one limited account (`NeverTwiceIffOneGuest`; `TwoGuestsCanKickTwice` is the run for any two).
* A guest who stays is certain to be kicked exactly when polls are never more than 61 seconds apart (`AlwaysKickedIffGap`; `SlowPollsNeverKick` is the run at 62).
* A blacklisted machine is shown offline throughout a run exactly when no gather brings an answer starting with '2' or '8' while it is blacklisted (`OfflineIffNeverOverwritten`); two overlapping gathers do that (`OverlapBreaksOffline`).
* A blacklisted machine is certain to be eligible again within the call-home period and one poll exactly when no gather was under way as it was blacklisted, or the client had never been in contact (`InTimeIffNoneUnderWay`). A gather still under way can reach the client and start a new period; counted from there the bound always holds (`RecoversInTime`).

Where comments and code disagree the model follows the code: the expiry loop's comment speaks of one-second turns while it sleeps for sixty (linux_client/client.cpp:300-303, 431), and the comment on the frame layout gives two bytes to the length of the program data where one digit with the number of blocks is written (linux_client/client.cpp:1259, 1289-1290).

## Model

| member | source | states |
|---|---|---|
| `CrcSpec.RunDivides` | linux_install/boost/crc.hpp:730-749 | After any n message bits M from any initial remainder, M·x^Bits + init·x^n is quotient times (x^Bits + poly) plus the register, over GF(2) |
| `CrcSpec.DivisionUnique` | linux_install/boost/crc.hpp:730-749 | That identity has one solution: quotient and remainder are determined by the dividend |
| `CrcSpec.MulCoefficient` | linux_install/boost/crc.hpp:730-749 | The product in that identity is polynomial multiplication: each coefficient is the parity of the products of coefficients meeting there |
| `CrcSpec.RunXor` | linux_install/boost/crc.hpp:730-768 | The register is linear in initial remainder and message together |
| `CrcSpec.RunFolds` | linux_install/boost/crc.hpp:957-968 | n message bits at once are the register shifted by n plus the division from zero of the message xor the bits shifted out, for every width including widths below a byte |
| `CrcSpec.AugRunDivides` | linux_install/boost/crc.hpp:1047-1076 | The augmented register divides the message as it stands, preceded by the initial remainder |
| `CrcSpec.AugmentedTail` | linux_install/boost/crc.hpp:1047-1076 | Any last Bits bits of an augmented message are simply added to the direct remainder of what precedes them |
| `Crc.RemainderIsDivision` | linux_install/boost/crc.hpp:786-826 | A word is the remainder of a byte message if and only if it completes the division identity |
| `Crc.ChecksumCompletes` | linux_install/boost/crc.hpp:817-823 | A word is the checksum if and only if, un-xored with the final value and un-reflected bit by bit, it completes the division of the message |
| `Crc.MessageBitAt` | linux_install/boost/crc.hpp:775-796 | The bits divided are those of the bytes in order, each byte from its most significant bit, or from its least significant one if reflected |
| `Crc.ChecksumResumes` | linux_install/boost/crc.hpp:699-722 | Processing a then b is processing a++b; the interim remainder is all the state there is |
| `Crc.ChecksumAffine` | linux_install/boost/crc.hpp:786-826 | For equal-length messages the checksum of a^b^c is the xor of the three checksums, under any reflection and final value |
| `Crc.AugmentedZeros` | linux_install/boost/crc.hpp:1047-1076 | A message followed by Bits/8 zero bytes, augmented, is the direct unreflected checksum from zero; a non-zero initial remainder acts as leading message bits |
| `Crc.AugmentedOwnChecksum` | linux_install/boost/crc.hpp:1047-1076 | A message followed by its own checksum bytes, most significant first, leaves zero |
| `CrcEngines.Reflect` | linux_install/boost/crc.hpp:307-326 | The loop puts the low bits in reverse order and clears everything above |
| `CrcEngines.StorageStep` | linux_install/boost/crc.hpp:730-749 | The shift-and-xor step on a wide word, garbage above the width included, is one division step on its low bits |
| `CrcEngines.CrcBasic.ProcessBit` | linux_install/boost/crc.hpp:730-749 | One bit is one division step on the meaningful part of rem_ |
| `CrcEngines.CrcBasic.ProcessBits` | linux_install/boost/crc.hpp:755-768 | The low bit_count bits of the byte are divided in, highest first |
| `CrcEngines.CrcBasic.ProcessBlock` | linux_install/boost/crc.hpp:775-796 | A block divides in the bits of its bytes, each byte reflected if rft_in_ |
| `CrcEngines.CrcBasic.GetChecksum` | linux_install/boost/crc.hpp:817-823 | The remainder, reflected if rft_out_, xor the final value, masked to Bits bits |
| `CrcEngines.CrcTable.DivideByte` | linux_install/boost/crc.hpp:511-530 | The inner loop computes eight division steps of the dividend from zero |
| `CrcEngines.CrcTable.InitTable` | linux_install/boost/crc.hpp:491-539 | After the do-while every index holds the (reflected) division of the (reflected) index byte; a second call changes nothing |
| `CrcEngines.TableIndexInvolution` | linux_install/boost/crc.hpp:532-535 | Reflecting the index is its own inverse, so every entry is filled exactly once |
| `CrcEngines.TableStep` | linux_install/boost/crc.hpp:957-968 | One index/shift/lookup step is eight division steps, for both register layouts and every width from one bit up |
| `CrcEngines.ReflectedIndex` | linux_install/boost/crc.hpp:576-582 | In the reflected layout the low byte is the reflected top byte and the right shift drops it |
| `CrcEngines.DirectIndex` | linux_install/boost/crc.hpp:542-560 | align_msb yields the top byte, or the whole remainder padded when it is shorter than a byte |
| `CrcEngines.CrcOptimal.ProcessBlock` | linux_install/boost/crc.hpp:948-969 | The table loop divides in the same bits as crc_basic, the register being reflected if ReflectIn |
| `CrcEngines.CrcOptimal.GetInterimRemainder` | linux_install/boost/crc.hpp:910-915 | The un-reflected, masked remainder |
| `CrcEngines.CrcOptimal.Reset` | linux_install/boost/crc.hpp:923-929 | The register then stands for the given remainder |
| `CrcEngines.CrcOptimal.GetChecksum` | linux_install/boost/crc.hpp:988-995 | Reflecting only when the two reflect flags differ gives the same result as crc_basic's checksum |
| `CrcEngines.RunBoth` | linux_install/boost/crc.hpp:130-151 | For every width, parameters, reflect flags and bytes both engines return the same checksum, which completes the division of the message and is clean above Bits |
| `CrcEngines.RunOptimal` | linux_install/boost/crc.hpp:1030-1038 | crc() of a buffer is the word whose bits, un-xored and un-reflected, complete the division of the message |
| `CrcEngines.RunInterrupted` | linux_install/boost/crc.hpp:901-929 | reset(get_interim_remainder()) at any cut leaves the final checksum of either engine unchanged |
| `CrcEngines.AugmentWithZeros` | linux_install/boost/crc.hpp:1047-1076 | augmented_crc() of a message with Bits/8 zero bytes appended is crc() of the message, an initial remainder acting like its own bytes in front |
| `CrcEngines.AugmentWithChecksum` | linux_install/boost/crc.hpp:1047-1076 | augmented_crc() of a message with its own crc() appended, most significant byte first, is zero |
| `CrcEngines.AugmentedCrc` | linux_install/boost/crc.hpp:1047-1076 | The byte loop with the unreflected table is the bitwise augmented division, masked |
| `Decimal.ValueOfDigits` | linux_install/boost/lexical_cast.hpp:855-861 | The numeral printed digit by digit denotes the number |
| `Decimal.NoLeadingZero` | linux_install/boost/lexical_cast.hpp:855-861 | The numeral has no leading zero, and zero is "0" |
| `GroupedText.UnsignedRoundTrip` | linux_install/boost/lexical_cast.hpp:794-986 | Every value is accepted and read back from its printed form under every grouping string and non-digit separator |
| `GroupedText.SignedRoundTrip` | linux_install/boost/lexical_cast.hpp:1638-1979 | The same through the sign handling for every signed value, the minimum included |
| `GroupedText.GroupParses` | linux_install/boost/lexical_cast.hpp:916-958 | From any position where the two sides' counters are in step, the rest of what the printer writes has the shape the parser demands and strips to its digits |
| `GroupedText.PrintedInGroups` | linux_install/boost/lexical_cast.hpp:820-849 | Under any grouping the digits are cut from the right into groups of the locale's sizes, an entry that is not positive standing for 127 and the last one repeating, with one separator between two groups |
| `GroupedText.AcceptedGroups` | linux_install/boost/lexical_cast.hpp:902-959 | Under any grouping a text is well formed if and only if it is a non-empty digit string followed by groups of exactly the wanted sizes, each behind a separator |
| `GroupedText.UngroupedIsPlain` | linux_install/boost/lexical_cast.hpp:908 | Without a positive first size: plain digits, both ways |
| `GroupedText.SignOnlyWhenNegative` | linux_install/boost/lexical_cast.hpp:1638-1649 | A minus is printed for negative numbers, and no sign for others |
| `GroupedText.UniformSeparators` | linux_install/boost/lexical_cast.hpp:820-849 | With one group size g the separators stand exactly after every g digits counted from the right |
| `GroupedText.PrintedLength` | linux_install/boost/lexical_cast.hpp:568-591 | Digits and separators of any magnitude under any grouping number at most 1 + 2·digits10 |
| `GroupedText.AcceptedValue` | linux_install/boost/lexical_cast.hpp:916-958 | An accepted text denotes the value of its digits with the separators removed |
| `LexicalCast.PutUnsigned` | linux_install/boost/lexical_cast.hpp:794-867 | Writes exactly the printed text ending at finish and touches nothing outside it |
| `LexicalCast.PutGrouped` | linux_install/boost/lexical_cast.hpp:820-849 | The grouping do-while writes the digits with separators by group size |
| `LexicalCast.ToUnsignedIsMagnitude` | linux_install/boost/lexical_cast.hpp:781-788 | 0u - value is the magnitude, for the minimum too |
| `LexicalCast.ShlSigned` | linux_install/boost/lexical_cast.hpp:1639-1649 | With room for 2 + 2·digits10 characters the start pointer stays inside the buffer and the text is sign and printed magnitude |
| `LexicalCast.DigitStep` | linux_install/boost/lexical_cast.hpp:965-983 | A digit is rejected by the wrap-around tests if and only if the number read so far would exceed the type, even after the multiplier has wrapped |
| `Arith.TimesTenWraps` | linux_install/boost/lexical_cast.hpp:967-968 | Dividing the wrapped product by ten gives back the multiplier exactly when it did not wrap |
| `Arith.TimesDigitWraps` | linux_install/boost/lexical_cast.hpp:971-975 | The same for the product with a digit |
| `LexicalCast.RetUnsigned` | linux_install/boost/lexical_cast.hpp:873-986 | Accepts if and only if the text is well formed for the locale and its mathematical value fits, and then returns that value |
| `LexicalCast.RetGrouped` | linux_install/boost/lexical_cast.hpp:916-958 | The grouping loop, its fall-through to plain digits and its early returns decide exactly that |
| `LexicalCast.RetPlain` | linux_install/boost/lexical_cast.hpp:963-984 | The plain loop accepts if and only if everything left is digits and the whole value fits |
| `LexicalCast.PlainAcceptance` | linux_install/boost/lexical_cast.hpp:887-986 | Without grouping: non-empty, all digits and value at most the maximum, with any number of leading zeros |
| `LexicalCast.PlainSignedAcceptance` | linux_install/boost/lexical_cast.hpp:1949-1979 | Behind an optional sign, for signed types: non-empty, all digits, at most half the type's values after a minus and below that otherwise; the result is that number with its sign |
| `LexicalCast.SignedAcceptance` | linux_install/boost/lexical_cast.hpp:1949-1979 | The same in any locale, for well-formed text |
| `LexicalCast.SignedAcceptedValue` | linux_install/boost/lexical_cast.hpp:1969-1976 | Whatever is accepted denotes its digits' value with its sign and lies within the type |
| `LexicalCast.ShrUnsigned` | linux_install/boost/lexical_cast.hpp:1922-1946 | Optional sign; a minus negates modulo the type |
| `LexicalCast.ShrSigned` | linux_install/boost/lexical_cast.hpp:1949-1979 | Accepts exactly the magnitudes the signed type has for that sign and returns the signed value |
| `LexicalCast.CastThroughText` | linux_install/boost/lexical_cast.hpp:2355-2376 | Printing a signed number into the fixed-size buffer and parsing back gives the number again |
| `LexicalCast.CastUnsignedThroughText` | linux_install/boost/lexical_cast.hpp:2355-2376 | The same for unsigned types, whose buffer has no room for a sign |
| `FloatScan.RetFloat` | linux_install/boost/lexical_cast.hpp:1231-1403 | The scan accepts exactly the literals of the grammar and yields sign, truncated mantissa and power of ten |
| `FloatScan.LiteralScans` | linux_install/boost/lexical_cast.hpp:1234-1409 | Every literal (sign, digits, point, digits, exponent with its sign, each optional as the scan allows) is accepted, with its sign, and its magnitude lies in [m·10^p, (m+1)·10^p), equal to m·10^p when its digits fit |
| `FloatScan.ScansOnlyLiterals` | linux_install/boost/lexical_cast.hpp:1231-1403 | Whatever is accepted is such a literal |
| `FloatScan.ScanMantissa` | linux_install/boost/lexical_cast.hpp:1253-1362 | The mantissa loop, before and after the decimal point and before and after the mantissa is full |
| `FloatScan.ScanExponent` | linux_install/boost/lexical_cast.hpp:1365-1391 | Optional sign and at least one digit, with their value |
| `FloatScan.FitsExactly` | linux_install/boost/lexical_cast.hpp:1279-1289 | The overflow test on the mantissa is exact |
| `FloatScan.FeedTruncates` | linux_install/boost/lexical_cast.hpp:1253-1300 | The mantissa is the longest prefix of the digits that fits, and the number lies in [m, m+1) times ten to the digits dropped |
| `FloatScan.ScanTruncates` | linux_install/boost/lexical_cast.hpp:1231-1403 | The literal's magnitude lies in [m·10^p, (m+1)·10^p), equals m·10^p when nothing was dropped, and m fits its type |
| `Frames.BuildEvent` | linux_client/client.cpp:1273-1324 | The frame: flag, digit for the blocks, data, two hex digits of user length, user, ten timestamp characters |
| `Frames.EncodeLayout` | linux_client/client.cpp:1273-1324 | Where the flag, the digit, each block in capital hexadecimal, the length, the user and the time stand in the frame, and the numbers they denote |
| `Frames.PackBlocks` | linux_client/client.cpp:895-904 | One eight-digit hex numeral per block |
| `Frames.HeadOfEncoded` | server/main.cpp:215-338 | A frame at the head of any stream reads back as itself and ends where the rest begins |
| `Frames.StreamRoundTrip` | server/main.cpp:215-340 | Decoding the concatenation of any frames with blocks ends exactly at its end and yields each frame's events in order, omitting only zero blocks beyond the first |
| `Frames.DecodedStream` | server/main.cpp:143-340 | Any stream of frames: a first frame without blocks is all that is decoded, and otherwise frames without blocks are passed over |
| `Frames.EventsAre` | server/main.cpp:274-336 | Which events frames give: machine, time, user, account kind, offset from 1 and data of every block, save zero blocks beyond the first |
| `Frames.EventsInOrder` | server/main.cpp:274-336 | The events of a frame come in the order of their blocks |
| `Frames.GuestTypes` | server/main.cpp:179-207 | Kind 1 is a name beginning with gx, kind 2 one with gp, in either case |
| `Frames.FaithfulIffNoIdleFrames` | server/main.cpp:143-210 | With frames without blocks allowed, a stream decodes faithfully if and only if it is one frame or none is without blocks |
| `Frames.BlockCountReadBack` | linux_client/client.cpp:1289-1290 | The number of blocks reads back if and only if it is at most nine; any other number reads as its leading digit |
| `Frames.UserLengthReadBack` | linux_client/client.cpp:1298-1309 | The length of the user name reads back if and only if it is at most 255 |
| `Frames.FramesRecoverable` | server/main.cpp:274-336 | For a fixed number of blocks the events determine the frames |
| `Frames.EncodeInjective` | linux_client/client.cpp:1273-1324 | Distinct frames have distinct encodings |
| `Server.Server.ParseEventBlock` | server/main.cpp:143-341 | Appends exactly the decoded events and marks the machine logged in exactly when a frame is recent |
| `Server.MarksIffRecent` | server/main.cpp:143-341 | Of encoded frames, the machine is marked exactly when a frame with blocks is less than a minute old, or the first frame if it has none |
| `Server.Server.ParseFrames` | server/main.cpp:211-341 | The outer loop consumes the stream frame by frame |
| `Server.Server.ParseBlocks` | server/main.cpp:274-336 | The inner loop queues one event per block except zero blocks beyond the first |
| `Server.ChunkingIrrelevant` | server/main.cpp:511-533 | However a stream without NUL bytes is chunked, what is put together is the stream |
| `Server.Server.HandleGather` | server/main.cpp:449-640 | Skips blacklisted machines, finds the address safely, sets status or blacklist by the outcome and queues the decoded events |
| `Server.Server.HandleListen` | server/main.cpp:642-759 | One connection: the maps change as the call demands, the invariant is kept unless the peer address is lost, and the reply is the program list for the caller's system |
| `Server.Server.PopEvent` | server/main.cpp:1064-1075 | Takes the last event off the queue, or nothing |
| `Registry.CallKeepsConsistent` | server/main.cpp:662-698 | A call keeps the registry invariant if and only if it does not register a machine whose address cannot be read |
| `Registry.GatherKeepsConsistent` | server/main.cpp:449-626 | A gather keeps the invariant, the list and the addresses |
| `Registry.ReachableRegistry` | server/main.cpp:642-716 | In every reachable state: no duplicates, no empty name, listed exactly if it has called home, always in the blacklist map, address that of the latest call |
| `Registry.ReachableStatus` | server/main.cpp:449-716 | In every reachable state a machine is blacklisted exactly if the latest news of it is a gather that could not reach it; its status is 3, 2 or 1 as the last gather let through found it unreachable, answering '8' or answering '2', and before that 0 if new to the database and absent otherwise |
| `Delivery.BelowIsLexicographic` | linux_client/client.cpp:1145 | The order of the strings: a proper prefix, or smaller at the first difference |
| `Delivery.PendingOnce` | linux_client/client.cpp:1145-1146 | Sorting and collapsing duplicates leaves each distinct string once, ascending |
| `Delivery.Client.Drain` | linux_client/client.cpp:1142-1172 | Sends every distinct pending non-empty string exactly once in strictly descending order and empties the list; with none pending, the current minute |
| `Delivery.Client.MergeDisk` | windows_client/client.cpp:1102-1120 | Non-empty lines saved on disk join the pending ones and the file is emptied |
| `Delivery.Delivered` | server/main.cpp:511-571 | For every chunking of the drained stream the server decodes exactly the pending frames, each once, in sending order |
| `Delivery.Gather` | server/main.cpp:449-580 | One whole gather across client and server: queue extended by exactly those events, status logged in, nothing left pending |
| `Upload.QueueConserves` | server/main.cpp:1064-1075 | Over every run of calls, gathers and uploader turns, the events the gathers brought are those waiting plus those uploaded, as multisets |
| `Upload.Serve` | server/main.cpp:449-759 | Running the handlers and the uploader's pop is that run: the same maps, queue and uploads, nothing lost, invented or doubled |
| `Upload.BroughtAreEvents` | server/main.cpp:449-580 | A gather whose chunks are frames with blocks brings exactly their events |
| `ProgramBitmap.TallyProgramCount` | linux_client/client.cpp:1640-1706 | In one poll bit k of a block is set if and only if the k-th of the block's 32 entries that are left when blank ones are taken out is running |
| `ProgramBitmap.GatherMinute` | linux_client/client.cpp:842-877 | After any polls bit k of block b is set if and only if that name was running in at least one |
| `ProgramBitmap.BitsAreNames` | linux_client/client.cpp:1651-1701 | The bits in use are the first ones, as many as the block has entries that are not blank, in their order |
| `ProgramBitmap.LaterIsHigher` | linux_client/client.cpp:1651-1701 | A program further down the list has a higher bit |
| `ProgramBitmap.RanksInjective` | linux_client/client.cpp:1651-1699 | Within a block no two programs share a bit and every bit is below 32 |
| `ProgramBitmap.EveryProgramHasABit` | linux_client/client.cpp:842-846 | The rounded-up number of blocks covers the list; each program has exactly one block and bit |
| `ProgramBitmap.NoBlockTooMany` | linux_client/client.cpp:842-846 | There are just as many blocks as begin within the list |
| `Bits.ToBitsDigit` | linux_client/client.cpp:1664-1678 | Bit k of a word is the k-th binary digit of its number |
| `Minute.EventBitsMean` | server/main.cpp:282-336 | Binary digit k of the data of a queued event of offset b says whether the block's k-th name that is not blank ran in that minute; a missing event says none of the block's did |
| `Minute.GatherFrame` | linux_client/client.cpp:842-907 | The queued string is the encoding of a frame whose blocks are the minute's bitmap |
| `ProgramList.ListServer.ListText` | server/main.cpp:719-742 | The loop ends although it lengthens the list, and emits every name behind a comma, on the first and on every later call |
| `ProgramList.SplitOfJoin` | linux_client/client.cpp:2160-2161 | Splitting undoes joining for names without the separator |
| `ProgramList.RestoredIffCovered` | linux_client/client.cpp:2158-2200 | The list read back is the list sent if and only if the old file is no longer than the new text |
| `ProgramList.ListClient.SetProgramList` | linux_client/client.cpp:1515-1546 | The lines of the file become the list and their number the count |
| `ProgramList.ListClient.WriteProgramFile` | linux_client/client.cpp:2158-2204 | The new text overwrites the beginning of an existing file, and the file is read again |
| `ProgramList.ListClient.ReceiveList` | linux_client/client.cpp:2250-2267 | Drops the leading comma; an empty answer changes nothing |
| `ProgramList.RoundTrip` | server/main.cpp:719-742 | From the server's map to the client's list and count, blanks in place |
| `GuestExpiry.Monitor.Turn` | linux_client/client.cpp:306-432 | One loop turn: insert-only first sighting, at most one warning or kick, flags cleared after a kick or when nobody is logged in |
| `GuestExpiry.ActionsInAnyRun` | linux_client/client.cpp:306-432 | In every run, whoever is logged in when: a warning comes exactly 6300 to 6900, 6900 to 7140 or 7140 to 7200 s after the account was first seen, if the earlier ones and not this one have been given, and a kick from 7200 s on if all have |
| `GuestExpiry.FlagsAreWarnings` | linux_client/client.cpp:309-431 | In every run a flag is up exactly if its warning has been given since the last kick or moment with nobody logged in |
| `GuestExpiry.LimitedNames` | linux_client/client.cpp:315-326 | The limited accounts are the names beginning with gp, in either case |
| `GuestExpiry.FlagsInOrder` | linux_client/client.cpp:309-431 | At every loop head of every run one implies five implies fifteen, and expired is false |
| `GuestExpiry.NoKickBeforeTwoHours` | linux_client/client.cpp:327-412 | In every run nobody is kicked within 7200 seconds of first being seen |
| `GuestExpiry.KickedAtMostOnce` | linux_client/client.cpp:327-430 | With a single guest name and a monotone clock that guest is kicked at most once, log-outs included |
| `GuestExpiry.NeverTwiceIffOneGuest` | linux_client/client.cpp:309-412 | Among these limited accounts nobody is kicked twice in any run with a monotone clock, if and only if there is at most one of them |
| `GuestExpiry.TwoGuestsCanKickTwice` | linux_client/client.cpp:309-412 | For any two limited accounts, a run in which the first is kicked twice |
| `GuestExpiry.StateIsWindows` | linux_client/client.cpp:341-412 | For a guest always there the flags say exactly which windows polls have passed through in order |
| `GuestExpiry.ActionsAreWindows` | linux_client/client.cpp:341-412 | Each warning and the kick happen at exactly the first poll of their window after the earlier ones |
| `GuestExpiry.EachActionOnce` | linux_client/client.cpp:341-412 | No warning and no kick is repeated |
| `GuestExpiry.KickDeadline` | linux_client/client.cpp:311-431 | With polls at most 61 s apart all three warnings come in order, at most 60 s after 6300, 6900 and 7140 s, and the kick no later than 7261 s after first sighting |
| `GuestExpiry.SlowPollsNeverKick` | linux_client/client.cpp:341-431 | Polls 62 s apart that never kick, however long the run |
| `GuestExpiry.AlwaysKickedIffGap` | linux_client/client.cpp:341-431 | However polls at most `gap` seconds apart fall, a guest who stays past the two hours is kicked, if and only if `gap` is at most 61 |
| `Recovery.CallHomeTask.Turn` | linux_client/client.cpp:2209-2267 | Calls exactly when due; the contact data change as in the client's step of the composed system |
| `Recovery.CallsFarApart` | linux_client/client.cpp:2220-2265 | In every run, after a call home that is answered none is due until the period has passed |
| `Recovery.HomeClears` | server/main.cpp:662-672 | A delivered call home takes the machine off the blacklist |
| `Recovery.OfflineNext` | server/main.cpp:533-606 | One step keeps a blacklisted machine at status 3 if and only if it is not the end of a gather that brings an answer starting with '2' or '8' while the machine is blacklisted |
| `Recovery.OfflineIffNeverOverwritten` | server/main.cpp:451-626 | Over every run, with any number of gathers under way: blacklisted implies status 3 at every moment, if and only if no such step occurs |
| `Recovery.BlacklistedIsOffline` | server/main.cpp:451-626 | While gathers do not overlap a blacklisted machine is not being gathered and has status 3, in every run |
| `Recovery.OverlapBreaksOffline` | server/main.cpp:876-885 | From any state in which the machine is not blacklisted, two overlapping gathers can leave it blacklisted with status 1 |
| `Recovery.WaitingPeriod` | linux_client/client.cpp:2220-2265 | While blacklisted only gathers still under way reach the client, and no poll lies beyond the end of the period the last of them started |
| `Recovery.RecoversInTime` | server/main.cpp:876-889 | With any number of gathers under way, a machine that stays up and whose calls get through is eligible again within CALL_HOME·60 s plus one poll of being blacklisted or, if later, of the last gather that reached the client |
| `Recovery.RecoversAlone` | server/main.cpp:876-889 | With no gather under way as it is blacklisted, or a client never in contact, within CALL_HOME·60 s plus one poll of that moment |
| `Recovery.DelayedRecovery` | linux_client/client.cpp:1224 | Otherwise there is a run, for every period and polling gap, that stays blacklisted beyond that bound |
| `Recovery.InTimeIffNoneUnderWay` | server/main.cpp:876-889 | That bound holds in every run if and only if no gather was under way or the client had never been in contact |

## Left out

- Sockets, timeouts, MySQL, files other than the two modelled, process listings, pipes, message boxes and logging: they appear only as the bytes, clock readings and outcomes they supply.
- Server.Server.ParseEventBlock: requires a stream that is frames throughout; on anything else the original reads uninitialised or foreign memory. The clock is read once per call instead of once per block and is at least 60.
- Server.Server.HandleGather: one gather is one step; its two-phase form with other gathers in between is in Recovery. Its answer, when it starts with '2', must be frames throughout.
- FloatScan.ScanTruncates: exponents are unbounded integers; the evaluation with pow, NaN and infinity texts and scanning under a locale with grouping are not modelled.
- LexicalCast.RetUnsigned: the value left behind by a failed parse is not described; the caller throws.
- CrcEngines.CrcBasic.ProcessBit: the bits of rem_ above the width are not described; they never reach a result.
- Frames.StreamRoundTrip: for frames of one to nine blocks and user names of up to 255 bytes; frames without blocks are covered by FaithfulIffNoIdleFrames, and beyond the other two limits the length fields themselves no longer read back (BlockCountReadBack, UserLengthReadBack).
- Frames.BuildEvent: takes the rounded timestamp's text as a parameter; ten digits hold from 2001 to 2286.
- The guest expressions "^gx" and "^gp" are modelled as case-insensitive prefixes; user names contain no line breaks.
- ProgramBitmap.TallyProgramCount: the Windows matcher; the Linux branch shifts by the global list index and is not modelled beyond the first block.
- ProgramList.ListClient.WriteProgramFile: the Windows branch; the Linux one ends the file with a newline and re-reads into a list it does not clear.
- ProgramList.ListServer.ListText: for lists filled as at start-up, with keys 1 to n.
- The reading of the program file by the Linux client, script scheduling, account restrictions and the reader tool: no property that spans operations.
- linux_install/main.cpp has a second copy of the frame parser and an older handle_listen that never refreshes an address: only server/main.cpp is modelled.
- Upload.Serve: runs in which no registration loses its peer's address, since a gather's address look-up is unsafe after one.
- Unsynchronised access to the maps from several threads: handlers are atomic steps.
- FloatScan and LexicalCast stop at the text: template type selection and stream buffers are not modelled.
