# Firmware packages, key debouncing and other small routines, verified

This project models the parts of the repository that hold real logic and proves what they promise.

- **The PAC package builder** (`tools/pacgen.py`): its 16-bit CRC, the cpio archives it packs directories into, the
  container of main header, file headers and contents, the stored configuration, and the splitting of its command line.
  Readers that know only the file formats are defined beside the writers, so that "the package is right" means "a reader
  gets everything back".
- **The GPIO key detector** (`examples/mg_gpio.c`): interrupts and timer expiries in any order over one shared record.
- **Four smaller routines** from the examples: the device-record parser, the audio capture buffer, the Bluetooth name
  and address converters, and the LCD colour-bar fills.

Objects that the source updates are classes with the source's methods; loops are loops; expressions are functions.
Methods are proved against specification functions, and the lemmas are about those functions.

| file | what it holds |
|---|---|
| `Bytes.dfy`, `Struct.dfy`, `Text.dfy`, `Sorting.dfy` | byte strings, `struct` packing and unpacking, UTF-16LE and UTF-8, `sorted` |
| `Crc16.dfy`, `CrcDivision.dfy`, `CrcDetection.dfy`, `CrcPeriod.dfy`, `CrcFewErrors.dfy` | the table and the loop, long division by the generator, which errors are seen, the order of the generator, two and three flipped bits |
| `Paths.dfy`, `PathKeys.dfy`, `Disk.dfy`, `DirectoryOrder.dfy`, `Cpio.dfy`, `CpioConfig.dfy` | path normalisation, the paths of all nodes, the file tree and its walk, the order of the archive, archive records, the archive builder |
| `PacImage.dfy`, `PacErrors.dfy`, `PacReader.dfy`, `PacLayout.dfy` | the image, what its CRCs reveal, its reader, its bytes one by one |
| `ConfigJson.dfy`, `ConfigFormat.dfy`, `PacConfig.dfy`, `Package.dfy` | stored configurations, their text key by key, the builder's objects, the whole way of a packed tree |
| `SplitCmd.dfy` | the command line |
| `Debounce.dfy`, `DeviceInfo.dfy`, `Capture.dfy`, `BtConvert.dfy`, `BtAddress.dfy`, `LcdFill.dfy` | the examples |

`dafny verify dfyconfig.toml` checks everything.

## What came out

Properties that do not hold for all inputs are stated with the exact condition under which they do.

- A tree is recorded under matching suffixes exactly when neither path has a run of three slashes or backslashes
  (leading ones of the remote path aside): one pass of `replace('//', '/')` leaves a double slash otherwise, and the
  nodes two levels down lose characters (`Disk.SuffixesKeptIff`).
- Every tree keeps its directories before their contents in the archive if and only if, however often the local path is
  collapsed further, its first leftover run of slashes is followed by a character above the slash and not by a lower one
  or the end (`DirectoryOrder.DirectoriesFirstIff`). Paths without three slashes in a row are so; `a///z` is so too; under
  `a///-z` a file `x` is written before the directory it is in (`DirectoryOrder.LowCharacterBehindRun`).
- An archive reads back exactly when every name with its NUL is below 2^16 bytes, every file below 2^32 and no name is
  `TRAILER!!!` (`Cpio.ArchiveRoundTrip`). Sizes beyond that are cut silently; the writer raises nothing
  (`Cpio.OversizeMisread`).
- A package is written exactly when all contents are available, all numbers fit 32 bits and the whole is below 2^32
  bytes (`PacImage.ImageOk`); it reads back exactly when its texts fit their fields and hold no NUL
  (`PacReader.ImageReadBack`). `struct.pack` cuts longer texts silently.
- From the objects to the bytes and back: a reader of a written package finds every attribute and content of the objects
  exactly when all texts fit (`PacConfig.PackageCarries`).
- Storing and loading a configuration gives it back, less its XML entries, exactly when the attributes of each file that
  are not stored have the values its kind gives them, as they have after every setter (`PacConfig.StoreThenLoad`). One
  loaded with a file of an unknown kind cannot be stored again: the object has no kind, which is an `AttributeError`.
- Flipped bits in a verifying package go unseen if and only if the pattern of flips verifies by itself
  (`PacErrors.UnseenIffVerifies`). Bursts of up to 16 bits are seen except some across the end of the main header, of
  which one is given for every body length of the form 32767 k + 1 (`PacErrors.StraddlingBurstUnseen`). Two flipped bits
  behind the main header go unseen exactly when their distance is a multiple of 32767 (`PacErrors.TwoErrorsInBody`).
- The parsed port of a device record is the printed one exactly when it is below 65536: seven digits pass the buffer,
  but `port` is a `u16_t` (`DeviceInfo.RecordExact`).
- The key detector started with the pin high never reports anything (`Debounce.StartedHighIsDeaf`).
- Capture frames of a fixed size stay inside the buffer in every run exactly when the size divides 512000
  (`Capture.SafeSizes`): the callback compares the count and not the count plus the frame.

## Model

| member | source | states |
|---|---|---|
| Crc16.TableIsBitwise | tools/pacgen.py:40-73 | each of the 256 table entries is its index shifted right eight times with feedback 0xA001 |
| Crc16.TableStepIsByteStep | tools/pacgen.py:99 | one table step is the eight bit steps of that byte, for every state and byte |
| Crc16.CalcCrc16 | tools/pacgen.py:95-100 | the table loop computes the bitwise CRC of the whole string from the given start |
| Crc16.CrcAppend | tools/pacgen.py:763-767 | feeding chunks one after another is feeding their concatenation |
| Crc16.CrcLinear | tools/pacgen.py:95-100 | the CRC of the xor of two (start, string) pairs of equal length is the xor of their CRCs |
| Crc16.CrcIsBitCrc | tools/pacgen.py:95-100 | the byte-wise CRC is the shift register fed bit by bit, lowest bit of each byte first |
| CrcDivision.CrcIsRemainder | tools/pacgen.py:40-100 | the register is the remainder of schoolbook division of message times x^16 plus start times x^length by x^16 + x^15 + x^2 + 1 |
| CrcDetection.BitCrcInjective | tools/pacgen.py:95-100 | for a fixed message different start values end in different CRCs |
| CrcDetection.BitBurstDetected | tools/pacgen.py:95-100 | bit strings that differ only within 16 consecutive bits have different CRCs |
| CrcDetection.BurstDetected | tools/pacgen.py:95-100 | byte strings that differ only within 16 consecutive bits have different CRCs from every start |
| CrcDetection.BytePairDetected | tools/pacgen.py:763-767 | strings of equal length that differ only within one byte or two adjacent ones have different CRCs |
| CrcDetection.ZeroResidue | tools/pacgen.py:762-789 | two bytes behind a string bring the register to zero if and only if they are its CRC, low byte first |
| CrcDetection.CrcBytesInjective | tools/pacgen.py:769-789 | the two stored bytes determine the CRC |
| CrcDetection.ParityFollows | tools/pacgen.py:95-100 | the parity of the register is that of the start and the message together |
| CrcDetection.OddErrorDetected | tools/pacgen.py:95-100 | strings of equal length that differ in an odd number of bits have different CRCs |
| CrcPeriod.PowersMultiply | tools/pacgen.py:95-100 | the product of two powers of x modulo the generator is the power of the sum |
| CrcPeriod.PeriodIff | tools/pacgen.py:40-100 | the powers of x modulo the generator return to 1 at the multiples of 32767 and nowhere else |
| CrcFewErrors.TwoFlips | tools/pacgen.py:95-100 | two flipped bits leave the CRC unchanged if and only if their distance is a multiple of 32767 |
| CrcFewErrors.FewFlipsDetected | tools/pacgen.py:95-100 | one to three flipped bits change the CRC of every string of at most 32767 bits |
| CrcDetection.SealedIsEven | tools/pacgen.py:762-789 | a string followed by its CRC has an even number of ones |
| Struct.Pack | tools/pacgen.py:381-394 | packing succeeds exactly when every number fits its field, and then has the size of the format |
| Struct.UnpackPack | tools/pacgen.py:742-760 | unpacking gives every number back and every string cut or zero-padded to its field |
| Struct.UnpackAppend | tools/pacgen.py:28-30 | a format is read piece by piece: unpacking a concatenation is concatenating what each piece unpacks to |
| Struct.FieldBytes | tools/pacgen.py:183-201 | field k of a packed format stands behind the sizes of the fields before it |
| Struct.Fixed | tools/pacgen.py:384-394 | a string field holds the first bytes of the string, and zeros behind a shorter one |
| Struct.Pack32 | tools/pacgen.py:384-394 | a number is stored in four bytes, low byte first |
| Text.FieldKeepsText | tools/pacgen.py:384-385 | a UTF-16LE text comes back out of a field of even size if and only if it fits and holds no NUL |
| Text.SurrogatePair | tools/pacgen.py:384-385 | a character above 0xFFFF becomes a high and a low surrogate that make up its number |
| Text.Utf16Append | tools/pacgen.py:384-385 | UTF-16LE goes character by character |
| Text.ReadUtf8OfUtf8 | tools/pacgen.py:172 | decoding the UTF-8 of a name gives the name |
| Text.Utf8HasNoNul | tools/pacgen.py:172-173 | the encoded name has a zero byte if and only if the name has a NUL character |
| Text.Utf8Form | tools/pacgen.py:172 | a character takes 1, 2, 3 or 4 bytes by its number, the shortest form; below 0x80 it is one byte of that value |
| Text.Utf8Bits | tools/pacgen.py:172 | the bits of the longer forms make up the number |
| Text.Utf8Append | tools/pacgen.py:172 | UTF-8 goes character by character |
| Paths.CollapseLeavesDouble | tools/pacgen.py:147-148 | one pass of replacing // by / leaves a // if and only if three slashes in a row came in |
| Paths.StripThenCollapse | tools/pacgen.py:148 | stripping leading slashes before or after collapsing is the same |
| Paths.Unback | tools/pacgen.py:147-148 | position by position a slash where the given path has a slash or a backslash, every other character as it was |
| DirectoryOrder.RunHalves | tools/pacgen.py:147 | one pass makes a run of n slashes one of n / 2, rounded up |
| PathKeys.CollapseAppend | tools/pacgen.py:147 | and works on either side of a character that is no slash by itself |
| Paths.LeadLength | tools/pacgen.py:148 | all leading slashes are stripped and nothing else |
| Paths.LocalIsClean | tools/pacgen.py:147 | a normalised local path has a double slash if and only if three characters in a row of the given one are slashes or backslashes |
| Paths.RemoteIsClean | tools/pacgen.py:148 | the same for the remote path, where the three must stand behind some other character |
| Paths.SlashesOrBackslashes | tools/pacgen.py:147-148 | a path and the same path with other separators are normalised alike |
| Paths.ChildLocal | tools/pacgen.py:156 | normalising base/name under a clean base just joins them with one slash |
| Paths.ChildRemote | tools/pacgen.py:157 | the same for the remote side, without a leading slash below the root |
| Paths.LocalAtInjective | tools/pacgen.py:154-157 | different name sequences below a root have different local paths |
| PathKeys.LocalKeyIsSuffix | tools/pacgen.py:147-157 | below a clean root the local path of every node is root plus suffix |
| PathKeys.RemoteKeyIsSuffix | tools/pacgen.py:148-157 | the same for the remote path |
| PathKeys.KeyIsFront | tools/pacgen.py:147-157 | below any root the local path k levels down is the root with a slash, collapsed k times, and the suffix |
| PathKeys.LocalKeyInjective | tools/pacgen.py:147-157 | below any root different nodes have different local paths |
| PathKeys.RemoteKeyNotEmpty | tools/pacgen.py:148-152 | only the root itself can be left without a remote path |
| Disk.WalkRecord | tools/pacgen.py:142-157 | below any root every node, but for a root with empty remote path, is recorded under its own two paths |
| Disk.RecordNode | tools/pacgen.py:142-157 | every record is that of such a node |
| Disk.WalkExact | tools/pacgen.py:142-163 | the map holds one record for each such node and nothing else, and no two nodes share one |
| Disk.SameRecords | tools/pacgen.py:142-157 | paths given with backslashes are walked to the same records as with slashes |
| Disk.SuffixesKeptIff | tools/pacgen.py:125-157 | for every tree the suffixes match on both sides if and only if the given paths have no three slashes or backslashes in a row, those leading the remote path aside |
| DirectoryOrder.ChildOrder | tools/pacgen.py:147-156 | a node whose path has a leftover run of slashes sorts before its children if and only if the character behind the run is above the slash |
| DirectoryOrder.OrderKept | tools/pacgen.py:142-226 | at an allowed root every recorded node of every tree is written before everything below it |
| DirectoryOrder.DirectoriesFirstIff | tools/pacgen.py:142-226 | every tree keeps that order if and only if the root is allowed: a condition on the two given paths alone |
| DirectoryOrder.CleanRootAllows | tools/pacgen.py:147-226 | paths without three slashes or backslashes in a row are allowed |
| DirectoryOrder.LowCharacterBehindRun | tools/pacgen.py:142-226 | a///-z over a directory holding x: x is written before the directory |
| DirectoryOrder.HighCharacterBehindRun | tools/pacgen.py:147-226 | a///z has a leftover run and is allowed |
| Sorting.SortKeys | tools/pacgen.py:225 | the loop's order is the strictly increasing enumeration of the recorded paths |
| Sorting.SortedIsUnique | tools/pacgen.py:225 | that enumeration is the only increasing one with these elements |
| Cpio.HalvesRebuild | tools/pacgen.py:109-118 | high and low halves together are the number modulo 2^32, negative ones included |
| Cpio.Even | tools/pacgen.py:174-181 | rounding up to even adds at most one |
| Cpio.PackRecordIs | tools/pacgen.py:183-201 | the header and body formats packed together are 26 header bytes, the padded name and the padded data |
| Cpio.RecordShorts | tools/pacgen.py:184-198 | which of the twelve header numbers stands where, low byte first, cut to 16 bits or in two halves |
| Cpio.RecordBody | tools/pacgen.py:183-201 | a record starts with c7 71; behind the header the name, one or two zeros, the data, and a zero if that is odd |
| Cpio.ReadBack | tools/pacgen.py:165-201 | a record whose sizes fit reads back: all header numbers, the name without its NUL, the data, and its length |
| Cpio.OversizeMisread | tools/pacgen.py:196-198 | a record whose name or data is too long for its size fields never reads back |
| Cpio.ArchiveRoundTrip | tools/pacgen.py:203-228 | an archive reads back record by record up to the trailer if and only if every size fits and no name is TRAILER!!! |
| Cpio.ArchiveIsEven | tools/pacgen.py:174-181 | every archive has even length |
| Cpio.ArchiveLayout | tools/pacgen.py:184-200 | every record, the trailer last, starts at an even offset with the magic, its name and a NUL behind it |
| Cpio.TrailerBytes | tools/pacgen.py:203-219 | the 38 bytes of the trailer |
| Cpio.ArchiveEnds | tools/pacgen.py:224-228 | every archive ends with them |
| Cpio.FirstNul | tools/pacgen.py:172-174 | the NUL after the name is the first one exactly when the name has none |
| CpioConfig.CpioConfig.constructor | tools/pacgen.py:134-135 | nothing is recorded at first |
| CpioConfig.CpioConfig.InsertPath | tools/pacgen.py:142-157 | the recursion ends and puts the records of the whole tree over those already there; a path that is no directory, a missing one included, adds its own record alone |
| CpioConfig.CpioConfig.AddPath | tools/pacgen.py:159-163 | the same for the path given by the caller |
| CpioConfig.CpioConfig.GenFileData | tools/pacgen.py:165-201 | one record of the status found on disk and the recorded name: with the content of a regular file, without any for a directory or anything else; an OSError when the path is gone |
| CpioConfig.CpioConfig.GenTrailer | tools/pacgen.py:203-219 | the trailer is the record of a node with one link and nothing else |
| CpioConfig.CpioConfig.GenData | tools/pacgen.py:221-228 | the records in sorted path order and the trailer, or an OSError when a recorded path is gone |
| CpioConfig.ArchiveIsJoined | tools/pacgen.py:224-228 | appending record after record and then the trailer is the archive |
| CpioConfig.SortedNodes | tools/pacgen.py:142-226 | the sorted records of a walk are its nodes, each once, in the order of their local paths |
| CpioConfig.ListsIsUnique | tools/pacgen.py:225-226 | that list of nodes is the only one |
| CpioConfig.PackedTree | tools/pacgen.py:142-228 | archive entry i of a walked tree is its i-th node in path order: its path, its status, its content if it is a regular file and none otherwise |
| CpioConfig.TreeRecovered | tools/pacgen.py:142-228 | reading the archive of a walked tree gives its nodes one for one, in path order, and nothing else: every path and status, every regular file with exactly its content, every other node with none |
| CpioConfig.DirectoryFirst | tools/pacgen.py:142-226 | of the nodes so read, at an allowed root, one that lies below another comes after it |
| PacImage.PacHeaderLayout | tools/pacgen.py:28 | the main header has no padding holes, 2124 bytes, and the format without its last two characters is its first 2120 |
| PacImage.FileHeaderLayout | tools/pacgen.py:29 | a file header has no padding holes and 2580 bytes |
| PacImage.FileHeaderOk | tools/pacgen.py:377-394 | a file header is made exactly when its four numbers, the size and the offset fit 32 bits |
| PacImage.HeadersNeedRoom | tools/pacgen.py:729-735 | where all headers are made, every offset embedded in one fits 32 bits and every header has its size |
| PacImage.MainHeaderIs | tools/pacgen.py:742-789 | the main header is the 2120 bytes without CRCs, their CRC, and the CRC of all the rest; made exactly when its numbers fit |
| PacImage.ImageFromHeaders | tools/pacgen.py:721-794 | the image is the main header, the file headers and the contents, and the first failing step decides the error |
| PacImage.FirstFailure | tools/pacgen.py:729-735 | where not all headers are made, the first file without content or with a number that does not fit gives the error, and contents are read up to there |
| PacImage.HandledAll | tools/pacgen.py:729-735 | where all headers can be made every content has been read |
| PacImage.ImageOk | tools/pacgen.py:711-794 | a package is written if and only if every content is available, every number fits 32 bits and the whole is below 2^32 bytes |
| PacLayout.FileHeaderBytes | tools/pacgen.py:377-394 | what every byte of the 2580 of a file header is |
| PacLayout.MainHeaderBytes | tools/pacgen.py:742-789 | what every byte of the 2124 of the main header is, the magic fa ff fa ff and the two CRCs, low byte first, included |
| PacImage.ImageVerifies | tools/pacgen.py:762-794 | both stored CRCs are right, and the header with its own CRC behind it leaves a zero register |
| PacErrors.BurstInFileDetected | tools/pacgen.py:762-794 | a changed burst of at most 16 bits makes verification fail, in any verifying file, but for bursts across the end of the main header |
| PacErrors.VerifiedIsEven | tools/pacgen.py:762-794 | every file that verifies has an even number of ones |
| PacErrors.OddErrorInFileDetected | tools/pacgen.py:762-794 | an odd number of flipped bits anywhere in the file makes verification fail |
| PacErrors.VerifiesIffZero | tools/pacgen.py:762-794 | a file verifies if and only if both ranges, each with its CRC behind it, leave a zero register |
| PacErrors.UnseenIffVerifies | tools/pacgen.py:762-794 | flipping the bits of a pattern in a verifying file goes unseen if and only if the pattern verifies by itself |
| PacErrors.StraddlingBurstUnseen | tools/pacgen.py:762-794 | in every verifying file with a body of 32767 k + 1 bytes a certain burst within 16 bits across the end of the main header goes unseen |
| PacErrors.FewErrorsDetected | tools/pacgen.py:762-794 | one to three flipped bits are seen if one hits the first 2122 bytes, and anywhere in files of up to 6217 bytes |
| PacErrors.TwoErrorsInBody | tools/pacgen.py:763-794 | two flipped bits behind the main header go unseen if and only if their distance is a multiple of 32767 |
| PacReader.FilePlaced | tools/pacgen.py:721-735 | header i stands at its slot, content i at the offset that header states |
| PacReader.FilesReadBack | tools/pacgen.py:377-394 | following the headers from slot i gives every later file exactly if and only if their texts fit |
| PacReader.ImageReadBack | tools/pacgen.py:711-794 | a reader of the bytes alone, checking sizes, magic and reserved fields, gets all parameters and every file's id, name, flags, address and content, in order, if and only if the texts fit and hold no NUL |
| PacLayout.ImageTiled | tools/pacgen.py:725-738 | the data regions start behind the headers, follow each other without gap or overlap, have the stated sizes and contents, and end with the file |
| ConfigJson.HexRoundTrip | tools/pacgen.py:487-509 | int(hex(n), 16) is n for every integer, negative ones included |
| ConfigFormat.DigitValueIff | tools/pacgen.py:427 | the digits of value v are the two characters for it in the small and the capital table, and nothing else |
| ConfigFormat.HexSpelt | tools/pacgen.py:487 | hex writes 0x, or -0x, and small digits without leading zeros |
| ConfigFormat.ParseHexTakes | tools/pacgen.py:427 | int(_, 16) reads a sign or none, 0x, 0X or neither, and digits of either case |
| ConfigFormat.ParseHexOnly | tools/pacgen.py:427 | anything else is a ValueError |
| ConfigJson.NvRoundTrip | tools/pacgen.py:425-492 | a stored NV item loads as itself |
| ConfigJson.FileRoundTrip | tools/pacgen.py:434-533 | a stored pac file loads as itself if and only if its unstored and derived attributes have the values of its kind |
| ConfigJson.FilesRoundTrip | tools/pacgen.py:434-533 | a list with a file of no kind cannot be stored; any other loads as itself without XML entries, in order, if and only if each file is so |
| ConfigJson.StoreLoad | tools/pacgen.py:407-536 | a stored configuration loads as itself without its XML entries, under the same condition |
| ConfigFormat.StoredIs | tools/pacgen.py:467-533 | the stored object key by key: ten plain attributes, every NV item and every file but the XML entries, a pack file with its type, addresses as hexadecimal text |
| ConfigFormat.WithoutXmlAppend | tools/pacgen.py:494-497 | the files kept are all but the XML entries, in order |
| ConfigFormat.WithoutXmlOne | tools/pacgen.py:494-497 | a single file is kept unless it is an XML entry |
| ConfigFormat.Found | tools/pacgen.py:415-434 | what a key gives: its value, a KeyError without it, a ValueError for a text that is no number; the two lists may be missing |
| ConfigFormat.ScalarsLoaded | tools/pacgen.py:415-424 | the ten plain attributes come from the keys of their names, all of them needed |
| ConfigFormat.NvLoaded | tools/pacgen.py:425-432 | an NV item comes from its six keys, all of them needed |
| ConfigFormat.PlainLoaded | tools/pacgen.py:436-446 | a plain file: which keys are needed and which attribute each gives |
| ConfigFormat.EmptyLoaded | tools/pacgen.py:447-455 | the same for an empty file |
| ConfigFormat.PackLoaded | tools/pacgen.py:456-463 | the same for a pack file, whose stored type is not read |
| ConfigFormat.OtherLoaded | tools/pacgen.py:434-465 | an entry must name its kind; an unknown one gives an object with nothing set |
| ConfigFormat.ListsMayMiss | tools/pacgen.py:425-434 | a document without the two lists loads with none |
| ConfigFormat.EntriesLoaded | tools/pacgen.py:425-465 | the lists are loaded entry by entry, the first that fails giving the error |
| ConfigJson.LoadedIsSet | tools/pacgen.py:434-465 | every loaded file is blank, for an unknown kind, or has the unstored and derived attributes of its kind |
| PacConfig.PacFileConfig.constructor | tools/pacgen.py:270-271 | no content yet and no attribute set |
| PacConfig.PacFileConfig.SetPlainFile | tools/pacgen.py:273-290 | each attribute of a plain file, the unrelated one kept; a fresh file has the derived attributes of its kind |
| PacConfig.PacFileConfig.SetEmptyFile | tools/pacgen.py:292-307 | each attribute of an empty file, the unrelated ones kept; a fresh file has the derived attributes of its kind |
| PacConfig.PacFileConfig.SetXmlFile | tools/pacgen.py:309-319 | the attributes and the content of the generated XML |
| PacConfig.PacFileConfig.SetPackFile | tools/pacgen.py:321-340 | each attribute of a pack file, at the fixed address 0xFE000004, and a new archive configuration holding the walk of its tree |
| PacConfig.PacFileConfig.PrepareContent | tools/pacgen.py:352-361 | kind by kind: the bytes of a plain file or its OSError, nothing for an empty file, the archive of a pack file or its error; nothing is done for an XML entry |
| PacConfig.PacFileConfig.FileSize | tools/pacgen.py:363-368 | the size of the cached content, or the error of an XML entry without any |
| PacConfig.PacFileConfig.FileData | tools/pacgen.py:370-375 | the content, cached: every later call gives the same bytes whatever the disk holds then; None for an XML entry without any |
| PacConfig.PacFileConfig.GetFileHeader | tools/pacgen.py:363-394 | the header of the cached content's size at the given offset, the content being cached by this call |
| PacConfig.LoadOne | tools/pacgen.py:434-465 | a new file object with the attributes stored, its tree walked if it is a pack file, or the error of a missing key or malformed number |
| PacConfig.PacConfig.constructor | tools/pacgen.py:401-405 | two defaults and two empty lists |
| PacConfig.PacConfig.AddNvitem | tools/pacgen.py:538-543 | the item is appended and NV backup switched on, nothing else changes |
| PacConfig.PacConfig.StoreToJson | tools/pacgen.py:467-533 | the stored object has every plain attribute, every NV item and every file but the XML entries under their keys; an AttributeError if and only if a file has no kind |
| PacConfig.PacConfig.LoadFromJson | tools/pacgen.py:407-465 | what is stored is appended to the lists as new objects, what was there stays in front, or the error of the first missing key or malformed number is raised |
| PacConfig.StoreThenLoad | tools/pacgen.py:407-536 | what store_to_json writes gives a fresh object the same attributes, NV items and files without XML entries if and only if the unstored attributes of each file have the values of its kind |
| PacConfig.PacConfig.Step | tools/pacgen.py:729-735 | the size in the header is that of the data taken later, even if the disk changes in between |
| PacConfig.PacConfig.Collect | tools/pacgen.py:721-735 | all headers with their moving offsets, all contents in order, and the size of the package, or the first error; contents are cached up to where it stops |
| PacConfig.FeedAll | tools/pacgen.py:763-767 | the accumulated CRC is that of all chunks together |
| PacConfig.AppendAll | tools/pacgen.py:791-794 | the writes append the chunks in order |
| PacConfig.PacConfig.WriteImage | tools/pacgen.py:742-794 | the bytes written are the main header with both CRCs, the headers and the contents |
| PacConfig.PacConfig.AppendXml | tools/pacgen.py:714-719 | one new XML entry at the end, its content present, the other files untouched |
| PacConfig.PacConfig.PacGen | tools/pacgen.py:711-794 | the bytes written are the image of the files as they are when their headers are made, with the XML last; a reader gets every attribute and every content of the objects back from them if and only if the texts fit; contents are cached up to where it stops, all of them on success |
| PacConfig.SomethingMet | tools/pacgen.py:729-731 | for all files and disks there is what `pac_gen` meets: stating it excludes no case |
| PacConfig.PackageCarries | tools/pacgen.py:352-394 | reading a written package gives, if and only if all texts fit: the twelve parameters, each its own attribute; per file its id, name, flag, check, omit flag and address, and its cached content, else the bytes at its path, nothing, or its archive, by its kind; last the XML |
| PacConfig.PackageMade | tools/pacgen.py:711-794 | a package is written if and only if each file has cached content or can be read, all numbers of the objects fit 32 bits and the whole is below 2^32 bytes |
| PacConfig.PackageError | tools/pacgen.py:352-394 | otherwise the first file that cannot be read gives the error its kind raises, unless a number that does not fit gives a struct.error before |
| Package.FileShipped | tools/pacgen.py:711-794 | the package reader finds any one file of a written package, content below 4 GiB |
| PacReader.ReadWithin | tools/pacgen.py:711-794 | all that is read lies inside the file, which is below 4 GiB |
| Package.TreeShipped | tools/pacgen.py:142-228 | an archive below 4 GiB, its names fitting, reads back as the nodes of the tree that was walked: every path, status and content |
| Package.PackFileShipped | tools/pacgen.py:321-794 | from a package that carries the objects, a loaded pack file whose tree has not changed comes back through both readers as the nodes of its tree, in path order: every path and status, every regular file with exactly its content |
| SplitCmd.SplitCmd | tools/pacgen.py:1205-1215 | the lists concatenate to argv, none is empty, none has a command after its first element, only the first may lack a command |
| SplitCmd.SplitIsUnique | tools/pacgen.py:1205-1215 | there is only one such decomposition |
| SplitCmd.SplitCount | tools/pacgen.py:1205-1217 | one list for each command in argv and one for anything before the first |
| Debounce.Detector.constructor | examples/mg_gpio.c:133-138 | the record as set up before the first event |
| Debounce.Detector.PressSwitch | examples/mg_gpio.c:45-57 | the edge that leaves the given level is enabled, the other disabled; nothing without a pin |
| Debounce.Detector.GpioCb | examples/mg_gpio.c:67-90 | nothing happens at the recorded level; otherwise the level is recorded and counted, and the first change of a window sets flag 1 or 2 and starts the timer at 100; the record stays what the history says |
| Debounce.Detector.DebounceCb | examples/mg_gpio.c:59-65 | after an expiry lock_state is 0, the timer is no longer pending, level and flag are kept, the edge leaving the level is enabled; the record is still what the history says |
| Debounce.AfterPin | examples/mg_gpio.c:67-90 | what one interrupt does to level, window changes, windows opened and edges as the history defines them |
| Debounce.AfterExpiry | examples/mg_gpio.c:59-65 | what an expiry does to them |
| Debounce.WindowParity | examples/mg_gpio.c:75-76 | in every run pressed differs from its value before the window if and only if lock_state is odd |
| Debounce.ArmedOncePerWindow | examples/mg_gpio.c:80-89 | in every run the timer has been started once for each window with a change |
| Debounce.FlagIsDirection | examples/mg_gpio.c:80-89 | in every run flag names the direction of the window's first change |
| Debounce.ReportIsCurrent | examples/mg_gpio.c:59-65 | the state reported at an expiry is the recorded level if and only if lock_state is odd |
| Debounce.EdgeOutsideWindow | examples/mg_gpio.c:26-57 | outside a window exactly the edge leaving the recorded level is enabled if and only if the pin was low at first or a window has closed |
| Debounce.EdgesFrozen | examples/mg_gpio.c:67-90 | no run of interrupts changes the edges |
| Debounce.StartedHighIsDeaf | examples/mg_gpio.c:26-90 | started high, with interrupts only from enabled edges, no change is ever seen |
| Debounce.StartedLowAlternates | examples/mg_gpio.c:26-90 | started low, with interrupts only from enabled edges, lock_state is at most 1 and presses and releases alternate |
| DeviceInfo.StrStr | examples/mg_cc_example.c:116-118 | the first occurrence at or after the start, or none anywhere |
| DeviceInfo.MqttInfo.Parse | examples/mg_cc_example.c:109-196 | the parser fills each of its six fields with the specified value, and is defined exactly where the specification has one |
| DeviceInfo.MqttInfo.Copy | examples/mg_cc_example.c:143-155 | one repeated block: search key, skip, search delimiter, copy |
| DeviceInfo.FieldExact | examples/mg_cc_example.c:143-194 | an entry found at its own key gives its value if and only if the value holds no delimiter and is below 128 bytes |
| DeviceInfo.DomainExact | examples/mg_cc_example.c:116-137 | host and port text are read if and only if the host has no colon and fits, and the port text no comma and below 8 characters |
| DeviceInfo.PortRead | examples/mg_cc_example.c:134-137 | a decimal port below 65536 fits the buffer and is read back by atoi and the 16-bit field |
| DeviceInfo.AtoiTakes | examples/mg_cc_example.c:137 | atoi skips white space, takes one sign and stops at the first character that is no digit |
| DeviceInfo.DigitsFromStep | examples/mg_cc_example.c:137 | a digit of the table counts tens, anything else ends the number |
| DeviceInfo.RecordIs | examples/mg_cc_example.c:109-196 | the record the parser is made for, written out |
| DeviceInfo.RecordExact | examples/mg_cc_example.c:109-196 | a record of the sample shape, no key text before its own key, gives all six values if and only if no value holds its delimiter, all fit and the port is below 65536 |
| Capture.Recorder.constructor | examples/mg_aurecord_example.c:72-74 | an empty recording in a zeroed buffer |
| Capture.Recorder.CaptureCallback | examples/mg_aurecord_example.c:32-49 | a frame is appended while fewer than 512000 bytes are recorded, the first later call stops the recording once and then nothing changes; defined exactly while in bounds; the buffer holds the accepted frames in order and zeros behind them |
| Capture.Recorder.CopyIn | examples/mg_aurecord_example.c:46 | the data behind what is recorded, everything else untouched |
| Capture.StoppedForGood | examples/mg_aurecord_example.c:34-45 | once a call has found the buffer full, no later call is copied |
| Capture.AcceptedFrames | examples/mg_aurecord_example.c:32-49 | of frames of one size exactly those needed to fill the buffer are kept |
| Capture.SafeSizes | examples/mg_aurecord_example.c:39-47 | frames of one size never overrun the buffer, in every run, if and only if the size divides 512000 (or is 0) |
| Capture.FullRun | examples/mg_aurecord_example.c:23-49 | with 320-byte frames the count is always a multiple of 320 and at most 512000, and the first 1600 frames are kept |
| BtConvert.ConvertStrToWstr | examples/mg_bt_example.c:111-120 | the string and its NUL are widened into the target, the rest of the target stays, null pointers do nothing |
| BtConvert.ConvertWstrToStr | examples/mg_bt_example.c:101-110 | the units up to the first with a high byte, or through the NUL, are narrowed into the target, the rest stays |
| BtConvert.NarrowableAt | examples/mg_bt_example.c:108 | the loop stops in front of the first unit with a high byte, or behind the NUL |
| BtConvert.NarrowOfWide | examples/mg_bt_example.c:101-120 | narrowing what widening wrote gives the string with its NUL, for every string |
| BtConvert.NarrowWhole | examples/mg_bt_example.c:108 | a wide string comes out whole and terminated if and only if every unit before its NUL is below 256 |
| BtAddress.AddrStringsToU8Int | examples/mg_bt_example.c:154-190 | 0 and the paired digits, or -1 and no change; so for every text with a character that is no digit in front of its NUL, and an address of digits in either case gives its six bytes; defined exactly while both buffers suffice, one buffer for both and negative lengths included |
| BtAddress.HexValueIff | examples/mg_bt_example.c:172-182 | the digits of value v are the two characters for it in the small and the capital table, and nothing else |
| BtAddress.OtherIff | examples/mg_bt_example.c:158-182 | the text is accepted if and only if no character in front of the first NUL is neither a colon nor a digit |
| BtAddress.DigitsFront | examples/mg_bt_example.c:158-170 | colons are skipped, and the first NUL ends the digits |
| BtAddress.AddressRead | examples/mg_bt_example.c:154-190 | two digits a byte in small, capital or mixed letters with colons between are read as the bytes, the NUL counted in or not |
| BtAddress.PairsAt | examples/mg_bt_example.c:184-187 | which two digits make byte j, an odd last one paired with zero |
| BtAddress.Squeeze | examples/mg_bt_example.c:158-170 | the characters that are no colon, up to the first NUL, if they fit |
| BtAddress.ToValues | examples/mg_bt_example.c:172-182 | the digits become their values in place, or the failure if one is none |
| BtAddress.Join | examples/mg_bt_example.c:184-187 | two values make a byte, an odd last one with the zero behind it |
| BtAddress.AddrU8IntToStrings | examples/mg_bt_example.c:191-195 | the seventeen characters, small digits and colons, each at its place, and a NUL; the rest of the target stays |
| BtAddress.PrintedAt | examples/mg_bt_example.c:191-195 | which character stands at each place of a printed address |
| BtAddress.PrintedReadBack | examples/mg_bt_example.c:154-195 | reading a printed address with its NUL succeeds and gives the six bytes |
| LcdFill.FillVertical | examples/mg_lcd.c:26-40 | every cell of width by height f800, 07e0 or 001f by its column, each written once in row order, nothing else touched |
| LcdFill.FillHorizontal | examples/mg_lcd.c:42-56 | the same by its row |
| LcdFill.FilledDetermines | examples/mg_lcd.c:26-56 | what the fills state determines the whole buffer |
| LcdFill.FillsAreTransposed | examples/mg_lcd.c:26-56 | a buffer is the horizontal fill with the dimensions swapped if and only if it is the transpose of the vertical fill |

## Left out

- `argparse` set-up, the `cfg_*` wrappers, `dep_gen`, `write_file_if_change` and the loop that runs the sub-commands: plumbing around what is modelled.
- The `add_*` methods of `PacConfig` other than `add_nvitem`: each creates a file object, calls one setter and appends.
- The XML that `_create_xml` makes is any byte string given to `pac_gen`; its one failure, a file entry whose kind is unknown, is modelled.
- Files, `os.stat` and time: the disk is a function from paths to finite trees, one for each moment at which it is read. A path whose file cannot be opened, or a plain file that is a directory, gives an `OSError`; the directory entries `.` and `..`, links that make a cycle and two entries of one name do not occur. Looking up a listed name finds the listed node.
- Writing the package file and the JSON file: the bytes and the JSON value are the results of the methods.
- The text of the JSON file: values are strings, integers, lists and objects. `int(x, 16)` is modelled without surrounding blanks and underscores.
- PacConfig.LoadOne: a plain attribute of another kind than expected is a `TypeError`; the source stores any value unchanged and fails later, if at all.
- Strings with lone surrogates, whose encoding fails.
- A big-endian host: `struct` in native mode and `cpio` numbers are little-endian here, as the magic number of the archive says.
- PacConfig.PacConfig.PacGen: an attribute missing because a configuration was never loaded is not a case of its own.
- PacConfig.PacConfig.LoadFromJson: values of another kind as for `PacConfig.LoadOne`; when it fails, how much has been loaded before the failure is not stated.
- PacConfig.PacFileConfig.SetPlainFile: the plain attributes of a file are one record in one field, an attribute that was never assigned being blank there instead of missing.
- PacErrors.BurstInFileDetected: says nothing of a burst that starts in the CRC field at the end of the main header and ends in the body: no single CRC covers it, `PacErrors.UnseenIffVerifies` says exactly which of them go unseen and `PacErrors.StraddlingBurstUnseen` gives some.
- CpioConfig.TreeRecovered: needs a remote path without three slashes in a row, because of what `Disk.SuffixesKeptIff` states, and names and sizes that fit, because of what `Cpio.ArchiveRoundTrip` states.
- Debounce.Detector.GpioCb: callbacks are atomic; `lock_state` is unbounded, but by `Debounce.StartedLowAlternates` an interrupt that comes from an enabled edge never takes it past 1.
- An interrupt that arrives before the set-up has stored the opened pin and its first level; the pin driver and the trace output. What the driver answers to a new setting is an input.
- DeviceInfo.MqttInfo.Parse: when it is not defined, the fields already filled are not stated. The record is a C string without its NUL; allocation succeeds; the delays and trace output are left out, but the size of the trace buffers is not.
- DeviceInfo.RecordExact: requires that no key text occurs before its own key, since the search takes the first occurrence.
- A failing `malloc` of the recording buffer, the player that follows, and the audio driver.
- BtConvert.ConvertWstrToStr: strings without an end and targets that are too small are excluded, as the C functions run over the end there.
- LcdFill.FillVertical: the index `h * width + w` does not wrap, as it stays inside the buffer.
- The rest of the examples, `user/`, `littlevgl/` and the headers of the closed library: calls into code that is not there.
