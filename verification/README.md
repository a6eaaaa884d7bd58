# A model of unegg in Dafny

unegg extracts EGG archives. This project models its hand-written parts and proves what they promise: the solid-stream
splitter, the multi-volume reader, the archive parser, the ciphers with their block loops, and the calendar arithmetic of
the listing. Code that works by changing things in place is modelled by classes and by methods with loops; each is proved
against functions on values, and the properties are proved about those functions.

## How it is laid out

| files | what they hold |
|---|---|
| `Bytes`, `Words`, `Errors` | bytes and numbers, 32-bit words, results and errors |
| `Calendar` | day numbers, dates, FILETIME, and the next-day calendar they are measured against |
| `Crc32`, `ZipCrypto`, `Lea`, `Ctr`, `Decryptors` | checksum and ciphers, their objects, and set-up from entry and password |
| `VolumeReader`, `VolumeChain` | reading several files as one; finding and linking the volumes |
| `ArchiveFormat`, `ArchiveReader` | the record grammar on values; the parser over the reader |
| `ArchiveWriter`, `RoundTrip`, `SplitArchive` | archives as values, their bytes, their meaning; the parser inverts the writer, also across volumes |
| `Acceptance`, `Layout` | what the parser accepts is what the writer writes; signatures and records in literal bytes |
| `Names` | what name normalisation does, and names through the round trip |
| `Inflation` | the inflating loop on values, and the run of the inflater it stands for |
| `KnownAnswers`, `LeaVectors`, `Encryption` | known answers of checksum and ciphers; encrypted files as a producer makes them |
| `Disk`, `Drivers` | output with operations that may fail; store, deflate, LZMA and the bounded writer |
| `Paths` | names and the paths they are joined to |
| `EntrySpec`, `EntryExtractor`, `Methods` | one entry, block by block, and what its content is for each compression method |
| `SolidPlan`, `SolidSink`, `SolidTiling`, `SolidSpec`, `SolidExtractor` | one decompressed stream tiled by files and by CRC spans |
| `SolidMeaning`, `SolidEquivalence` | what a solid run yields for each compression method; both extraction paths compared |
| `Selection`, `Extraction`, `EndToEnd` | names that select entries, the entry points, and the way from volumes to files |

Foreign code is a parameter: AES as a function on 16-byte blocks for each key, PBKDF2 and HMAC-SHA1 as functions, the
inflater as an object whose answer to a call depends on its past calls, that stays within its buffers and always consumes,
produces or ends when it has input (`Inflation.Inflater`), LZMA, bzip2 and AZO decoders as functions from a block to a list
of writes and a verdict, and the decoding of file names. A file is its bytes and a position, and reads may be short. Every
disk operation may fail at any time. A failed creation or write is recorded as a fault, and "disk faults apart" below means
that there was none; a failed removal, which the program ignores, is recorded apart.

The main results are `SolidSink.Write` and `Finish` with `SolidMeaning.CompleteIff`, `SolidExtractor.ExtractAllSolid` with
`SolidMeaning.SolidDeflated` and its siblings, `SolidEquivalence.SolidIsPerEntry`, `VolumeReader.MultiVolumeReader.Read` and
`Seek`, `RoundTrip.OpenOfSerialized` with its converse `Acceptance.AcceptedIff`, `SplitArchive.OpenSplit`,
`VolumeChain.ChainOpensIff`, `EntryExtractor.ExtractBlocks` with `Methods.DeflateContent` and its siblings,
`Encryption.EncryptedReadsBack`, `Selection.ExtractNamed`, `EndToEnd.ExtractSplit` with `RunIsContained`,
`Drivers.ExtractDeflate` with `Inflation.OutcomeIsLoop`, `ZipCrypto.PasswordRoundTrip`, `Lea.EncryptionIsPermutation` with
`LeaVectors`, the two counter-mode `Decrypt` methods, and `Calendar.DaysToYmdIsCalendar`.

Functions that a method and its specification share are pinned down from outside: by the bytes a writer gives
(`ArchiveWriter`, `Layout`), by what a producer of encrypted files does (`Encryption`), by known answers, or by statements
that do not use them (`Methods`, `SolidMeaning`, `Selection`, `Paths`).

## Where the code and its documentation differ

The model follows the code.

- src/crypto.rs:3-4 and src/crypto.rs:56 announce a keystream different from PKZIP's. It is the same for every key:
  `ZipCrypto.KeystreamIsAppnote`.
- A zero-length CRC span is closed in passing (src/extract.rs:634) unless it is the last one, which is never closed and
  makes `finish` refuse a stream whose every byte is right: `SolidTiling.TrailingEmptySpanExample`. `SolidPlan.Complete`
  is the exact condition.
- `read_split_info` takes the first split record of a prefix section and `open` the last one (src/volume.rs:228-235,
  src/archive.rs:201-208). They find the same IDs if and only if these two records carry the same ones:
  `VolumeChain.SplitScanAgrees`; `SplitArchive.TwoSplitRecordsDisagree` is an archive on which they do not.
- After a split record that declares fewer than 8 bytes the continuation scan and `open` may go on at different offsets:
  `SplitArchive.ShortSplitRecordExample`. `VolumeChain.LastSplitRecord` is the exact condition for the last record.
- The per-entry path does not compare an entry's content with its declared size, and accepts a stored block shorter than
  its declared size (src/extract.rs:217-235); the solid path refuses both. `EntrySpec.DeclaredSizeIsNotChecked` says when
  the sizes agree, and `SolidEquivalence.SolidChecksSizes` shows both paths on one file.
- In pipe mode a solid archive without any block is accepted whatever sizes it declares (src/extract.rs:450-455):
  `SolidEquivalence.PipeModeIgnoresSizes`. `SolidExtractor.OnlyPipeModeIgnoresSizes` says exactly when that happens.
- `normalize_path` is not idempotent (src/encoding.rs:24-30): it drops control characters after leading slashes.
  `Names.NormalizeTwice` is the exact condition, `Names.NormalizeTwiceDiffers` a name on which it fails.

## Model

| member | source | states |
|---|---|---|
| `Calendar.DaysToYmdIsCalendar` | src/main.rs:309-321 | the closed formula gives, for every day number n, the date reached from 1970-01-01 by n steps of a next-day rule that knows only month lengths and the Gregorian leap rule |
| `Calendar.DaysToYmdStep` | src/main.rs:309-321 | every result is a valid calendar date, and adding one day to the argument moves the result to the next calendar day |
| `Calendar.YearOfEraCorrect` | src/main.rs:313-315 | the year formula always picks the year of the 400-year era whose days contain the given day |
| `Calendar.DayNumberOfYmd` | src/main.rs:309-321 | counting years, months and days of the resulting date gives the argument back |
| `Calendar.YmdOfDayNumber` | src/main.rs:309-321 | every valid date from 1970 on is the result for its own day number, so formula and day count are inverse to each other |
| `Calendar.FiletimeRoundTrip` | src/archive.rs:38-42 | converting Unix seconds to FILETIME and back is the identity exactly for the seconds up to 1833029933770; from there on both saturating steps lose the value |
| `Calendar.StampReadsBack` | src/main.rs:298-306 | the printed stamp determines date, hours, minutes and seconds: reading the columns back gives them |
| `Calendar.ShownDateIsTheDate` | src/main.rs:288-307 | for every Unix second that does not saturate, the listing shows the calendar date of its day and the time of day of its seconds |
| `Crc32.TableStepIsEightShifts` | src/crypto.rs:44-46 | one table look-up equals eight steps of the bitwise shift register, for every register value and byte |
| `Crc32.BuildEntry` | src/crypto.rs:9-19 | the inner loop computes the register after eight steps from the byte |
| `Crc32.BuildTable` | src/crypto.rs:5-23 | the nested loops fill all 256 entries with what eight register steps make of the index byte |
| `Crc32.CrcByteBijective` | src/crypto.rs:44-46 | for a fixed byte the step is a bijection of all register values, with an explicit inverse |
| `Crc32.UpdateAppend` | src/decompress/store.rs:14-27 | hashing in pieces is hashing the concatenation |
| `KnownAnswers.CheckValue` | src/crypto.rs:5-46 | the checksum of the nine digits "123456789" is 0xCBF43926, the published check value, which fixes polynomial, start value and final inversion |
| `ZipCrypto.KeystreamIsAppnote` | src/crypto.rs:55-59 | the keystream byte from the full 32-bit product equals the one from the 16-bit truncated key of PKWARE APPNOTE section 6.1.6, for every key |
| `ZipCrypto.DecryptsAsAppnote` | src/crypto.rs:88-94 | so decryption equals decryption with the APPNOTE keystream, for all keys and data |
| `ZipCrypto.DecryptAppend` | src/crypto.rs:88-94 | decrypting a concatenation is decrypting its parts with the keys carried over |
| `ZipCrypto.ChunkingIsInvisible` | src/crypto.rs:88-94 | decryption in any sequence of calls equals decryption in one |
| `ZipCrypto.DecryptOfEncrypt` | src/crypto.rs:76-94 | decryption undoes encryption from equal keys |
| `ZipCrypto.KeysInStep` | src/crypto.rs:76-94 | after every byte the decryptor holds the keys the encryptor held |
| `ZipCrypto.PasswordRoundTrip` | src/crypto.rs:34-94 | for every password, 11 filler bytes, CRC and content: the encrypted header is accepted and leaves the keys from which the encrypted content, in any chunks, decrypts to the content |
| `ZipCrypto.CongruentialBijective` | src/crypto.rs:51 | multiplication by 134775813 plus one is a bijection modulo 2^32 |
| `ZipCrypto.UpdateKeysBijective` | src/crypto.rs:48-53 | for a fixed byte the key update is a bijection of all 2^96 key states, with an explicit inverse |
| `ZipCrypto.Cipher.constructor` | src/crypto.rs:34-42 | a new cipher holds the initial keys after absorbing the password byte by byte |
| `ZipCrypto.Cipher.Update` | src/crypto.rs:48-53 | the in-place update of three key words gives the updated key state |
| `ZipCrypto.Cipher.CheckPassword` | src/crypto.rs:64-72 | the answer compares the last decrypted header byte with the CRC's top byte, and the keys are those after the decrypted header |
| `ZipCrypto.Cipher.Encrypt` | src/crypto.rs:76-82 | in place: data becomes its encryption and the keys have absorbed the plaintext |
| `ZipCrypto.Cipher.Decrypt` | src/crypto.rs:88-94 | in place: data becomes its decryption and the keys have absorbed the plaintext |
| `KnownAnswers.ZipValue` | src/crypto.rs:34-82 | a known answer for the traditional cipher: the three key words after the password "egg", and the two bytes encrypted under them, which fixes the start keys and the multiplier |
| `Words.RolPeriod` | src/lea.rs:15-17 | 32 more positions make no difference to a rotation |
| `Words.RotateBack` | src/lea.rs:15-21 | left and right rotation by any count undo each other |
| `Lea.RoundsInvertible` | src/lea.rs:117-123 | any list of rounds is undone by the reversed list of inverse rounds, both ways round |
| `Lea.EncryptionIsPermutation` | src/lea.rs:111-128 | for round keys of any number, block encryption with its byte and word conversions is a permutation of the 16-byte blocks with an explicit inverse |
| `Lea.MixTurnsModulo32` | src/lea.rs:80-96 | a schedule step whose constant is turned 32 positions or more equals the step with the count taken modulo 32 |
| `Lea.RewoundScheduled` | src/lea.rs:38-46 | the in-place schedule state can be run backwards to the key words from any round |
| `Lea.AnyRoundKeyRecovers128` | src/lea.rs:31-48 | any single round key of LEA-128 determines the master key |
| `Lea.AnyRoundKeyRecovers192` | src/lea.rs:51-70 | any single round key of LEA-192 determines the master key |
| `Lea.SlotsDistinct` | src/lea.rs:81-96 | the six words a LEA-256 round updates are pairwise different |
| `Lea.MixSlotsParallel` | src/lea.rs:81-96 | the in-place walk of a LEA-256 round equals a simultaneous update from the words before the round |
| `Lea.TwoRoundKeysRecover256` | src/lea.rs:72-108 | the first two round keys of LEA-256 determine the master key |
| `Lea.LoadWords` | src/lea.rs:32-35 | the array holds the little-endian words of the byte string |
| `Lea.MixInPlace` | src/lea.rs:38-45 | one round of the in-place schedule equals the simultaneous update of all words |
| `Lea.LeaCipher.New128` | src/lea.rs:31-48 | the constructed cipher holds the 24 round keys of the schedule; with `LeaVectors.Vector128` these are the round keys of KS X 3246 |
| `Lea.LeaCipher.New192` | src/lea.rs:51-70 | the constructed cipher holds the 28 round keys of the schedule; with `LeaVectors.Vector192` these are the round keys of KS X 3246 |
| `Lea.LeaCipher.New256` | src/lea.rs:72-108 | the constructed cipher holds the 32 round keys of the index walk; with `LeaVectors.Vector256` these are the round keys of KS X 3246 |
| `Lea.LeaCipher.Encrypt` | src/lea.rs:111-128 | in place: the block becomes its image under the permutation of the round keys |
| `LeaVectors.Vector128` | src/lea.rs:225-245 | the known answer of KS X 3246 for LEA-128, in literal bytes: key, block and ciphertext, through all 24 rounds |
| `LeaVectors.Vector192` | src/lea.rs:247-267 | the known answer of KS X 3246 for LEA-192, through all 28 rounds |
| `LeaVectors.Vector256` | src/lea.rs:269-289 | the known answer of KS X 3246 for LEA-256, through all 32 rounds |
| `Ctr.IncLeAddsOne` | src/aes_ctr.rs:25-32 | the little-endian carry loop adds one modulo 256 to the length |
| `Ctr.IncBeAddsOne` | src/lea.rs:132-139 | the big-endian carry loop adds one modulo 256 to the length |
| `Ctr.IncrementLe` | src/aes_ctr.rs:25-32 | the loop over the counter array, with its early exit, is the little-endian increment |
| `Ctr.IncrementBe` | src/lea.rs:132-139 | the loop over the counter array, with its early exit, is the big-endian increment |
| `Ctr.CryptedAppend` | src/aes_ctr.rs:104-113 | a call on a concatenation equals two calls, the second one further along the keystream |
| `Ctr.ChunkingIsInvisible` | src/aes_ctr.rs:104-113 | any sequence of calls equals one call on the concatenation |
| `Ctr.CryptedTwice` | src/aes_ctr.rs:104-113 | a fresh decryptor applied to its own output gives the data back (NIST SP 800-38A section 6.5) |
| `Ctr.CountersDistinct` | src/aes_ctr.rs:91-101 | counter blocks of different indices less than 2^128 apart differ |
| `Ctr.AesCtrDecryptor.constructor` | src/aes_ctr.rs:73-82 | a new AES decryptor stands at position 0 of the keystream whose little-endian counter starts at 1 |
| `Ctr.AesCtrDecryptor.NextKeystreamBlock` | src/aes_ctr.rs:91-101 | the buffer holds the cipher's image of the counter block for the position, the counter the next one |
| `Ctr.AesCtrDecryptor.Decrypt` | src/aes_ctr.rs:104-113 | byte p of the stream is XORed with byte p mod 16 of the cipher's image of counter 1 + p/16, and the position moves by the length |
| `Ctr.LeaCtrDecryptor.constructor` | src/lea.rs:182-190 | a new LEA decryptor stands at position 0 of the keystream whose big-endian counter starts at 0 |
| `Ctr.LeaCtrDecryptor.NextKeystreamBlock` | src/lea.rs:200-205 | the buffer holds the LEA image of the counter block for the position, the counter the next one |
| `Ctr.LeaCtrDecryptor.Decrypt` | src/lea.rs:208-218 | byte p of the stream is XORed with byte p mod 16 of the LEA image of counter p/16, and the position moves by the length |
| `VolumeReader.FlatLength` | src/volume.rs:96 | segments that follow one another present as many bytes as the last one's logical end |
| `VolumeReader.SegmentInFlat` | src/volume.rs:83-93 | each segment's data stands in the flat sequence at its logical start |
| `VolumeReader.ReadInSegment` | src/volume.rs:131-136 | bytes taken from a segment's file at the offset the position demands are the flat bytes at the position, without gap or overlap |
| `VolumeReader.MultiVolumeReader.constructor` | src/volume.rs:98-103 | a reader over tiled segments starts at position 0 of their flat sequence |
| `VolumeReader.MultiVolumeReader.Read` | src/volume.rs:112-140 | a read returns flat bytes from the position and moves it; it returns none exactly at the end or for an empty buffer, whatever empty segments lie in between |
| `VolumeReader.MultiVolumeReader.ReadHere` | src/volume.rs:131-138 | within a segment the read is bounded by the segment and gives flat bytes even when the file reads short |
| `VolumeReader.MultiVolumeReader.Seek` | src/volume.rs:144-173 | the position becomes the target, the segment chosen is the first that ends after it, its file offset matches, and a negative target changes nothing |
| `VolumeReader.SeekHere` | src/volume.rs:145-149 | seeking by zero, or to the present position, asks for the position the reader has |
| `VolumeReader.MultiVolumeReader.ReadExact` | src/extract.rs:43 | fills the range exactly when the archive is long enough, over any number of short reads and segments |
| `VolumeReader.MultiVolumeReader.ReadUpTo` | src/archive.rs:532-539 | gives the next n bytes or all there are |
| `VolumeChain.FindVolume` | src/volume.rs:189-207 | the volume found has the wanted ID, and none is found only if no file has it |
| `VolumeChain.ChainIsSimple` | src/volume.rs:65-94 | a chain that opens has at most 10000 volumes with the first, pairwise distinct non-zero IDs not met before, each volume pointing to the next and the last to none |
| `VolumeChain.RevisitIsCorrupted` | src/volume.rs:65-71 | a walk that comes back to any ID it passed, or to the first volume, ends in CorruptedFile |
| `VolumeChain.ChainOpensIff` | src/volume.rs:65-94 | a chain opens if and only if some walk from volume to volume reaches an end, meets no ID twice and stays within 10000 volumes |
| `VolumeChain.MissingVolume` | src/volume.rs:189-207 | a walk that arrives at a new ID which no file of the listing has fails with CantOpenFile |
| `VolumeChain.SkipScanAgrees` | src/volume.rs:241-263 | on a prefix section the parser accepts, with split records declaring at least 8 bytes, the continuation scan ends where the parser does |
| `VolumeChain.PrefixKeepsLast` | src/archive.rs:198-225 | on such a section the parser keeps the IDs of the last split record |
| `VolumeChain.ScanTakesFirst` | src/volume.rs:210-237 | and the split scan takes those of the first |
| `VolumeChain.SplitScanAgrees` | src/volume.rs:210-237 | on such a section the split scan finds the IDs the parser finds if and only if there is no split record or the first and the last one carry the same IDs |
| `VolumeChain.ShortSplitRecordDisagrees` | src/volume.rs:252-260 | a family of prefix sections with a split record declaring no bytes on which the parser and the continuation scan end at different offsets |
| `VolumeChain.LastSplitRecord` | src/volume.rs:241-263 | if the last record is a split record, the continuation scan ends where the parser does if and only if it declares at least 8 bytes or the rest of its two IDs reads as a record that ends with them; with 2 to 7 declared bytes they never agree |
| `VolumeChain.ReadSplitInfo` | src/volume.rs:210-237 | the loop over the file finds the first split record before the end marker, or the same error |
| `VolumeChain.SkipContinuationHeader` | src/volume.rs:241-263 | the loop over the file finds where the data continues, and the file stands there |
| `VolumeChain.ReadHeaderId` | src/volume.rs:177-186 | the ID at offset 6 of a file of at least 10 bytes with the EGG signature, and none otherwise |
| `VolumeChain.LookUp` | src/volume.rs:189-207 | the directory loop finds the first file with the ID |
| `VolumeChain.OpenVolume` | src/volume.rs:72-86 | one turn of the chain gives a fresh file, its data start within the file and the next ID, or the first error |
| `VolumeChain.TryOpen` | src/volume.rs:30-104 | no reader for an unsplit archive, the chain's error, or a reader at position 0 whose segments tile the first volume followed by every continuation's data, at most 10000 of them |
| `SplitArchive.WrittenVolume` | src/volume.rs:177-263 | a written continuation volume is found under its ID, yields its first split record, and contributes exactly its piece |
| `SplitArchive.ChainOfWritten` | src/volume.rs:65-94 | a directory holding linked volumes with distinct IDs gives the chain of exactly these volumes, their pieces in order |
| `SplitArchive.CutPresentsWhole` | src/volume.rs:30-104 | any byte stream, well-formed or not, cut at arbitrary points into linked volumes with distinct IDs is presented as the uncut stream, and as nothing else |
| `SplitArchive.FirstVolume` | src/volume.rs:177-237 | a well-formed archive cut anywhere behind its prefix section shows its ID and its first split record in the first volume |
| `SplitArchive.TwoSplitRecordsDisagree` | src/volume.rs:228-235 | an archive with two split records on which the split scan and the parser find different IDs |
| `SplitArchive.ShortSplitRecordExample` | src/volume.rs:252-260 | a volume file of 33 bytes whose data starts at offset 25 for the continuation scan and at offset 33 for the parser |
| `SplitArchive.OpenVolumes` | src/main.rs:165-180 | opening by first volume equals parsing the one byte sequence the volumes present |
| `SplitArchive.OpenSplit` | src/archive.rs:181-276 | opening any byte stream cut into volumes gives what opening the uncut stream gives, errors included |
| `SplitArchive.OpenSplitArchive` | src/archive.rs:181-276 | a well-formed archive cut into volumes opens to its meaning, with every block's data at its data position of the reader |
| `SplitArchive.ReadBlockData` | src/extract.rs:219-220 | reading the compressed size at a data position gives that block's bytes, also across volumes |
| `ArchiveFormat.ParsePrefix` | src/archive.rs:198-225 | an accepted prefix section ends strictly after its start and inside the input, which also makes the loop terminate on every input |
| `ArchiveFormat.ParseSubs` | src/archive.rs:293-386 | accepted sub-headers end strictly after their start and inside the input, despite the trial seeks |
| `ArchiveFormat.ParseBlocks` | src/archive.rs:390-404 | accepted blocks end inside the input with the ending signature not consumed; every turn that continues has moved on |
| `ArchiveFormat.ParseFileEntry` | src/archive.rs:279-416 | an accepted entry moves strictly forward and ends inside the input |
| `RoundTrip.PayloadLandsIfAnyDoes` | src/archive.rs:486-511 | if some candidate payload length is followed by an end marker, the length chosen is such a candidate; for a declared size that is no candidate the longest wins whenever it qualifies |
| `RoundTrip.EncryptAt` | src/archive.rs:366-382 | a written encryption record with exact or overstated size is read back with its payload; a payload under a size that makes the reader try the longer length first, if no end marker stands at the longer length |
| `RoundTrip.SubsAt` | src/archive.rs:293-386 | written sub-headers in any order are read back to their combined meaning |
| `RoundTrip.BlocksAt` | src/archive.rs:390-404 | written blocks are read back, each data position holding its block's data, with the compression method its record names (a writer puts 0 for store, 1 deflate, 2 bzip2, 3 AZO, 4 LZMA) |
| `RoundTrip.FileAt` | src/archive.rs:279-416 | a written file entry is read back with its blocks' data in place |
| `RoundTrip.BodyAt` | src/archive.rs:228-264 | written entries with comments, dummies and volume boundaries between them are read back in order, the final end marker recognised by what follows |
| `RoundTrip.OpenOfSerialized` | src/archive.rs:181-276 | opening the bytes of any well-formed archive value gives exactly its meaning, and every data position holds its block's data; methods and ciphers are those the records name |
| `RoundTrip.MethodRead` | src/archive.rs:55-64 | the byte a writer puts for each compression method, 0 to 4 and any other for an unknown one, is read as that method |
| `RoundTrip.CipherRead` | src/archive.rs:95-104 | the byte a writer puts for each cipher, 0, 1, 2, 5 and 6, is read as that cipher |
| `Acceptance.AcceptedIff` | src/archive.rs:181-276 | a byte string opens without encryption if and only if it is the serialization of some well-formed unencrypted archive value, and what opens is the meaning of every value it serializes: nothing malformed is let through |
| `Acceptance.AcceptedIsSerialized` | src/archive.rs:181-276 | the archive value behind accepted bytes: its serialization gives these bytes back, trailing bytes included |
| `Acceptance.BodyWritten` | src/archive.rs:228-264 | an accepted body consists of well-formed records with no two volume boundaries in a row, and ends where no record follows |
| `Acceptance.SubsWritten` | src/archive.rs:293-386 | accepted sub-headers without encryption are well-formed name, comment, Windows and POSIX records up to an end marker |
| `Acceptance.PrefixWritten` | src/archive.rs:198-225 | an accepted prefix section is a list of split, solid and skipped records up to an end marker |
| `Layout.FirstSignatures` | src/archive.rs:7-13 | the signatures of header, split, solid, file, name, comment and Windows records as the bytes that stand in a file |
| `Layout.OtherSignatures` | src/archive.rs:14-20 | the signatures of the other seven records as the bytes that stand in a file |
| `Layout.KnownHeader` | src/archive.rs:181-196 | the fourteen bytes of a header with version 1.0 and ID 0x12345678 |
| `Layout.KnownSplit` | src/archive.rs:201-208 | the bytes of a split record: the previous ID stands before the next one |
| `Layout.KnownSolid` | src/archive.rs:513-522 | bit 0 of the flags, and no other, makes a record's size four bytes wide |
| `Layout.KnownNames` | src/archive.rs:296-327 | the bytes of names with locale and parent, with either: bit 3 stands for the locale, bit 4 for the parent, and the declared size covers both |
| `Layout.KnownWindows` | src/archive.rs:332-344 | the bytes of a Windows record: time, then attribute |
| `Layout.KnownPosix` | src/archive.rs:345-365 | the bytes of a POSIX record: mode, owner, group, then time |
| `Layout.KnownCipher` | src/archive.rs:366-382 | the bytes of a LEA-128 record: cipher byte 5, and a declared size that covers it |
| `Layout.KnownBlock` | src/archive.rs:455-480 | the bytes of a deflate block: method, hint, uncompressed size, compressed size, checksum, end marker, data |
| `Layout.KnownFile` | src/archive.rs:279-416 | the bytes of a file without records or blocks: ID, size in eight bytes, end marker |
| `Layout.NotAnArchive` | src/archive.rs:181-196 | fewer than four bytes are an I/O error, four other bytes than EGGA are NotEggFile |
| `Names.NormalizeCleans` | src/encoding.rs:24-30 | a normalised name has no backslash and no control character |
| `Names.NormalizeFixes` | src/encoding.rs:24-30 | normalising changes nothing if and only if the name has no backslash, no control character and no leading slash |
| `Names.NormalizeTwice` | src/encoding.rs:24-30 | normalising twice is normalising once if and only if no slash or backslash comes first once the leading slashes and backslashes, and then the control characters behind them, are taken off |
| `Names.TwiceIsEnough` | src/encoding.rs:24-30 | a name normalised twice is normal, so a third time changes nothing |
| `Names.NormalizeTwiceDiffers` | src/encoding.rs:24-30 | a name on which normalising twice is not normalising once |
| `Names.NameReadBack` | src/archive.rs:296-327 | an entry written with an absolute name in an encoding the decoder inverts is read back, through the whole archive, with the normalised name, and with the very name if it is normal |
| `Names.RelativeReadBack` | src/archive.rs:422-453 | a relative name comes back as the parent's own name as it was written, without slashes at its end, one slash, and the name; the parent is the last entry with that ID |
| `Names.OrphanStays` | src/archive.rs:430-446 | a relative name whose parent ID no other entry has stays as it is |
| `Names.DirectoryIff` | src/archive.rs:332-365 | an entry is a directory if and only if one of its records is a Windows record with attribute bit 7 or a POSIX record of file type 4 |
| `Names.DirectoryReadBack` | src/archive.rs:332-365 | the same through the archive: exactly the entries written as directories are read back as directories |
| `Names.TimeIs` | src/archive.rs:332-365 | an entry's time is its last Windows time, and without one its first POSIX time, converted |
| `ArchiveReader.ReadPrefix` | src/archive.rs:198-225 | the loop over the reader gives the prefix section's result or error and leaves the position behind it |
| `ArchiveReader.LandsOnEndMarker` | src/archive.rs:492-497 | the trial seek answers whether an end marker stands at the offset and leaves the position as it was |
| `ArchiveReader.ReadEncryptPayload` | src/archive.rs:486-511 | the payload read has the chosen length, and the position stands behind it |
| `ArchiveReader.ReadName` | src/archive.rs:296-327 | the name record's result or error, with locale and parent ID taken off the declared size |
| `ArchiveReader.ReadWindows` | src/archive.rs:332-344 | the Windows record's result or error, padding skipped |
| `ArchiveReader.ReadPosix` | src/archive.rs:345-365 | the POSIX record's result or error, padding skipped |
| `ArchiveReader.ReadEncrypt` | src/archive.rs:366-382 | the encryption record's result or error |
| `ArchiveReader.ReadSubs` | src/archive.rs:293-386 | the sub-header loop gives the functional result or error and position |
| `ArchiveReader.ReadBlock` | src/archive.rs:455-480 | the block's fields and data position or error, the data skipped; with `RoundTrip.MethodRead` the method byte is the one a writer puts |
| `ArchiveReader.ReadBlocks` | src/archive.rs:389-404 | the block loop gives the functional result or error, the ending signature sought back over |
| `ArchiveReader.ReadFileEntry` | src/archive.rs:279-416 | the entry or error and position |
| `ArchiveReader.ReadBody` | src/archive.rs:228-264 | the entry loop with its look past end markers gives the functional result or error |
| `ArchiveReader.IndexById` | src/archive.rs:422-428 | the index maps an ID to the last entry that has it, and has no other keys |
| `ArchiveReader.ResolveRelativePaths` | src/archive.rs:422-453 | every name is prefixed by its parent's name as it was before the pass, one level, never its own; names are rewritten in place |
| `ArchiveReader.OpenArchive` | src/archive.rs:181-276 | parsing over the multi-volume reader equals parsing the flat byte sequence |
| `Disk.SafeJoin` | src/extract.rs:59-76 | a successful join is a strict extension of the destination with no parent component |
| `Paths.EveryName` | src/extract.rs:59-76 | every name is some components without slashes, joined by slashes |
| `Paths.SplitSlashed` | src/extract.rs:59-76 | and splitting gives back exactly the components that were joined |
| `Paths.PlainJoins` | src/extract.rs:59-76 | plain components joined by slashes give the destination followed by exactly these components in order |
| `Paths.DotsDropped` | src/extract.rs:59-76 | an empty or single-dot component behind the first makes no difference |
| `Paths.Refused` | src/extract.rs:59-76 | a leading slash and any parent component are PathTraversal, a name of nothing but dots and empty components is CorruptedFile |
| `Disk.Disk.Append` | src/extract.rs:627-629 | a failed write leaves some prefix of the data behind and is remembered as a fault |
| `Disk.Disk.Remove` | src/extract.rs:236-238 | the file is gone, or it is still there and the failed removal is remembered apart from other faults |
| `SolidSink.CursorsAccept` | src/extract.rs:598-647 | a stream both cursors have followed fits both tilings and every closed CRC span matches |
| `SolidSink.CursorsComplete` | src/extract.rs:585-594 | with both cursors at their ends the stream is complete |
| `SolidSink.SpanLeftOpen` | src/extract.rs:587-592 | with a CRC span still open, an empty trailing one included, it is not |
| `SolidSink.SpanMismatch` | src/extract.rs:634-641 | a mismatching span makes every longer stream unacceptable |
| `SolidSink.SolidSink.constructor` | src/extract.rs:506-530 | a new sink has followed the empty stream |
| `SolidSink.SolidSink.EnsureFileOpen` | src/extract.rs:542-564 | the current file exists, empty, before its first byte; failure without a disk fault means it has no usable path |
| `SolidSink.SolidSink.AdvanceFullFiles` | src/extract.rs:568-581 | every full span is closed and every empty one created on the way; the cursor ends on a span with room or at the end |
| `SolidSink.SolidSink.TakeChunk` | src/extract.rs:625-631 | a chunk that fits both spans extends the open file's slice and the open CRC span by exactly its bytes |
| `SolidSink.SolidSink.WriteChunk` | src/extract.rs:627-630 | the chunk reaches the open file, if there is one, and the file's slice of the stream grows by it |
| `SolidSink.SolidSink.CloseSpan` | src/extract.rs:634-644 | a full span is passed exactly when its checksum matches its slice of the stream |
| `SolidSink.SolidSink.Take` | src/extract.rs:621-644 | one turn takes the longest run both spans allow and always moves on in the stream or in the spans; a refusal means no stream with these bytes is acceptable |
| `SolidSink.SolidSink.Write` | src/extract.rs:598-647 | a write takes its whole buffer and succeeds exactly when the stream so far is acceptable (disk faults apart), and the disk then holds what that stream puts there; termination by bytes and spans left |
| `SolidSink.SolidSink.Finish` | src/extract.rs:585-594 | succeeds exactly when the stream is complete and fails with CorruptedFile otherwise, if all paths are usable (disk faults apart); the disk then holds every selected file with its slice, created in the order of the archive |
| `SolidSink.SolidSink.Cleanup` | src/extract.rs:534-538 | every other file is as it was before the sink, and the files created are gone unless a removal failed |
| `SolidTiling.TileOfPieces` | src/extract.rs:621-632 | pieces of the tiling's sizes, joined, have these pieces as their tiles |
| `SolidTiling.TilesRebuild` | src/extract.rs:621-632 | a stream of the total size is exactly its tiles in order, nothing lost or shared |
| `SolidTiling.CutIsUnique` | src/extract.rs:621-632 | there is one way to cut a stream to given sizes |
| `SolidTiling.SliceOnDisk` | src/extract.rs:597-647 | with distinct targets, each selected file holds exactly its slice of the stream after all others are written |
| `SolidTiling.WrittenElsewhere` | src/extract.rs:597-647 | a path that is no selected file's target is untouched |
| `SolidTiling.SlicesPiped` | src/extract.rs:550-551 | in pipe mode the output grows by the selected files' slices in order, and no file changes |
| `SolidTiling.CreatedOnce` | src/extract.rs:553-560 | with distinct targets, exactly the selected files' targets are created, each once |
| `SolidTiling.TrailingEmptySpan` | src/extract.rs:585-594 | an empty last CRC span makes every stream incomplete |
| `SolidTiling.TrailingEmptySpanExample` | src/extract.rs:585-594 | one stream that is complete without an empty span and with one in front, and refused with one at the end |
| `Decryptors.DecryptAppend` | src/crypto.rs:25-27 | for every cipher, two calls equal one call on the concatenation, output and state |
| `Decryptors.PlainAppend` | src/extract.rs:222-225 | the same with decryption optional |
| `Decryptors.Decryptor.Decrypt` | src/crypto.rs:25-27 | through the common interface, each cipher object's call is the decryption its state stands for |
| `Decryptors.DecryptFront` | src/decompress/store.rs:22-24 | the front of a buffer is decrypted in place, the rest untouched |
| `Decryptors.SetupObject` | src/extract.rs:85-148 | the object built from entry and password is in the state, or the error the one, that the set-up function determines; what a producer must have written for that is `Encryption.KeysFound` and `HeaderFound` |
| `Decryptors.ZipObjectFor` | src/extract.rs:127-141 | a ZipCrypto object ready for the data, or the error for short data or a wrong password |
| `Decryptors.StreamObjectFor` | src/extract.rs:92-124 | an AES or LEA object at keystream position 0 with key and authentication data cut from the derived bytes, or the error for short data or a wrong verifier |
| `Encryption.FirstBlocksOfAes` | src/aes_ctr.rs:91-113 | the first sixteen bytes of AES keystream are the cipher's image of the counter 1, little-endian, the next sixteen of the counter 2 |
| `Encryption.FirstBlocksOfLea` | src/lea.rs:200-218 | the first sixteen bytes of LEA keystream are the image of the counter 0, big-endian, the next sixteen of the counter 1 |
| `Encryption.KeysFound` | src/extract.rs:85-148 | a producer derives cipher key, authentication key and verifier in this order from a salt of 8 or 16 bytes and writes salt, verifier and tag; set-up finds the cipher under that key and the authentication under the other |
| `Encryption.KeysRefused` | src/aes_ctr.rs:37-82 | another verifier is InvalidPassword, and no password PasswordNotSet |
| `Encryption.NoSetup` | src/extract.rs:85-148 | an entry without encryption needs no password, and an unknown cipher is UnsupportedEncryption with its number |
| `Encryption.EncryptedReadsBack` | src/extract.rs:167-252 | a stored file a producer has encrypted with AES or LEA is extracted again if the tag is that of its ciphertext, and is AuthenticationFailed if the tag is another |
| `Encryption.OnlyAuthentic` | src/extract.rs:31-53 | whatever its methods and however many its blocks, a file with a tag has content only if all its data is there and the tag is that of its blocks' bytes one after the other |
| `Encryption.HeaderFound` | src/extract.rs:127-141 | a producer's PKZIP header, eleven filler bytes and the CRC's top byte encrypted, then the CRC, leaves the keys behind these twelve bytes |
| `Encryption.ZipReadsBack` | src/extract.rs:167-252 | a stored file a producer has encrypted with the traditional cipher is extracted again |
| `Drivers.LimitWriter.Write` | src/decompress/mod.rs:25-36 | no more than the limit is ever passed on; what the inner writer took is charged; it fails without a disk fault only for a buffer over the limit |
| `Drivers.LimitWriter.WriteAll` | src/decompress/mod.rs:25-36 | all bytes are appended behind what was there, or more than the limit was asked for |
| `Drivers.ExtractStore` | src/decompress/store.rs:8-31 | succeeds exactly when the block is there and within the limit (disk faults apart): exactly its bytes are read and decrypted, written, and their checksum returned |
| `Drivers.Refill` | src/decompress/deflate.rs:26-34 | the window is refilled only when empty, with the next decrypted bytes of the block, and this fails exactly when they are not there |
| `Drivers.Slide` | src/decompress/deflate.rs:46-49 | what the inflater did not consume moves to the front, nothing lost |
| `Inflation.OneCall` | src/decompress/deflate.rs:36-62 | one turn of the loop: the run on values is finished, broken off with its error, or still ahead with less left to consume or to produce |
| `Inflation.LimitOnlyRefuses` | src/decompress/mod.rs:25-36 | the limit only refuses: all limits that are not exceeded give the same output, error and bytes read |
| `Inflation.FedInOrder` | src/decompress/deflate.rs:26-49 | called on windows each of which begins behind what was consumed before, the inflater consumes a prefix of the block, nothing lost and nothing twice |
| `Inflation.LoopIsRun` | src/decompress/deflate.rs:23-63 | the loop is a run of the inflater object on such windows: all it produced is put out; it ends well only if the stream was over or the block consumed, and badly only if the inflater failed on the next window or the block is cut short |
| `Inflation.InflateIsRun` | src/decompress/deflate.rs:11-66 | the same for a whole block on a bounded writer, with the error for each way to fail |
| `Inflation.OutcomeIsLoop` | src/decompress/deflate.rs:11-66 | inflating gives an output if and only if a list of calls does: each window is what is left of the one before or the next at most 4096 bytes, every call but the last goes on, the last ends the stream or finds all consumed and nothing produced; and the output is what these calls made |
| `Inflation.LoopIsInflate` | src/decompress/deflate.rs:23-63 | such a list also tells how far the block was read |
| `Inflation.LoopInOrder` | src/decompress/deflate.rs:26-49 | its windows come to the block in order, and it ends with the stream or with the block |
| `Drivers.InflateTurn` | src/decompress/deflate.rs:23-63 | one turn keeps window, output and decryptor in step with the run on values, consumes or produces something, or stops with that run's end or error |
| `Drivers.ExtractDeflate` | src/decompress/deflate.rs:11-66 | for any inflater that makes progress the loop terminates; output, checksum and error are exactly those of the run on the decrypted block (disk faults apart), and the decryptor has advanced by exactly the bytes that run read |
| `Drivers.ReadLzma` | src/decompress/lzma.rs:13-51 | header and data are decrypted in two calls and come out as one stream of exactly the compressed size, or the error for a short or truncated block |
| `Drivers.ExtractLzma` | src/decompress/lzma.rs:6-73 | the decoder gets properties, unknown size and data of the decrypted block; what it writes within the limit is written and its checksum returned; every error is the one determined by the block, the decoder and the limit; the keystream has advanced by exactly the block |
| `Drivers.RunDecoder` | src/decompress/lzma.rs:61-69 | a decoder's writes reach the bounded writer; result and error are determined by the writes, the limit and the decoder's own verdict (disk faults apart) |
| `Drivers.HashingWriter.Write` | src/decompress/lzma.rs:81-87 | exactly the bytes the inner writer took are hashed, also when it took a part |
| `Drivers.HashingWriter.WriteAll` | src/decompress/lzma.rs:81-87 | over any number of partial writes the hash and the output both grow by exactly the buffer |
| `Drivers.DecryptingReader.Read` | src/decompress/bzip2.rs:53-60 | exactly the bytes a short read returned are decrypted, and none are returned only at the end of the bounded input |
| `EntrySpec.OneKeystream` | src/extract.rs:217-235 | decrypting a file's blocks one by one with one decryptor is decrypting the joined blocks |
| `EntrySpec.StateIsJoined` | src/extract.rs:217-225 | one keystream per entry: blocks that are read to the end leave the decryptor where the joined blocks do |
| `EntrySpec.BlocksOneByOne` | src/extract.rs:217-235 | blocks of any compression give a content exactly when each gives its output from its place in the one keystream, and the content is the outputs joined |
| `EntrySpec.OutcomeChecked` | src/extract.rs:226-231 | the output of a block of any compression is within its declared size and has its recorded checksum |
| `EntrySpec.BlocksOutcomeIs` | src/extract.rs:217-235 | stored blocks give a content exactly when every block is present, fits and matches its checksum, and the content is the decryption of the joined blocks |
| `EntrySpec.DeclaredSizeIsNotChecked` | src/extract.rs:217-235 | the content of stored blocks has the size its entry declares if and only if the blocks' compressed sizes add up to it |
| `EntrySpec.OneByteEntryExtracts` | src/extract.rs:217-235 | a one-byte stored block is the accepted content of an entry whatever sizes the entry and, from one byte on, the block declare |
| `Methods.StoredContent` | src/extract.rs:674-701 | an entry of one stored block has content c if and only if its data is all there, c is the data decrypted, within the declared size and with the recorded checksum |
| `Methods.DeflateContent` | src/extract.rs:674-701 | an entry of one deflate block has content c if and only if c is what the inflater makes of the decrypted data in the loop's calls, within the declared size and with the recorded checksum |
| `Methods.LzmaContent` | src/extract.rs:674-701 | an entry of one LZMA block has content c if and only if the decoder, given the properties, an unknown size and the data, says ok and writes c, within the declared size and with the recorded checksum |
| `Methods.ForeignContent` | src/extract.rs:674-701 | an entry of one bzip2 or AZO block has content c if and only if the decoder of that very method says ok on its data and writes c, within the declared size and with the recorded checksum |
| `Methods.UnknownContent` | src/extract.rs:674-701 | an entry of one block of an unknown method has no content, and the error names the method |
| `Methods.BlockErrors` | src/extract.rs:674-701 | which error each method gives for missing data, too much output, a decoder that gives up and a wrong checksum |
| `Methods.KeystreamMoves` | src/extract.rs:217-235 | a block moves its entry's keystream over the data that is there, and a deflate block over what its windows have taken |
| `EntryExtractor.VerifyHmac` | src/extract.rs:31-53 | the 8192-byte loop authenticates exactly the joined ciphertext; missing bytes, a wrong tag or a tag that is not 10 bytes give the error |
| `EntryExtractor.BeginFile` | src/extract.rs:198-206 | the decryptor starts in the state of its set-up, after authentication has passed, or the first error is returned |
| `EntryExtractor.DecompressBlock` | src/extract.rs:674-701 | for every compression output, checksum and error are those the decrypted block determines (disk faults apart), written behind what was there, and the decryptor has advanced by exactly the bytes read; what that is for each compression is `Methods.StoredBlock` to `UnknownBlock` |
| `EntryExtractor.ExtractBlock` | src/extract.rs:219-232 | one turn: the block's output appended and its checksum equal to the recorded one, or the error, exactly as on values |
| `EntryExtractor.ExtractBlocks` | src/extract.rs:217-235 | for blocks of any compressions, encrypted or not, content and error are exactly those of the blocks taken in order from the entry's one keystream |
| `EntryExtractor.ExtractTo` | src/extract.rs:208-245 | the target holds exactly the blocks' content, or the error is theirs and the target is gone again unless its removal failed; nothing else changes either way |
| `EntryExtractor.ExtractEntry` | src/extract.rs:167-252 | success, content and error are exactly the entry's on values (disk faults apart); failure leaves nothing of the entry unless the removal fails, and nothing outside the destination changes in any case; what the content is for each compression is `Methods.StoredContent` and its siblings |
| `SolidSpec.ReadAt` | src/extract.rs:350-357 | the list of block reads holds every block of every regular file, in order, under its file's index |
| `SolidExtractor.PlanEntry` | src/extract.rs:331-357 | one turn of that loop gives the entry's path error, or its file span, its CRC spans and its reads |
| `SolidExtractor.BuildPlan` | src/extract.rs:330-358 | the first loop gives the first path error or the two tilings and the list of reads of the archive |
| `SolidExtractor.GatherBlock` | src/extract.rs:368-388 | one turn starts a fresh decryptor exactly when a new file begins and appends the next block decrypted |
| `SolidExtractor.Gather` | src/extract.rs:363-389 | the buffer is the concatenation over files of a fresh decryptor applied to the file's joined blocks, or the first error in order |
| `SolidExtractor.CompleteAccepts` | src/extract.rs:597-647 | a complete stream is acceptable |
| `SolidExtractor.AcceptsPrefix` | src/extract.rs:597-647 | every prefix of an acceptable stream is acceptable |
| `SolidExtractor.Deliver` | src/extract.rs:411-442 | a decoder's writes, in whatever chunks, reach the sink as their concatenation, and are all taken exactly when that stream is acceptable (disk faults apart) |
| `SolidExtractor.CopyInto` | src/extract.rs:413-415 | the same for the copied buffer, in pieces of any size |
| `SolidExtractor.InflateInto` | src/extract.rs:416-418 | the inflating loop over the sink terminates for any inflater that makes progress, because the sink takes no more than its spans, and the sink gets exactly what the run produces |
| `SolidExtractor.DriveInto` | src/extract.rs:411-442 | store, deflate with its window, LZMA with its header, bzip2 and AZO over the sink: what reaches it, and whether the decoder fails, is as on values; a refused write means that stream is not acceptable |
| `SolidExtractor.RunSink` | src/extract.rs:398-449 | success exactly when the decoder succeeds and the stream is complete (disk faults apart), with the disk as that stream leaves it; the error is the first of: a refused write, the decoder's failure, CorruptedFile for a stream that is not complete; only targets change, and after a failure every file created is gone unless a removal failed |
| `SolidExtractor.AllOrNothing` | src/extract.rs:444-449 | where no target existed before, a failed pass leaves exactly the files there were |
| `SolidExtractor.CreateEmptyFiles` | src/extract.rs:456-466 | every selected file is created empty; a failure leaves the first of them, empty |
| `SolidExtractor.ExtractAllSolid` | src/extract.rs:312-483 | result, error and stream are exactly those determined on values, step by step (disk faults apart), with every selected file holding its slice of the stream; after a failure every file created is gone unless a removal failed, or, in an archive without blocks, the first files are there, empty; nothing outside the destination changes; which stream that is for each compression is `SolidMeaning.SolidStored` and its siblings |
| `SolidExtractor.OutcomeIsSuccess` | src/extract.rs:312-483 | those steps succeed if and only if paths are fine, the stream can be had and it is complete; the stream is then the decoded buffer |
| `SolidExtractor.OnlyPipeModeIgnoresSizes` | src/extract.rs:450-455 | extraction succeeds without a complete stream if and only if paths are fine, pipe mode is on, there is no block, and some file declares a nonzero size |
| `SolidExtractor.TargetsContained` | src/extract.rs:59-76 | a run that touches only the targets of its plan touches nothing outside the destination |
| `SolidMeaning.GatheredIff` | src/extract.rs:363-389 | the buffer is some bytes if and only if they are the parts of all entries one after the other, each the joined blocks of a regular file, all there, under a decryptor of its own |
| `SolidMeaning.CompleteIff` | src/extract.rs:585-594 | a stream is complete if and only if it is as long as the files declare together, falls into pieces of the blocks' uncompressed sizes with the blocks' checksums, all paths are fine and the last piece is not empty |
| `SolidMeaning.FirstMethodIs` | src/extract.rs:391-396 | the decoder is that of the first block in archive order, a directory's included |
| `SolidMeaning.SolidStored` | src/extract.rs:413-415 | first block stored: the run yields a stream if and only if it is the buffer and complete |
| `SolidMeaning.SolidDeflated` | src/extract.rs:416-418 | first block deflated: the run yields a stream if and only if it is what the inflater makes in the loop's calls on the buffer, and complete |
| `SolidMeaning.SolidLzma` | src/extract.rs:391-442 | first block LZMA: the run yields a stream if and only if the decoder, given properties, unknown size and data of the buffer and a buffer a little over the sizes' sum, says ok and writes it, and it is complete |
| `SolidMeaning.SolidForeign` | src/extract.rs:391-442 | first block bzip2 or AZO: the run yields a stream if and only if the decoder of that very method says ok on the buffer and writes it, and it is complete |
| `SolidMeaning.SolidUnknown` | src/extract.rs:391-442 | first block of an unknown method: the error names the method |
| `SolidMeaning.PathsFineIff` | src/extract.rs:330-358 | the paths are accepted if and only if the names of all regular files are usable, and those of selected directories unless everything is piped |
| `SolidMeaning.FileHoldsStretch` | src/extract.rs:597-647 | each selected file holds the stretch of the stream that begins after the declared sizes of the files before it and is as long as it declares |
| `SolidEquivalence.BufferIs` | src/extract.rs:363-389 | the buffer is the concatenation of all blocks' plaintexts, and of all files' contents |
| `SolidEquivalence.ContentIsPart` | src/extract.rs:217-235 | for stored blocks that add up, the per-entry path yields content exactly when the solid path can read the file and its checksums match, and it is the file's part of the stream |
| `SolidEquivalence.BufferComplete` | src/extract.rs:585-594 | a buffer cut to the declared sizes is a complete stream exactly when every block's checksum matches, and its file tiles are the files' parts |
| `SolidEquivalence.SolidIffEntries` | src/extract.rs:312-483 | on such archives solid extraction succeeds exactly when every entry by itself does |
| `SolidEquivalence.SolidIsPerEntry` | src/extract.rs:254-269 | and then leaves the very output that extracting the selected entries one by one leaves, encrypted or not, under any filter, to files or to a pipe |
| `SolidEquivalence.SolidChecksSizes` | src/extract.rs:585-594 | the one-byte file that the per-entry path extracts whatever is declared is extracted by the solid path if and only if file and block declare one byte |
| `SolidEquivalence.PipeModeIgnoresSizes` | src/extract.rs:450-455 | a file of seven declared bytes without any block is refused by the per-entry path and by the solid path to files, and accepted by the solid path in pipe mode |
| `Extraction.ExtractEach` | src/extract.rs:264-266 | success leaves exactly what the selected entries put there one by one; the error is that of the first entry that fails; after a failure the entries before some selected one are extracted and of that one nothing is left unless the removal fails; nothing outside the destination changes |
| `Extraction.ExtractSelected` | src/extract.rs:285-300 | the solid or the per-entry path, with result, error and disk of each, after success and after failure |
| `Extraction.ExtractAll` | src/extract.rs:254-269 | success leaves every entry's content or every file's slice of the stream; failure has the error of the first step or entry that fails (disk faults apart) and leaves what that path leaves; nothing outside the destination changes |
| `Extraction.ExtractFiles` | src/extract.rs:271-305 | the same for what matches; FileNotFound exactly when that succeeded and some name matches no entry; which entries match is `Selection.MatchesIsNames` |
| `Extraction.FailureIsExact` | src/extract.rs:254-305 | there is such an error if and only if the archive is not extractable, and only one |
| `Extraction.VerifyPassword` | src/extract.rs:154-165 | the answer is decided by the first encrypted entry: wrong password is false, another error is the error, no encrypted entry is true |
| `Encryption.TriedOnFirst` | src/extract.rs:154-165 | the password is tried on the first entry that is encrypted |
| `Selection.MatchesIff` | src/extract.rs:664-672 | a pattern with any number of slashes at its end matches exactly the name without them and names that go on with a slash |
| `Selection.MatchesIsNames` | src/extract.rs:664-672 | for every pattern: it matches exactly what it names, itself and what is below it |
| `Selection.DocExample` | src/extract.rs:664-672 | "doc" and "doc/" match "doc" and "doc/a", and not "document.txt" |
| `Selection.SelectedIff` | src/extract.rs:657-662 | without a list every entry is selected, with one exactly those some name of the list covers |
| `Selection.AllMatchedIff` | src/extract.rs:279-283 | FileNotFound is for lists in which some name covers no entry |
| `Selection.UnnamedUntouched` | src/extract.rs:271-305 | a successful extraction of named files leaves every path as it was that no covered entry goes to |
| `Selection.NamedExtracted` | src/extract.rs:294-299 | every covered file is extracted: its target holds its content unless a later covered entry went there too |
| `Selection.ExtractNamed` | src/extract.rs:271-305 | `extract_files` in these terms: untouched paths, and FileNotFound exactly for a list with a name that covers nothing |
| `EndToEnd.OpenLocates` | src/archive.rs:468 | every data position of an opened archive lies inside the bytes it was parsed from |
| `EndToEnd.ExtractArchive` | src/main.rs:165-181 | volumes, parser and extraction in sequence: the chain's error or the parser's error with the disk untouched, or result, error and disk of extracting the archive the presented bytes stand for |
| `EndToEnd.ExtractSplit` | src/volume.rs:30-104 | for any byte stream cut into volumes that sequence works as on the uncut stream: result, error, and the disk after success and after failure |
| `EndToEnd.RunIsContained` | src/extract.rs:59-76 | whatever comes of a run, disk faults and failed removals included, no file outside the destination is created, changed or removed, and nothing printed is taken back |

## Left out

- Internals of flate2, bzip2, lzma-rs, libazo, aes, pbkdf2, hmac, sha1, crc32fast and encoding_rs: foreign code, given as parameters; crc32fast is modelled as the CRC-32 it computes.
- The decoding of file names (UTF-8 and legacy code pages): a parameter, which `Names.NameReadBack` takes to invert the encoding; `normalize_path` is modelled.
- Directories on disk, permissions, modification times and `set_file_time`: an output is a map from paths to bytes, so creating parent directories has no effect in it and a directory entry leaves no trace.
- Path handling other than Unix paths: a name is split at slashes, and Windows prefixes are not modelled.
- Directory iteration: the listing of a volume directory is a sequence of file contents in the order it is read, without names; entries that are no regular files, and I/O errors of the listing, do not occur in it.
- Command line, listing output, terminal prompts and error texts in src/main.rs and src/error.rs, apart from the date functions.
- `BufReader` around a single file: it is a reader with one segment.
- Drivers.ExtractDeflate: what the inflater makes of a deflate stream is foreign code; the model says which calls it gets and what becomes of its answers.
- EntryExtractor.ExtractForeign: bzip2 and AZO decoders are handed all there is of the block; that they may stop reading earlier, which matters only for an encrypted block behind them, is not modelled (src/decompress/azo.rs and the decoder loop of src/decompress/bzip2.rs are foreign reads in the source).
- SolidExtractor.DriveInto: bzip2 and AZO over the sink are functions from the buffer to the writes and a verdict; the checksums the drivers return there are not used by the source and left out.
- SolidEquivalence.SolidIsPerEntry: speaks of archives of stored blocks with equal sizes that add up to the declared size of their file, whose directories own no blocks and have usable paths, and whose last block is not empty.
- VolumeReader.MultiVolumeReader.Seek: sums of positions wrap as in a release build; a debug build would stop with an overflow instead.
- ArchiveReader.OpenArchive: asks for fewer than 2^62 presented bytes, so that no position in the parser wraps; 32-bit `usize` is not modelled.
- RoundTrip.OpenOfSerialized: the encryption record is the last sub-header; its declared size is the payload's own, or no payload size at all over the longest payload, or over a shorter payload if a block follows whose uncompressed size does not read as an end marker; an end marker between records is followed by another record.
- Acceptance.AcceptedIff: speaks of archives without encryption records; for encrypted ones the parser also accepts encryption records elsewhere among the sub-headers, several of them, and payloads no end marker follows, and only the direction of `RoundTrip.OpenOfSerialized` is stated.
- VolumeChain.SkipScanAgrees: one direction only; behind a shorter split record that is not the last record the scans can still meet by the accident of the bytes that follow.
- Chains of relative paths deeper than one level: they are not resolved, as in the source.
