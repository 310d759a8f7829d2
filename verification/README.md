# Verified model of the algorithms under the GSM application

A Dafny 4.11 model of the self-contained algorithms in this repository, with proofs of what they
promise. `dafny verify dfyconfig.toml` checks everything.

| file | models |
|---|---|
| `Fifo.dfy`, `FifoProtocol.dfy` | the receive FIFO of the modem driver: as a class used from one thread, and as a protocol whose micro-steps two threads interleave in any way |
| `GsmClient.dfy` | reading from a TCP socket through that FIFO, over a modem that may deliver, notify, stay silent or disconnect at any time |
| `EspLayout.dfy`, `EspContent.dfy`, `EspFormat.dfy`, `EspImage.dfy` | `ESP32FirmwareImage` of esptool: arranging segments, what the arrangement preserves, the file format byte by byte, and writing and reading it |
| `Slip.dfy` | the framing of esptool's serial link |
| `PolynomialCrc.dfy`, `SdCrc.dfy`, `SdCrcDistance.dfy` | division of polynomials over GF(2) for any generator, the table-driven CRC7 and CRC16 of the SD driver, and the errors they catch |
| `Base64.dfy` | the resumable coder libb64 |
| `SdTransfer.dfy` | multi-sector reads and writes of the SD driver with their retries |
| `SpiClock.dfy` | the search for an SPI clock divider |
| `Rings.dfy`, `Cbuf.dfy` | circular storage, and the resizable buffer `cbuf` |
| `StableSort.dfy`, `PartitionTables.dfy`, `PartitionBinary.dfy`, `PartitionCsv.dfy` | the partition table tool: placing, checking, and its two file formats |
| `Wrappers.dfy`, `Sequences.dfy`, `LittleEndian.dfy`, `Texts.dfy` | shared vocabulary: results, concatenation, bytes, ASCII text and numbers |

Code that updates state is a class or a method with loops, proved against a function of its inputs;
the properties are lemmas about those functions. Formats, alphabets, keyword tables and outcomes are
also stated on their own, without the code's functions, and the code is proved to agree with them. A loop that may meet any answer from hardware takes
the answers as a script, or draws them nondeterministically.

Where the code does not do what it seems meant to do, the model keeps the code, a lemma gives an
input that shows it, and the exact condition under which the code is right is proved:

- `cbuf::resize` leaves the buffer unusable exactly when its argument plus one, in 32 bits, equals the
  number of bytes held (`Cbuf.CircularBuffer.Reallocate`).
- The decoding table of libb64 is read one past its end exactly for the character `{`
  (`Base64.ValueDefined`, `Base64.DecodeDefined`).
- The assertion in `ESP32FirmwareImage.save` fires exactly when the gap in front of a flash segment is
  one segment header (`EspLayout.AssertionExact`). For word-aligned flash addresses it stays silent for
  all RAM segments exactly if every flash segment is safe (`EspLayout.AssertionFreeExact`, and
  `EspContent.ImageAssertionFree` for whole images): it starts at least 16 bytes into its page, or the
  end of the flash segment before it leaves no gap or one that a padding of at most 8 bytes closes. The
  first flash segment has only the first way (`EspLayout.FirstSafeExact`).
- The padding asked for is a whole page longer than needed exactly when the address is, within its page,
  at least 16 bytes behind the file position (`EspLayout.NeededLeastExact`).
- The layout loop runs for ever exactly if it comes to a state with no RAM segment left and a next
  flash address that differs from the file position modulo four (`EspLayout.EndlessExact`). For flash
  addresses at least 16 bytes into their pages, some RAM segments lead there exactly if one of these
  addresses is not a multiple of four (`EspContent.ImageAlwaysEnds`); then having none already does
  (`EspContent.FlashOnlyExact`).
- `save` writes up to 255 segments, but loading refuses more than 16 (`EspImage.SaveThenLoad`); which
  images are safe can be seen before saving (`EspImage.LoadableBeforehand`).
- `sdWriteSectors` counts a card's report from the start of the request although the card counts from
  the start of its last command. That is safe, but the loop is only sure to end for at most one block
  (`SdTransfer.EndsExact`).
- `ff_sd_write` replaces the result of the multi-sector write by that of a second, single-sector write,
  so success does not mean that the data is stored (`SdTransfer.FileSystemWriteLoses`);
  `SdTransfer.FileSystemWriteExact` says when it does. A single-sector write takes every token other
  than 0x0A and 0x0C for success (`SdTransfer.SingleOutcome`, `SdTransfer.SingleExact`).
- The bulk calls of the FIFO copy as many bytes as there are elements, which is right exactly for
  elements of one byte (`Fifo.WidthExact`), the only kind the driver has; `Fifo.WidePut` says what they
  leave in the ring otherwise.
- The number of waiting bytes is kept in 16 bits, so `available()` gives 0 when a multiple of 65536 bytes
  wait (`GsmClient.Client.Available`).
- A socket that is closed returns nothing even when the FIFO still holds data (`GsmClient.Client.Read`).
- `PartitionTable.verify` may depend on the order of the lines when a partition is empty
  (`PartitionTables.OrderExact`), and does not look at the sign of a size
  (`PartitionTables.NegativeSizeAccepted`, `PartitionTables.SizesExact`).
- A table written as CSV is read back exactly when its names have no comma, line break, leading `#` or
  white space around them and its offsets and sizes can be written (`PartitionCsv.CsvExact`).
- A comment in `gen_esp32part.py` speaks of 96 entries; the code accepts 95
  (`PartitionBinary.ToBinaryExact`).

## Model

| member | source | states |
|---|---|---|
| Fifo.TinyGsmFifo.Free | main/TinyGsmFifo.h:27-33 | the result is the number of free positions, one less than N minus what is held |
| Fifo.TinyGsmFifo.Size | main/TinyGsmFifo.h:80-86 | the result is the number of elements held |
| Fifo.TinyGsmFifo.Put | main/TinyGsmFifo.h:35-45 | refused exactly when N-1 elements are held, otherwise the element goes to the back |
| Fifo.TinyGsmFifo.Get | main/TinyGsmFifo.h:88-96 | refused exactly when empty, otherwise the front element is taken |
| Fifo.TinyGsmFifo.PutAll | main/TinyGsmFifo.h:47-70 | without waiting, stores the first min(n, free) bytes behind what is held, across the wrap |
| Fifo.TinyGsmFifo.GetAll | main/TinyGsmFifo.h:98-123 | without waiting, takes min(n, size) bytes from the front into the buffer, nothing else in it changes |
| Fifo.WidthExact | main/TinyGsmFifo.h:64-65 | the bytes copied for a chunk, as many as there are elements, make all its elements arrive, whatever they are and whatever the cells held, if and only if an element is one byte wide |
| Fifo.ArrivesExact | main/TinyGsmFifo.h:64-65 | of a chunk of n elements just those arrive that lie within its first n bytes |
| Fifo.WidePut | main/TinyGsmFifo.h:47-70 | a chunk of a bulk put of elements of any width adds to the ring the elements that arrived whole, then one that may have arrived in part, then what the cells held before |
| FifoProtocol.StepKeeps | main/TinyGsmFifo.h:27-129 | every micro-step of either thread keeps the invariant that ties indices, cells, published history and local variables together |
| FifoProtocol.PublishWriteKeeps | main/TinyGsmFifo.h:60-67 | publishing the new write position adds exactly the bytes copied before |
| FifoProtocol.PublishReadKeeps | main/TinyGsmFifo.h:113-120 | publishing the new read position removes exactly the bytes copied out before |
| FifoProtocol.ReadsArePrefix | main/TinyGsmFifo.h:27-129 | in every interleaving, what has been read is a prefix of what has been put, that is a prefix of what was given, and at most N-1 elements are held |
| FifoProtocol.NoOverlap | main/TinyGsmFifo.h:47-70 | in every interleaving, a cell being filled is never being copied out and never holds published data |
| FifoProtocol.NoDeadlock | main/TinyGsmFifo.h:53-57 | with at least two cells, two waiting threads can always make a step |
| FifoProtocol.SingleSameTest | main/TinyGsmFifo.h:35-45 | the tests of the single-element calls agree with `free()` and `size()` |
| GsmClient.Client.Maintain | main/TinyGsmClientSIM800.h:250-261 | after a notification, and only then, the modem is asked what is waiting: its answer modulo 65536, or 0 for no answer, is remembered, and when nothing is waiting the connection is as the modem says; otherwise only a closing message changes it; the stream stays intact |
| GsmClient.Client.ModemRead | main/TinyGsmClientSIM800.h:791-824 | fetches bytes into the FIFO without losing any although the result of each put is ignored, given room for what was asked for; an answer sets the number known to wait to what is left |
| GsmClient.Client.Read | main/TinyGsmClientSIM800.h:127-148 | terminates; a pending notification is followed up; bytes read, then FIFO, then bytes still in the modem are always the received stream; unless the socket is found closed at the start, at least what the FIFO held is returned, up to the size asked for; it stops short only when the connection is gone or nothing is known to wait |
| GsmClient.Client.Available | main/TinyGsmClientSIM800.h:112-125 | what the FIFO holds plus what is known to wait, never more than is there; with an empty FIFO and an open socket the modem is asked, after a notification or when the time is due, and the result is then its answer modulo 65536 |
| EspLayout.NeededExact | components/arduino/tools/esptool.py:1365-1380 | no padding is asked for exactly when the segment is aligned or the gap is one header, and never both |
| EspLayout.PaddingAligns | components/arduino/tools/esptool.py:1365-1380 | writing a segment of exactly the asked size makes the next one aligned |
| EspLayout.NeededLeastExact | components/arduino/tools/esptool.py:1365-1380 | the size asked for, when it is not zero, is the least with that effect if and only if the address is, within its page, less than 16 bytes behind the file position; otherwise one page less would do |
| EspLayout.FlashPages | components/arduino/tools/esptool.py:916-919 | flash-mapped are the 64 KiB pages 0x400D to 0x403F and 0x3F40 to 0x3F7F |
| EspLayout.AssertionExact | components/arduino/tools/esptool.py:1384-1401 | an iteration fails its assertion if and only if the gap is one header |
| EspLayout.StepDecreases | components/arduino/tools/esptool.py:1384-1401 | unless no RAM segment is left and the next flash address differs from the file position modulo four, each iteration places a flash segment, uses up a RAM segment, or improves the gap; for any segments |
| EspLayout.EndlessExact | components/arduino/tools/esptool.py:1384-1401 | for any segments, the loop runs for ever if and only if it comes to a state with no RAM segment left and a next flash address that differs from the file position modulo four |
| EspLayout.NoRamExact | components/arduino/tools/esptool.py:1384-1395 | without RAM segments, and at least 16 bytes into the pages, the loop ends if and only if all flash addresses are multiples of four |
| EspLayout.EndsForAllRam | components/arduino/tools/esptool.py:1384-1401 | for flash segments at least 16 bytes into their pages, the loop ends for all RAM segments if and only if all flash addresses are multiples of four |
| EspLayout.TidyEnds | components/arduino/tools/esptool.py:1384-1401 | with flash addresses that are multiples of four the loop ends, whatever the RAM segments |
| EspLayout.ClearNeverAsserts | components/arduino/tools/esptool.py:1384-1399 | no assertion failure when flash addresses are at least 16 bytes into their page |
| EspLayout.AssertionFreeExact | components/arduino/tools/esptool.py:1384-1399 | for a list of word-aligned flash segments, the assertion stays silent for all RAM segments if and only if each flash segment starts at least 16 bytes into its page, or comes aligned or needing at most 8 bytes of padding behind the flash segment before it |
| EspLayout.FirstSafeExact | components/arduino/tools/esptool.py:1365-1380 | for the first flash segment of an image that is the case if and only if its address is at least 16 bytes into its page |
| EspLayout.GapReached | components/arduino/tools/esptool.py:1384-1399 | for an image whose only flash segment is word-aligned and closer to its page start there is a RAM segment for which the assertion fires |
| EspContent.StepFaithful | components/arduino/tools/esptool.py:1384-1401 | an iteration keeps: all flash segments written so far are aligned and unchanged, RAM bytes written and left are the original ones at their addresses, padding is zeros at address 0 |
| EspContent.SplitCells | components/arduino/tools/esptool.py:1041-1051 | splitting a segment keeps every byte at its address |
| EspContent.PartsExact | components/arduino/tools/esptool.py:1347-1348 | the two lists hold the flash-mapped segments and the others, together all of them, each in address order |
| EspContent.PiecesCorrect | components/arduino/tools/esptool.py:1347-1406 | of a finished arrangement: the flash pieces are exactly the flash segments in address order, each aligned; the RAM pieces are exactly the RAM bytes in address order |
| EspContent.PiecesExist | components/arduino/tools/esptool.py:1384-1406 | such an arrangement exists for all segments whose flash addresses are multiples of four and at least 16 bytes into their page |
| EspContent.FlashOnlyExact | components/arduino/tools/esptool.py:1384-1401 | flash segments alone, at least 16 bytes into their pages, are arranged if and only if all addresses are multiples of four; otherwise the loop never ends |
| EspContent.ImageAssertionFree | components/arduino/tools/esptool.py:1347-1401 | no image with these flash segments fails the assertion, whatever its other segments, if and only if all of them, in address order, are safe; for flash addresses that are multiples of four |
| EspContent.ImageAlwaysEnds | components/arduino/tools/esptool.py:1347-1401 | no image with these flash segments loops for ever, whatever its other segments, if and only if their addresses are multiples of four; for those at least 16 bytes into their pages |
| EspContent.PiecesCounted | components/arduino/tools/esptool.py:1384-1406 | with word-aligned flash addresses, at most one piece more than segments is written for each flash segment |
| EspContent.StepEconomical | components/arduino/tools/esptool.py:1387-1393 | a piece is cut off a RAM segment only when it is worth its header, and zeros are written only for a gap that is not, or when no RAM segment is left |
| EspContent.PiecesThrifty | components/arduino/tools/esptool.py:1384-1406 | in a finished arrangement longer runs of zeros are only written once all RAM segments are used up |
| EspContent.CellsPreserved | components/arduino/tools/esptool.py:1347-1406 | the bytes of the written segments with their addresses, padding aside, are those of the input segments, none lost, repeated or moved |
| EspContent.ChecksumOfIsXor | components/arduino/tools/esptool.py:1117-1125 | the running checksum is the magic byte combined by exclusive or with all bytes |
| EspContent.ChecksumPreserved | components/arduino/tools/esptool.py:1384-1430 | the checksum over the written pieces equals the checksum over the input segments |
| EspContent.PageCheckExact | components/arduino/tools/esptool.py:1352-1363 | the check of neighbours passes if and only if no two flash segments start in the same 64 KiB page |
| EspImage.RunChecksum | components/arduino/tools/esptool.py:229-238 | the loop computes the exclusive or of the state with all bytes |
| EspImage.ChooseSegment | components/arduino/tools/esptool.py:1385-1400 | the choice between a flash segment, a piece of a RAM segment and padding is one step of the arrangement, or the assertion failure |
| EspImage.PlaceFlash | components/arduino/tools/esptool.py:1384-1401 | the loop writes exactly the arrangement, with file, checksum and count in step, fails its assertion, or is found to go on for ever |
| EspImage.CheckPages | components/arduino/tools/esptool.py:1356-1363 | the loop decides whether neighbours start in different pages |
| EspImage.FirmwareImage.Save | components/arduino/tools/esptool.py:1335-1427 | for any segments: the saved file is the image of their arrangement, as the format has it byte by byte, with its digest; each exception, and the endless loop, occurs under its own condition and under no other's |
| EspImage.FirmwareImage.Load | components/arduino/tools/esptool.py:1306-1322 | loading succeeds only for a file that holds the segments its header counts, which are then in the object, padded; each exception names a defect of the file; fields and exception are those of the format |
| EspImage.ImageIs | components/arduino/tools/esptool.py:1104-1134 | the file written for a list of segments: 0xE9, the count, the header fields and the entry point with its lowest byte first; for each segment its address and its length, lowest byte first, and its data; zeros everywhere else; 0xEF combined by exclusive or with all data in the last byte of a block of sixteen |
| EspImage.LoadExact | components/arduino/tools/esptool.py:1079-1115 | a file can be loaded if and only if it begins with 0xE9, counts at most sixteen segments, has a digest flag of 0 or 1, and holds that many segments and a checksum behind them |
| EspImage.LoadedIs | components/arduino/tools/esptool.py:1306-1322 | what is then loaded: the fields at their places, the segments padded, the checksum byte, and with a digest the up to 32 bytes behind it and the one calculated |
| EspImage.LoadRefused | components/arduino/tools/esptool.py:1079-1100 | each of the four errors is raised if and only if the file has its defect |
| EspImage.FirmwareImage.LoadSegments | components/arduino/tools/esptool.py:1313-1314 | the segments read one after the other, or the first error |
| EspImage.ReadOne | components/arduino/tools/esptool.py:1086-1108 | a segment is read back from the bytes written for it, padded as its constructor does |
| EspImage.RepaddedExact | components/arduino/tools/esptool.py:1029-1032 | padding again on loading changes nothing if and only if all lengths are multiples of four |
| EspImage.RepaddedChecksum | components/arduino/tools/esptool.py:1117-1125 | that padding does not change the calculated checksum |
| EspImage.HeadRead | components/arduino/tools/esptool.py:1429-1465 | both headers are read back with all their fields, the drive strengths cut to four bits |
| EspImage.LoadsSaved | components/arduino/tools/esptool.py:1079-1134 | loading an image gives back its segments, padded again, its header, checksum and a matching digest, or is refused for more than sixteen segments |
| EspImage.SaveThenLoad | components/arduino/tools/esptool.py:1306-1427 | whenever all pieces can be packed, with or without a digest, loading what was saved succeeds if and only if there are at most sixteen segments; it gives exactly the segments written when flash addresses are word-aligned; the checksum read equals the one calculated, which is that of the segments first saved |
| EspImage.WritableExact | components/arduino/tools/esptool.py:1110-1115 | all segments written fit the header fields, so that packing never fails, if and only if those of the finished arrangement do |
| EspImage.RangeWritable | components/arduino/tools/esptool.py:1110-1115 | that is so, whatever becomes of the arrangement, if the segments lie within the 32-bit address space |
| EspImage.PiecesPackable | components/arduino/tools/esptool.py:1110-1115 | all pieces can be packed if the segments lie within the 32-bit address space |
| EspImage.LoadableBeforehand | components/arduino/tools/esptool.py:1410-1417 | with word-aligned flash addresses, at most sixteen segments, flash ones counted twice, always give a loadable image, and up to 255 never too many |
| EspImage.IncompleteRefused | components/arduino/tools/esptool.py:1079-1115 | a saved file that lost any number of bytes before its digest is never loaded |
| EspImage.FlashMapped | components/arduino/tools/esptool.py:1365-1401 | the data of every flash segment stands in the saved file in one piece at an offset congruent to its address modulo 64 KiB |
| EspImage.ImageEnds | components/arduino/tools/esptool.py:1127-1130 | the length is a multiple of sixteen and the last byte is 0xEF combined with every byte of the input segments |
| EspImage.TrailerRead | components/arduino/tools/esptool.py:1602-1605 | the checksum is found at the position the padding leads to, and what follows is the digest |
| Slip.TwoReplacements | components/arduino/tools/esptool.py:223-227 | the two replacements in this order equal escaping byte by byte, 0xC0 as 0xDB 0xDC and 0xDB as 0xDB 0xDD |
| Slip.NoEndInside | components/arduino/tools/esptool.py:223-227 | the frame byte 0xC0 stands at both ends of a frame and nowhere inside |
| Slip.ChunksIrrelevant | components/arduino/tools/esptool.py:1558-1563 | how the port chunks the stream makes no difference up to the first empty read, where the reader times out unless it has stopped before |
| Slip.ReaderExact | components/arduino/tools/esptool.py:1549-1587 | the reader has yielded given packets and is in a given state if and only if the stream is the writer's output for them and the open frame |
| Slip.RoundTrip | components/arduino/tools/esptool.py:1549-1587 | however chunked, the frames of a packet list yield exactly these packets in order (PROTOCOL section of RFC 1055), and an empty read after them is a timeout |
| Slip.ErrorExact | components/arduino/tools/esptool.py:1568-1580 | an error is raised if and only if no list of packets starts with these bytes |
| Slip.FaultExact | components/arduino/tools/esptool.py:1568-1580 | the reader stops with given packets and a given error if and only if, behind the writer's output for them and an open frame, a byte other than 0xC0 comes between frames, or one other than 0xDC and 0xDD behind an escape |
| Slip.Reader.ReadChunk | components/arduino/tools/esptool.py:1558-1587 | one read from the port advances the reader as the specification does; an empty one is a timeout |
| PolynomialCrc.RemainderUnique | components/arduino/libraries/SD/src/sd_diskio_crc.c:52-103 | bit-by-bit division gives the remainder of the message polynomial, and only that, for any generator |
| PolynomialCrc.BurstDetected | components/arduino/libraries/SD/src/sd_diskio_crc.c:52-103 | a change within as many consecutive bits as the register has changes the remainder |
| PolynomialCrc.TwoFlips | components/arduino/libraries/SD/src/sd_diskio_crc.c:52-103 | two flipped bits leave the remainder as it is if and only if the generator, shifted on by their distance, comes back to itself |
| PolynomialCrc.FoldLong | components/arduino/libraries/SD/src/sd_diskio_crc.c:52-59 | a register may be combined with the next message bits and divided from zero |
| PolynomialCrc.FoldShort | components/arduino/libraries/SD/src/sd_diskio_crc.c:96-103 | the same for fewer bits than the register has: the step a table entry stands for |
| SdCrc.Entry7IsRemainder | components/arduino/libraries/SD/src/sd_diskio_crc.c:17-50 | each of the 256 entries is the remainder of its index by x^7+x^3+1 |
| SdCrc.Entry16IsRemainder | components/arduino/libraries/SD/src/sd_diskio_crc.c:61-94 | each of the 256 entries is the remainder of its index by x^16+x^12+x^5+1 |
| SdCrc.CRC7 | components/arduino/libraries/SD/src/sd_diskio_crc.c:52-59 | the loop computes the CRC7 of the first `length` bytes, of none for a negative length |
| SdCrc.CRC16 | components/arduino/libraries/SD/src/sd_diskio_crc.c:96-103 | the loop computes the CRC16 of the first `length` bytes, of none for a negative length |
| SdCrc.Crc7IsRemainder | components/arduino/libraries/SD/src/sd_diskio_crc.c:52-59 | a seven-bit value is the CRC7 if and only if it is the remainder of the message |
| SdCrc.Crc16IsRemainder | components/arduino/libraries/SD/src/sd_diskio_crc.c:96-103 | a value is the CRC16 if and only if it is the remainder of the message |
| SdCrc.Crc16Burst | components/arduino/libraries/SD/src/sd_diskio_crc.c:96-103 | any change within 16 consecutive bits changes the CRC16 |
| SdCrc.Crc16AdjacentBytes | components/arduino/libraries/SD/src/sd_diskio_crc.c:96-103 | any change within one byte or two adjacent bytes changes the CRC16 |
| SdCrc.Crc16OddError | components/arduino/libraries/SD/src/sd_diskio_crc.c:96-103 | any odd number of flipped bits changes the CRC16 |
| SdCrcDistance.OrderExact | components/arduino/libraries/SD/src/sd_diskio_crc.c:96-103 | a power of x is 1 modulo x^16+x^12+x^5+1 if and only if its exponent is a multiple of 32767 |
| SdCrcDistance.Crc16TwoBits | components/arduino/libraries/SD/src/sd_diskio_crc.c:96-103 | two flipped bits leave the CRC16 as it is if and only if their distance is a multiple of 32767 bits |
| SdCrcDistance.Crc16SectorTwoBits | components/arduino/libraries/SD/src/sd_diskio_crc.c:96-103 | two flipped bits in at most 4095 bytes, such as a sector with its check field, always change the CRC16 |
| SdCrc.Crc7Burst | components/arduino/libraries/SD/src/sd_diskio_crc.c:52-59 | any change within seven consecutive bits changes the CRC7 |
| SdCrc.Crc16CheckField | components/arduino/libraries/SD/src/sd_diskio_crc.c:96-103 | a block followed by two bytes has CRC 0 if and only if they are its CRC, high byte first |
| Base64.ValueOfLetter | components/arduino/cores/esp32/libb64/cdecode.c:11-17 | every letter of the alphabet decodes to its six bits |
| Base64.LetterStandard | components/arduino/cores/esp32/libb64/cencode.c:19-26 | the 64 letters are those of Table 1 of RFC 4648 |
| Base64.ValueStandard | components/arduino/cores/esp32/libb64/cdecode.c:11-17 | of the 256 characters, those 64 decode to their six bits, `{` to what stands behind the table, and all others are skipped |
| Base64.ValueDefined | components/arduino/cores/esp32/libb64/cdecode.c:11-17 | the look-up stays inside the table if and only if the character is not `{` |
| Base64.DecodeDefined | components/arduino/cores/esp32/libb64/cdecode.c:24-79 | from any state the result is independent of the memory behind the table if and only if the text has no `{` |
| Base64.EncodeResumes | components/arduino/cores/esp32/libb64/cencode.c:36-78 | however the bytes are cut into blocks, from any state, text and final state are the same |
| Base64.DecodeResumes | components/arduino/cores/esp32/libb64/cdecode.c:29-76 | the same for decoding |
| Base64.RoundTrip | components/arduino/cores/esp32/libb64/cdecode.c:24-87 | decoding the full output, line feeds and padding included, gives exactly the original bytes |
| Base64.Format | components/arduino/cores/esp32/libb64/cencode.c:28-111 | without line feeds the output is the encoding of section 4 of RFC 4648, with the alphabet of its Table 1; line feeds stand exactly after each 72 characters; the length is the expected one plus n/54 |
| Base64.ExpectedLengthIsQuads | components/arduino/cores/esp32/libb64/cencode.h:11-11 | the macro gives four characters for each started group of three bytes |
| Base64.BitsConserved | components/arduino/cores/esp32/libb64/cdecode.c:29-76 | six bits per letter go in, eight per byte come out, and the rest is in the state |
| Base64.Advance | components/arduino/cores/esp32/libb64/cencode.c:38-78 | one byte moves the coder one step and writes what the specification says, nothing else |
| Base64.EncodeBlock | components/arduino/cores/esp32/libb64/cencode.c:28-81 | the loop appends the text of the block and leaves the state for the next one; other memory is unchanged |
| Base64.EncodeBlockEnd | components/arduino/cores/esp32/libb64/cencode.c:83-103 | writes the padding and the terminator |
| Base64.EncodeChars | components/arduino/cores/esp32/libb64/cencode.c:105-111 | writes the whole text and its terminator |
| Base64.TakeSix | components/arduino/cores/esp32/libb64/cdecode.c:42-74 | the four cases update the byte under construction as the specification does |
| Base64.DecodeBlock | components/arduino/cores/esp32/libb64/cdecode.c:24-79 | the loop writes the decoded bytes, using one position more than it returns, and leaves the state for the next block |
| Base64.DecodeChars | components/arduino/cores/esp32/libb64/cdecode.c:81-87 | decodes a whole text; a terminator is written unless nothing was decoded |
| SdTransfer.AddressExact | components/arduino/libraries/SD/src/sd_diskio.cpp:317-317 | the 32-bit command argument, a block number for SDHC cards and a byte offset for others, reaches the intended block if and only if the sector is within the capacity |
| SdTransfer.ReadSectors | components/arduino/libraries/SD/src/sd_diskio.cpp:233-267 | terminates for every sequence of answers and any count; for a positive one it returns true if and only if no command was refused and there were never three failures in a row; then, within the capacity, the buffer holds exactly the requested sectors in order; a negative one never succeeds |
| SdTransfer.PassStores | components/arduino/libraries/SD/src/sd_diskio.cpp:306-373 | one pass stores only blocks of the request and keeps what is stored before the cursor |
| SdTransfer.WriteSafe | components/arduino/libraries/SD/src/sd_diskio.cpp:298-376 | if the card never over-reports, every run that returns true has stored every block in its place, across any number of retries and backward restarts, and no run writes outside the request |
| SdTransfer.RestartNeedsPrefix | components/arduino/libraries/SD/src/sd_diskio.cpp:362-364 | that condition is needed: after a restart past a missing block a faultless pass returns true without it |
| SdTransfer.FaultlessSucceeds | components/arduino/libraries/SD/src/sd_diskio.cpp:306-340 | a pass without faults returns true with everything stored |
| SdTransfer.RunExact | components/arduino/libraries/SD/src/sd_diskio.cpp:298-376 | whatever the card reports, the blocks in place after a run are exactly those one of its passes has written, from the block last reported on, and those that were there before |
| SdTransfer.OutcomeExact | components/arduino/libraries/SD/src/sd_diskio.cpp:298-376 | read off the answers alone: a run returns true if and only if some pass has all its blocks accepted, the card ready and its status clean, each earlier pass having been interrupted by 0x0A with the card ready and stopped, and never three in a row of which the last two accepted no block; it is unfinished if and only if all passes were so interrupted, goes past the buffer if and only if such a pass is reached with no block left, and returns false in all other cases |
| SdTransfer.Livelock | components/arduino/libraries/SD/src/sd_diskio.cpp:348-365 | for two blocks or more and any kind of card, there are answers without over-reports that keep the loop going for any number of passes |
| SdTransfer.EndsExact | components/arduino/libraries/SD/src/sd_diskio.cpp:306-373 | the loop is sure to end, for all answers without over-reports, if and only if the request is at most one block, and then after three passes |
| SdTransfer.SendBlocks | components/arduino/libraries/SD/src/sd_diskio.cpp:318-326 | the inner loop sends up to the first block not accepted and counts tries without progress |
| SdTransfer.WriteSectors | components/arduino/libraries/SD/src/sd_diskio.cpp:298-376 | for any answers and any count the loop does what the specification of a run says, on the card's disk, including going on past the end of the buffer after an over-report or for a count of zero or below; its result is true, false, or none exactly under the conditions on the answers; if no report goes beyond what is stored, true means that everything is |
| SdTransfer.SingleOutcome | components/arduino/libraries/SD/src/sd_diskio.cpp:269-296 | a single-sector write returns true if and only if one of three tries is answered by a token other than 0x0A and 0x0C with a clean status, and those before it by 0x0A; the block is stored if and only if one of these tries is answered by 0x05 |
| SdTransfer.WriteSector | components/arduino/libraries/SD/src/sd_diskio.cpp:269-296 | the loop does exactly that |
| SdTransfer.SingleExact | components/arduino/libraries/SD/src/sd_diskio.cpp:269-296 | when true is returned, the block is on the card if and only if it was there before or the deciding token was 0x05 |
| SdTransfer.FileSystemWriteLoses | components/arduino/libraries/SD/src/sd_diskio.cpp:594-613 | for every transfer of several blocks there are answers for which success is reported with the second block missing |
| SdTransfer.FileSystemWriteExact | components/arduino/libraries/SD/src/sd_diskio.cpp:594-613 | when success is reported, everything is stored if and only if each block was written in a pass of the multi-sector write, or was there before, or is the first and was accepted by the token 0x05 at the deciding single-sector try |
| SdTransfer.FileSystemWriteStores | components/arduino/libraries/SD/src/sd_diskio.cpp:594-613 | in particular whenever the multi-sector write itself returned true |
| SpiClock.UnpackPack | components/arduino/cores/esp32/esp32-hal-spi.c:1009-1018 | the fields are read back from the register word |
| SpiClock.WordFrequency | components/arduino/cores/esp32/esp32-hal-spi.c:1009-1026 | a word runs at the clock divided by one more than bits 18 to 30 and by one more than bits 12 to 17, whatever is in its other bits |
| SpiClock.CandidatesSuffice | components/arduino/cores/esp32/esp32-hal-spi.c:1053-1073 | for a counter value, no pre-scaler beats the two candidates next to the quotient |
| SpiClock.TryCounter | components/arduino/cores/esp32/esp32-hal-spi.c:1053-1073 | after the inner loop no setting with this counter value beats the best one |
| SpiClock.FrequencyToClockDiv | components/arduino/cores/esp32/esp32-hal-spi.c:1028-1080 | outside the range of the divider the result is one of the fixed words; otherwise it is the word of a setting with half its counter period in the lowest six bits, the counter from bit 12 and the pre-scaler from bit 18; its frequency is not above the request, no setting with N in 1..63 and any pre-scaler comes closer from below, and none with a smaller N comes as close |
| SpiClock.ServedMonotone | components/arduino/cores/esp32/esp32-hal-spi.c:1028-1080 | a higher request never gives a slower bus, fixed registers included |
| SpiClock.ServedRange | components/arduino/cores/esp32/esp32-hal-spi.c:1028-1080 | the frequency lies between the slowest setting and the clock, and not above the request unless that is below the slowest setting |
| SpiClock.ServedExact | components/arduino/cores/esp32/esp32-hal-spi.c:1028-1080 | a request is met exactly if and only if it is the clock itself or a setting of the search reaches it |
| SpiClock.ConversionsReproduce | components/arduino/cores/esp32/esp32-hal-spi.c:1022-1080 | converting any register word to a frequency and back keeps the frequency if and only if the counter is not zero, or the clock is not divided, or a setting of the search has this frequency |
| Cbuf.Conserved | components/arduino/cores/esp32/cbuf.cpp:38-196 | over whole runs, what was there and what was stored is what was taken followed by what is left |
| Cbuf.CircularBuffer.constructor | components/arduino/cores/esp32/cbuf.cpp:23-26 | a new buffer is an empty queue with the given capacity |
| Cbuf.CircularBuffer.Available | components/arduino/cores/esp32/cbuf.cpp:72-78 | the number of bytes held |
| Cbuf.CircularBuffer.Room | components/arduino/cores/esp32/cbuf.cpp:85-91 | the capacity less the bytes held |
| Cbuf.CircularBuffer.PeekBytes | components/arduino/cores/esp32/cbuf.cpp:102-117 | copies the first min(n, held) bytes across the wrap and changes nothing |
| Cbuf.CircularBuffer.ReadBytes | components/arduino/cores/esp32/cbuf.cpp:130-145 | takes the first min(n, held) bytes |
| Cbuf.CircularBuffer.WriteBytes | components/arduino/cores/esp32/cbuf.cpp:158-173 | appends the first min(n, room) bytes |
| Cbuf.CircularBuffer.RemoveBytes | components/arduino/cores/esp32/cbuf.cpp:181-196 | drops the first min(n, held) bytes and returns how many are left |
| Cbuf.CircularBuffer.Reallocate | components/arduino/cores/esp32/cbuf.cpp:38-70 | the buffer stays usable if and only if the argument plus one differs from the bytes held; then contents and order are kept and only the capacity changes |
| Cbuf.CircularBuffer.ReallocateAdd | components/arduino/cores/esp32/cbuf.cpp:33-36 | the same for a size increment |
| Cbuf.CircularBuffer.DoAll | components/arduino/cores/esp32/cbuf.cpp:23-196 | any sequence of calls without the breaking argument answers as the bounded queue does |
| StableSort.SortedCorrect | components/arduino/tools/gen_esp32part.py:106-106 | sorting permutes and orders |
| StableSort.SortedStable | components/arduino/tools/gen_esp32part.py:106-106 | elements with equal keys keep their order |
| StableSort.PairsSorted | components/arduino/tools/gen_esp32part.py:106-111 | a relation between earlier and later sorted elements, in terms of the order before sorting |
| StableSort.PairsRearranged | components/arduino/tools/gen_esp32part.py:106-111 | a symmetric relation between all pairs does not depend on the order of the elements |
| PartitionTables.FixedUpExact | components/arduino/tools/gen_esp32part.py:75-87 | the fix-up is the only result in which given offsets stay, open ones are the least multiple of 64 KiB, or of four for types other than 0, behind the entry before or behind 0x5000, and negative sizes become end addresses |
| PartitionTables.PartitionTable.FixUp | components/arduino/tools/gen_esp32part.py:75-87 | the loop leaves the table fixed up |
| PartitionTables.FixEntry | components/arduino/tools/gen_esp32part.py:78-84 | the same for one entry |
| PartitionTables.NeighboursSuffice | components/arduino/tools/gen_esp32part.py:104-111 | comparing neighbours in order of offset decides the condition on all pairs, whatever the sizes |
| PartitionTables.ApartExact | components/arduino/tools/gen_esp32part.py:104-111 | no byte of an accepted table belongs to two partitions; for positive sizes the overlap check passes if and only if no byte does |
| PartitionTables.PartitionTable.Verify | components/arduino/tools/gen_esp32part.py:100-111 | accepted if and only if all offsets are set, aligned and behind the table and all pairs are apart; otherwise the first problem is named |
| PartitionTables.CheckOverlap | components/arduino/tools/gen_esp32part.py:104-111 | the verdict of the second loop on all pairs |
| PartitionTables.AppendsAccepted | components/arduino/tools/gen_esp32part.py:75-111 | a table written in order is accepted after the fix-up |
| PartitionTables.OpenOffsetsAccepted | components/arduino/tools/gen_esp32part.py:75-111 | in particular one with all offsets open and no negative size |
| PartitionTables.SwapExact | components/arduino/tools/gen_esp32part.py:109-110 | swapping two lines changes the answer if and only if both start at the same offset and just one of them has bytes |
| PartitionTables.OrderExact | components/arduino/tools/gen_esp32part.py:100-111 | rearranging the lines can change the verdict if and only if the table is otherwise in order, all pairs can be apart, and some empty partition starts where one with bytes does |
| PartitionTables.LenientOrder | components/arduino/tools/gen_esp32part.py:104-111 | listing empty partitions first gives the most lenient answer |
| PartitionTables.NegativeExact | components/arduino/tools/gen_esp32part.py:83-84 | the fix-up leaves a size negative if and only if it stands for an end address below the start |
| PartitionTables.SizesExact | components/arduino/tools/gen_esp32part.py:75-87 | the sizes of a table come out non-negative if and only if no end address is below the start its entry is given |
| PartitionTables.NegativeSizeAccepted | components/arduino/tools/gen_esp32part.py:75-111 | a single entry with open offset passes the check whatever its size |
| PartitionBinary.EntryRound | components/arduino/tools/gen_esp32part.py:257-289 | reading an entry back loses only what the name field cannot hold |
| PartitionBinary.ClipExact | components/arduino/tools/gen_esp32part.py:266-267 | a name survives if and only if it has at most sixteen characters and no zero |
| PartitionBinary.ToBinaryExact | components/arduino/tools/gen_esp32part.py:125-130 | writing succeeds if and only if all fields fit and there are at most 95 entries |
| PartitionBinary.TableRound | components/arduino/tools/gen_esp32part.py:113-130 | a written table is read back entry by entry; exactly, if and only if all names fit |
| PartitionBinary.IncompleteRefused | components/arduino/tools/gen_esp32part.py:113-123 | a table cut off before the end of its end marker is refused, and the error tells whether it was cut between entries |
| PartitionBinary.ReadWriteRead | components/arduino/tools/gen_esp32part.py:113-130 | a table that was read can be written if it has at most 95 entries, and is read again the same |
| PartitionBinary.ReadTable | components/arduino/tools/gen_esp32part.py:113-123 | the loop reads entries up to the end marker, or gives the first error |
| PartitionBinary.FromBinaryExact | components/arduino/tools/gen_esp32part.py:113-123 | a table is read as given entries if and only if slots of 32 bytes hold them, each with 0xAA 0x50, type, subtype, offset and size lowest byte first, the name up to its first zero, and the flag in bit 0, and the next slot is all 0xFF |
| PartitionBinary.RefusedExact | components/arduino/tools/gen_esp32part.py:113-123 | a table is refused if and only if, behind slots that hold entries, there is nothing, or less than 32 bytes, or a slot that is not all 0xFF with a name that is not ASCII in front of its first zero or else without 0xAA 0x50; which of these it is names the error |
| PartitionBinary.WrittenExact | components/arduino/tools/gen_esp32part.py:125-130 | a written table has 3072 bytes: its entries as above, with zeros behind each name and no other flags, and 0xFF from there on |
| PartitionCsv.KeywordParsed | components/arduino/tools/gen_esp32part.py:317-332 | a keyword stands for its number, in upper or lower case |
| PartitionCsv.AppNumbers | components/arduino/tools/gen_esp32part.py:147-178 | the subtypes of an application are factory 0, test 32, and ota_n for n below 16 as 16 + n, and no others |
| PartitionCsv.KeywordNumbers | components/arduino/tools/gen_esp32part.py:141-165 | types and data subtypes have the numbers of the tables, and no other type has subtypes |
| PartitionCsv.SuffixParsed | components/arduino/tools/gen_esp32part.py:321-324 | a suffix k or m, in either case, multiplies by 1024 or its square |
| PartitionCsv.FlagsExact | components/arduino/tools/gen_esp32part.py:203-208 | a flag field is accepted if and only if every part is the known flag or empty, and says whether the flag is there |
| PartitionCsv.KeywordRound | components/arduino/tools/gen_esp32part.py:299-303 | a type or subtype is read back, by keyword or by number |
| PartitionCsv.AddrRound | components/arduino/tools/gen_esp32part.py:292-332 | an address or size is read back if and only if it is not negative, or round and written with a suffix; otherwise refused |
| PartitionCsv.KeywordForm | components/arduino/tools/gen_esp32part.py:299-303 | a keyword is written wherever there is one, and a number otherwise and always with simple formatting |
| PartitionCsv.AddrForm | components/arduino/tools/gen_esp32part.py:292-297 | a size ends with M if and only if it is a multiple of 1 MiB, with K if and only if of 1 KiB but not of that, neither with simple formatting; everything else is hexadecimal |
| PartitionCsv.OmittedFields | components/arduino/tools/gen_esp32part.py:191-210 | subtype, offset and flags may be left empty and take their defaults |
| PartitionCsv.MissingFields | components/arduino/tools/gen_esp32part.py:200-231 | a line that ends before the type or the size is refused |
| PartitionCsv.LineAccepted | components/arduino/tools/gen_esp32part.py:188-210 | a line is accepted as a given entry if and only if its fields say so: name, type, subtype or nothing, offset or nothing, size, and no unknown flag |
| PartitionCsv.LineRound | components/arduino/tools/gen_esp32part.py:188-314 | a written line whose name is one field is read back as the same entry if its offset and size can be written, and refused otherwise |
| PartitionCsv.LineExact | components/arduino/tools/gen_esp32part.py:188-314 | a written line is read back as the same entry if and only if its name has no comma and no white space around it, and its offset and size can be written |
| PartitionCsv.ReadCsv | components/arduino/tools/gen_esp32part.py:51-87 | the loop reads the lines, skipping blank and comment lines, and fixes the table up, or gives the first error |
| PartitionCsv.LinesAccepted | components/arduino/tools/gen_esp32part.py:58-72 | a text is read if and only if each line is, after replacing variables and stripping, blank, a comment, or a line that is accepted |
| PartitionCsv.LinesRefused | components/arduino/tools/gen_esp32part.py:58-72 | otherwise the first line that is none of these names the error |
| PartitionCsv.CsvRound | components/arduino/tools/gen_esp32part.py:51-136 | reading the text of a table gives the same entries in the same order, in both formattings |
| PartitionCsv.CsvExact | components/arduino/tools/gen_esp32part.py:51-136 | for names without variables, the text of a table gives its entries, fixed up, if and only if no name has a comma, a line break, a leading `#` or white space around it, and all offsets and sizes can be written |
| Texts.DecimalRound | components/arduino/tools/gen_esp32part.py:303-325 | a number written in decimal is read back |
| Texts.HexRound | components/arduino/tools/gen_esp32part.py:297-325 | a number written in hexadecimal is read back if and only if it is not negative |
| Texts.LiteralExact | components/arduino/tools/gen_esp32part.py:325-325 | a text is a number, and which, if and only if it is a literal of section 2.4.5 of the Python language reference, with a sign and white space around it allowed; digits are weighted by their place |
| Texts.StripTakes | components/arduino/tools/gen_esp32part.py:64-64 | stripping takes away white space at both ends and nothing else |
| Texts.SplitJoin | components/arduino/tools/gen_esp32part.py:192-314 | splitting undoes joining for fields without the separator |
| Texts.JoinSplit | components/arduino/tools/gen_esp32part.py:192-192 | and joining undoes splitting, into fields without the separator |
| Texts.LinesUnlines | components/arduino/tools/gen_esp32part.py:54-136 | splitting into lines undoes joining them |
| Texts.BreaksAndSpaces | components/arduino/tools/gen_esp32part.py:54-64 | which ASCII characters break lines, and which others are stripped |
| Texts.LinesExact | components/arduino/tools/gen_esp32part.py:54-54 | a line ends at each break, of which carriage return and line feed together are one |

## Left out

- FifoProtocol: `_w` and `_r` are plain ints in the source; memory accesses are taken to be sequentially consistent, and element copies to be one cell at a time.
- Fifo.TinyGsmFifo.PutAll: for byte elements, as in the driver; the waiting form is modelled in FifoProtocol only, where waiting is a repeated step; `clear` during concurrent use is not modelled.
- GsmClient.Client.Read: the modem is abstract (at most the bytes asked for, a bounded number of unanswered fetches); the FIFO must have at least two cells; the AT text protocol, multiple sockets, hexadecimal mode and the timer of `available` are not modelled.
- EspImage.FirmwareImage.Save: stops with an outcome of its own where the source would loop for ever; files are byte sequences, SHA-256 is any function, and SaveThenLoad needs it to give 32 bytes when a digest is appended.
- EspImage.SaveThenLoad: when some piece cannot be packed, which Save reports, there is no file to load.
- EspLayout.NoRamExact: with RAM segments and flash addresses that are not multiples of four, whether the loop ends depends on where the cuts fall; EndlessExact then gives the condition on the state reached, not on the input, and EndsForAllRam says when no RAM segments lead there.
- EspLayout.AssertionFreeExact: for word-aligned flash addresses; with others the file position modulo four depends on where the cuts fall, and AssertionExact gives the condition for each iteration.
- EspContent.PiecesCounted: for word-aligned flash addresses only; without, short paddings may be needed more than once.
- SdTransfer.ReadSectors: reading past the end of the buffer, which happens only for a count of zero or below, is an outcome of its own; the source's only caller passes more than one (sd_diskio.cpp:576-592). A block delivered with a good CRC is taken to be the block on the card; SPI transport, card selection, time-outs and card initialisation are part of the answers.
- SdTransfer.WriteSectors: the answers of the card are a script; a run that outlasts its script has no result, and what is written past the end of the buffer is not modelled. A pass in which all blocks are accepted, the card becomes ready and SEND_STATUS is clean is taken to have stored them all.
- SpiClock.FrequencyToClockDiv: holds for any clock from 2^19 Hz to below 2^31 Hz, the source's being 80 MHz; a frequency of at least the clock or below the slowest setting gives the fixed register words.
- Base64.DecodeBlock: the byte stored between groups is whatever the output buffer holds; the model keeps no value for it because no bit of it is used.
- Cbuf.CircularBuffer.Reallocate: a failing allocation is not modelled, nor is the `next` pointer.
- PartitionTables.PartitionTable.FixUp: entries are values; sharing of entry objects between tables is not modelled, and type, subtype and size are always set, as both readers guarantee.
- PartitionBinary.ReadTable: names are ASCII; any byte above 127 in a name is reported as undecodable although UTF-8 might accept it.
- PartitionCsv.CsvExact: for names without `$`; what a name with one comes to depends on the environment, which is a function that leaves text without `$` alone. Names are ASCII.
- SpiClock.TryCounter: which of several pre-scalers with the same counter and the same frequency is taken is not stated.
- Texts.DecimalRound: digit separators (`_`) in numbers and non-ASCII digits and white space are not accepted.
- EspImage: the warning about unusual reserved header bytes, the ESP8266 image formats, ELF files, and the serial protocol above SLIP.
- The application in `main/`, the AT command functions, the other hardware drivers, FatFs glue and network libraries: their behaviour depends on hardware and services that are not part of this model.
- Messages printed, file access, command lines, `printFloat`, `dtostrf` and other floating-point code.
