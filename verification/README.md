# Verified models of the Dialog SDK host tools

The SDK's host-side tools build firmware images, lay them out in flash, send them to a device and
test the radio stack. This project models the five that compute something hard and proves what each
is for. Every program part that changes state is a method or a class with loops over the same
variables as the original, proved against a specification; the lemmas then say what that
specification guarantees. What is written for someone else to read (images, files, messages, command
lines) is also read back by a reader of its own, which takes every field from its place in figures.

- **Crc32** - the CRC-32 of the image builder (`libmkimage`). The table loop is the bit-at-a-time
  definition of RFC 1952, with its check value and its residue, and every change inside a window of
  four bytes is detected.
- **ImageSections**, **ImageBuilder** - type-length-value sections, the image header and the two
  public builders. The bytes signed are the bytes shipped, although the image is signed before and
  after it is laid out, and a loader reads out of it the key, curve and hash that were asked for.
- **UartLink** - the framed UART link of the FTDF test tool: the sender, and the receiver thread over
  a byte stream that arrives in pieces. Whatever arrives and however it is cut up, nothing is queued but
  the payloads of intact frames that stand in the stream; frames are lost and found again as stated, and
  it dies exactly at one kind of header.
- **Fields**, **PayloadIEs**, **Tables**, **PibAttributes**, **Params**, **Layouts** - its message codec:
  schemas whose sizes depend on fields read before, nested counted lists, padding and normalisation.
  Parsing undoes serializing for every schema of the modelled kinds, and `Layouts` says where every field
  stands.
- **UsbCommands**, **UsbProtocol**, **UsbWire**, **UsbUpdater**, **UsbRuns** - the stop-and-wait firmware update over USB. The
  device is any function of what has happened so far, and any write may fall short; each run leaves a
  trace that obeys a protocol with its block boundaries, and what follows holds of every such trace.
  `UsbWire` reads the command lines off the wire, and `UsbRuns` holds runs in which the code's surprises show.
- **MultiImage** - the multi-part flash file, with its 32-bit positions, padding and rewritten header, whose
  pointers lead to the images.
- **LogStats**, **LogTotals**, **LogRuns**, **LogReport** - the statistics of a test log, from its lines to the JUnit
  report and the exit code.
- **Bytes**, **Buffers** - little-endian integers, slices, bitwise operators on naturals and buffers written piece by piece.

## Where code and description differ

The models follow the code.

- `sdk/tools/ftdf_dts/dts.py:959-964` describes the padding as added if necessary; the code always adds
  one to four bytes, four when the data is already aligned (`Fields.PadLength`).
- `sdk/tools/ftdf_dts/dts.py:875-878` and `:923`: outside the PIB the getter stores the bytes of a
  sub-element under `content`, while the setter reads `subContent`. What was received can therefore be
  sent on exactly when no sub-element carries bytes (`PayloadIEs.DecodedIsExact`;
  `PayloadIEs.ReceivedListIsRefused` is a list that cannot).
- `sdk/tools/ftdf_dts/dts.py:162-170`: a frame sent again for want of an acknowledgement is queued again by
  the receiver, so payloads arrive once each exactly when every first attempt is acknowledged
  (`UartLink.OnceIfAcknowledged`, `UartLink.UnacknowledgedArrivesTwice`).
- `sdk/utilities/suousb_host/host_usb_updater.c:747-758`: a line that arrives with the last retry counts
  as a timeout (`UsbUpdater.WaitedInTime`, `UsbUpdater.LateIsTooLate`, `UsbRuns.LateAnswerIsAnError`).
- `sdk/utilities/suousb_host/host_usb_updater.c:1084-1104`: a length that does not match is answered with an
  abort, but the end command is sent all the same. A successful run has sent an abort exactly when the
  reported length was wrong (`UsbProtocol.AbortIffWrongLength`, `UsbRuns.WrongLengthSucceeds`).
- `sdk/utilities/suousb_host/host_usb_updater.c:847` halves the buffer size: with an odd buffer a full block
  carries one byte fewer than announced (`UsbProtocol.BlockMatchesLength` gives the exact condition,
  `UsbRuns.OddBufferFallsShort` a run).
- `sdk/utilities/suousb_host/host_usb_updater.c:966-994`: a block whose first write falls short is acknowledged
  and sent again without limit. The loop ends for every device if only finitely many writes are
  disturbed, and with a device that acknowledges every block it takes at least as many turns as the
  line reports in a row that nothing was written, however many those are (`UsbUpdater.SendBulk`).
- `sdk/utilities/suousb_host/host_usb_updater.c:904-905` and `:1212`: the buffer size is the device's answer
  converted to an unsigned number, and the size of the format buffer is computed from it in 32 bits. From a buffer size
  of 0xFFFFFF9C on it wraps to at most 98 bytes, and the first data command of every image is written
  past it (`UsbUpdater.FormatBufferFits`, `UsbRuns.WhenItOverruns`, `UsbRuns.FirstCommandOverruns`). The answer
  `-1` is such a size (`UsbRuns.MinusOneOverruns`). Chunks of more than 2^30 bytes leave the range of the
  `int` that indexes the hex buffer. All other sizes stay inside their buffers (`UsbUpdater.DoFirmwareUpdate`).
- `sdk/utilities/mkimage/mkimage.c:516` refuses large offsets only, so a negative argument becomes an offset just below
  2^32, and `:732`, `:765`, `:793` and `:820` compare offsets with a position cast to 32 bits. Past 2^32 the
  tests pass although the parts overlap; the parts fit exactly when the tests pass and no position
  tested has reached 2^32 (`MultiImage.FitsExactly`). The arguments -64 -32 -16 succeed without fitting
  (`MultiImage.NegativeOffsetsPass`), -64 0 64 write the product header twice (`MultiImage.HeaderTwice`).
- `sdk/utilities/libmkimage/mkimage.c:546-564`: a 52nd recognised key is stored past the 256-byte record
  (`ImageSections.FillKeyRecord`; `ImageBuilder.CreateSingleSecureImage` says when a run comes to that).
- `sdk/tools/ftdf_dts/dts.py:92-126`: a header that declares a length of 4 leaves no byte for the checksum, and
  taking the last byte of nothing ends the receiver thread. That is the only way it ends
  (`UartLink.DeadIffEmptyMessage`).
- `sdk/utilities/mkimage/mkimage.c:750` presets six bytes from the two-byte pad field on and so reaches into
  the configuration offset, which the next statement stores; the finished header is not affected
  (`MultiImage.FillProductHeader`).
- `sdk/tools/ftdf_dts/parse_logs.py:322-361`: a log without any result makes the exit code computation raise
  when a percentage or a minpass above 1 is asked for, and the JUnit report before it raises for a script
  with too few runs or no group in its name (`LogReport.ExitCode`).
- `sdk/tools/ftdf_dts/parse_logs.py:279-306` looks at the first `iterations` runs of a script only, so the report
  can show a failure where the exit code is 0, but not the other way round (`LogReport.CleanMeansPasses`,
  `LogReport.ReportAndCodeDisagree`).

## Model

| member | source | states |
|---|---|---|
| Bytes.LeDigits | sdk/utilities/libmkimage/mkimage.c:440-463 | byte i of a little-endian integer is its i-th digit to the base 256 |
| Bytes.XorBits | sdk/tools/ftdf_dts/dts.py:36-40 | a bit of the exclusive or is set where exactly one of the two is |
| Bytes.OrBits | sdk/tools/ftdf_dts/dts.py:152 | a bit of the or is set where at least one of the two is |
| Crc32.ComputeCrc32 | sdk/utilities/libmkimage/mkimage.c:308-317 | the table-driven loop returns, for every byte sequence, the bit-at-a-time reflected CRC of section 8 of RFC 1952, whose definition uses no table |
| Crc32.TableIsShift8 | sdk/utilities/libmkimage/mkimage.c:36-80 | each of the 256 table constants is eight polynomial shift steps of its index |
| Crc32.TableStepIsStep | sdk/utilities/libmkimage/mkimage.c:312-314 | looking up the low byte and shifting the rest down equals eight shift steps of the whole register, for every register and byte |
| Crc32.FeedByte | sdk/utilities/libmkimage/mkimage.c:308-317 | feeding the eight bits of a byte one at a time, low bit first, equals one byte step |
| Crc32.FeedBitsIsRun | sdk/utilities/libmkimage/mkimage.c:308-317 | for every message the bitwise register equals the bytewise one |
| Crc32.Shift8Xor | sdk/utilities/libmkimage/mkimage.c:36-80 | the eight-step shift is linear over exclusive or |
| Crc32.Shift8Injective | sdk/utilities/libmkimage/mkimage.c:308-317 | two registers with the same eight-step shift are equal |
| Crc32.RunInjective | sdk/utilities/libmkimage/mkimage.c:308-317 | two registers that reach the same state over the same bytes were equal: the rest of the loop never merges states |
| Crc32.RunIsPacked | sdk/utilities/libmkimage/mkimage.c:308-317 | running a window of at most four bytes is shifting the register xored with those bytes, once per byte |
| Crc32.BurstIsDetected | sdk/utilities/libmkimage/mkimage.c:308-317 | two messages that differ only inside a window of at most four bytes, at any position and length, never have the same CRC |
| Crc32.ByteChangeIsDetected | sdk/utilities/libmkimage/mkimage.c:308-317 | two equal-length messages that differ in exactly one byte never have the same CRC |
| Crc32.CheckValue | sdk/utilities/libmkimage/mkimage.c:308-317 | the CRC of the text 123456789 is 0xCBF43926 |
| Crc32.ResidueIsConstant | sdk/utilities/libmkimage/mkimage.c:308-317 | every message followed by its own CRC, low byte first, has the CRC 0x2144DF1C |
| Crc32.LeadingZeroCounts | sdk/utilities/libmkimage/mkimage.c:310-316 | the CRC of nothing is 0, and a zero byte in front of any message changes its CRC |
| ImageSections.PutTlv | sdk/utilities/libmkimage/mkimage.c:328-344 | put_tlv writes exactly one record at the cursor, returns the position after it and leaves the rest of the buffer alone |
| ImageSections.FirstBack | sdk/utilities/libmkimage/mkimage.c:328-344 | a record is read back with its type and value whatever follows it |
| ImageSections.ParseFirst | sdk/utilities/libmkimage/mkimage.c:328-344 | a byte string that starts with a record parses as that record followed by the parse of the rest |
| ImageSections.FillKeyRecord | sdk/utilities/libmkimage/mkimage.c:546-564 | the record buffer holds five bytes per recognised key, in order; unrecognised keys are skipped; a store past the 256 bytes comes exactly with more than 51 recognised keys |
| ImageSections.RecognisedKept | sdk/utilities/libmkimage/mkimage.c:551-559 | public and symmetric keys are kept in their order |
| ImageSections.OtherSkipped | sdk/utilities/libmkimage/mkimage.c:556-559 | a key of another type makes no difference, wherever it stands |
| ImageSections.FillAdminPayload | sdk/utilities/libmkimage/mkimage.c:545-595 | the inner records are the key revocation record (if any key is recognised), the version and the optional minimum version; an overrun exactly with more than 51 recognised keys, and otherwise a refusal exactly when a wanted minimum version cannot be parsed |
| ImageSections.FillDeviceAdministrationSection | sdk/utilities/libmkimage/mkimage.c:528-600 | the buffer starts with exactly the section; no size exactly after an overrun of the key record, and otherwise 0 exactly for an unparsable minimum version |
| ImageSections.AdminDecodes | sdk/utilities/libmkimage/mkimage.c:532-600 | decoding the section as nested records by their type numbers, whatever follows it, recovers exactly the recognised revoked keys in order, the version and the optional minimum version; the records come in ascending order of their types |
| ImageSections.UnKeysBack | sdk/utilities/libmkimage/mkimage.c:551-564 | the key revocation record decodes to the keys it was written from |
| ImageSections.FillSecuritySection | sdk/utilities/libmkimage/mkimage.c:602-616 | the buffer starts with exactly the security section, 15 bytes longer than the signature |
| ImageSections.SignatureAtEnd | sdk/utilities/libmkimage/mkimage.c:958-959 | writing a signature of equal length over the end of a security section gives the section that would have been built for that signature |
| ImageBuilder.VersionField | sdk/utilities/libmkimage/mkimage.c:248-262 | the field holds the version without a leading v_, cut to fifteen characters, then a zero byte, and 0xff up to its sixteen bytes |
| ImageBuilder.VersionReadsBack | sdk/utilities/libmkimage/mkimage.c:248-262 | read as a C string, the field gives the version without its prefix, cut to fifteen characters |
| ImageBuilder.VersionShows | sdk/utilities/libmkimage/mkimage.c:248-262 | for every text, v_ before it is not shown, and otherwise its first fifteen characters are |
| ImageBuilder.CreateImage | sdk/utilities/libmkimage/mkimage.c:430-526 | BUFFER_TOO_SMALL exactly when header, extension and stored code exceed the buffer; on success the buffer starts with header, extension and stored code and is otherwise unchanged |
| ImageBuilder.FillHeader | sdk/utilities/libmkimage/mkimage.c:440-463 | storing the fields one by one into a buffer preset to 0xff gives the packed header |
| ImageBuilder.CreateSingleImage | sdk/utilities/libmkimage/mkimage.c:708-764 | each status exactly when its cause holds, never BUFFER_TOO_SMALL; on success the output is exactly header and stored code, filling the computed size, plain or encrypted |
| ImageBuilder.PlainImageReadsBack | sdk/utilities/libmkimage/mkimage.c:445-463 | a plain image of any length: the stored exec location is the index where the code starts, the stored CRC is that of the bytes found there, and the stored size is right exactly when it is below 2^32 |
| ImageBuilder.ImageReadsBack | sdk/utilities/libmkimage/mkimage.c:440-516 | plain or encrypted and of any length: the exec location is the index of the stored code, whole blocks of 16 bytes if encrypted; with the cipher undone, the code is found there, filled up with zeros, and for codes below 2^32 bytes the stored size and CRC describe it |
| ImageBuilder.HeaderFields | sdk/utilities/libmkimage/mkimage.c:440-463 | code size, timestamp and exec location modulo 2^32, CRC, version and signature are read back from the front of any image |
| ImageBuilder.PatternSize | sdk/utilities/libmkimage/mkimage.c:618-636 | fewer than 1024 pattern bytes make header, sections and pattern a multiple of 1024 |
| ImageBuilder.CreateSignature | sdk/utilities/libmkimage/mkimage.c:346-388 | the parameter error exactly for the rejected curve and hash combinations; on success the signature the library made, within the given capacity |
| ImageBuilder.OverwriteSignature | sdk/utilities/libmkimage/mkimage.c:958-959 | the patched section equals the security section built for the final signature |
| ImageBuilder.SignAndLayOut | sdk/utilities/libmkimage/mkimage.c:906-972 | exactly which cause decides the status, in which order; on success the sections between header and code are those of the signature the second signing call made over section, pattern and code |
| ImageBuilder.CreateSingleSecureImage | sdk/utilities/libmkimage/mkimage.c:848-992 | success exactly when every check, parse and signing call succeeds and the keys fit their record; each other status exactly when its cause holds, an overrun of the key record among them, never BUFFER_TOO_SMALL; the image is header, security section with the second signature, and the signed bytes |
| ImageBuilder.SignedIsShipped | sdk/utilities/libmkimage/mkimage.c:910-987 | what a loader reads out of a finished image as covered by its signature is exactly what the second signing call was given, and the signature it reads is the one that call made |
| ImageBuilder.RequestIsShipped | sdk/utilities/libmkimage/mkimage.c:895-899 | the seven header bytes read out of a finished image decode to exactly the requested key id, EdDSA if and only if the curve is Edwards25519, the curve and the hash |
| ImageBuilder.AcceptedRequests | sdk/utilities/libmkimage/mkimage.c:867-904 | the parameters pass the checks if and only if the curve is one of the four that a header can name, the hash is one of four (SHA-512 for Edwards25519), and the key id is below 4 or an OTP address |
| ImageBuilder.SecurityHeaderDecodes | sdk/sdk/bsp/include/suota_security_ext.h:48-58 | key id in four bytes, mode, curve and hash in one each, by their numbers |
| ImageBuilder.GapIsBlank | sdk/utilities/libmkimage/mkimage.c:939-943 | between the device administration section and the code there is nothing but 0xff |
| ImageBuilder.ToBits | sdk/utilities/libmkimage/mkimage.c:308-317 | the CRC is taken over the same bytes in the same order |
| ImageBuilder.ClaimBack | sdk/utilities/libmkimage/mkimage.c:602-616 | security header, signature and covered bytes are recovered from any image with a security section after its header |
| ImageBuilder.SecureCodeStart | sdk/utilities/libmkimage/mkimage.c:930-987 | in a signed image of any length the stored exec location is a multiple of 1024 and the index where the code starts; CRC and size, modulo 2^32, are those of the code; fewer than 1024 pattern bytes |
| ImageBuilder.CodeStartAligned | sdk/utilities/libmkimage/mkimage.c:618-636 | header, sections and pattern together are a multiple of 1024 below 2048 |
| ImageBuilder.ShippedAdminDecodes | sdk/utilities/libmkimage/mkimage.c:941-943 | the device administration section at the front of the signed bytes decodes to what it was made from |
| UartLink.CalcXor | sdk/tools/ftdf_dts/dts.py:36-40 | the loop computes the xor of all bytes |
| UartLink.HeaderWordValue | sdk/tools/ftdf_dts/dts.py:152 | the header word holds the length in its low half and 0xaa01, or-ed with any overflow of the length, above it |
| UartLink.HeaderWordFits | sdk/tools/ftdf_dts/dts.py:152-153 | the header fits its four bytes exactly when the length does |
| UartLink.FrameIsIntact | sdk/tools/ftdf_dts/dts.py:152-157 | every frame built carries the right checksum and its payload, and all its bytes xor to zero |
| UartLink.FrameAligned | sdk/tools/ftdf_dts/dts.py:144-157 | a frame is well formed exactly when its payload has at most 65530 bytes, and then has type 1 and start flag 0xaa at their places |
| UartLink.SndToUart | sdk/tools/ftdf_dts/dts.py:140-170 | raises exactly when the length overflows four bytes; otherwise writes exactly as many copies of the frame as attempts are made: up to the first acknowledgement, three at most |
| UartLink.UartThread.ReadRawHeader | sdk/tools/ftdf_dts/dts.py:57-80 | one read, or a short one and a second for the rest, gives the four header bytes and takes exactly those off the port |
| UartLink.UartThread.ReadHeader | sdk/tools/ftdf_dts/dts.py:55-91 | one header turn of the thread changes fields, queues and port as the receiver step function says |
| UartLink.UartThread.ReadBody | sdk/tools/ftdf_dts/dts.py:92-126 | one body turn queues, drops or dies as the receiver step function says, and every exit but the crash goes back to waiting for a header |
| UartLink.UartThread.Run | sdk/tools/ftdf_dts/dts.py:50-126 | the whole loop leaves queues and state as the run of the step function over the byte stream |
| UartLink.DeadIffEmptyMessage | sdk/tools/ftdf_dts/dts.py:83-126 | for every stream and pacing, the receiver thread ends with an exception exactly when it comes to a whole header with its start flag that declares a length of 4, and a turn for the body follows |
| UartLink.ReceiverIsSound | sdk/tools/ftdf_dts/dts.py:50-126 | for every stream and every pacing the queues receive exactly the payloads of some frames that stand in the stream one after the other, with their declared length, start flag and a checksum that makes all bytes xor to zero: type 1 on serQueue, type 3 on ackQueue |
| UartLink.CutBodyIsDropped | sdk/tools/ftdf_dts/dts.py:94-99 | a frame whose body breaks off at any place is dropped, and the frames after it are delivered |
| UartLink.CutHeaderIsDropped | sdk/tools/ftdf_dts/dts.py:72-79 | so is a header that breaks off |
| UartLink.NoFlagIsDropped | sdk/tools/ftdf_dts/dts.py:64-66 | so are four bytes that do not end in the start flag |
| UartLink.FrameEffect | sdk/tools/ftdf_dts/dts.py:92-126 | one whole frame, whatever its type and checksum, leaves the receiver waiting for a header and delivers its payload exactly when it is intact and of the queue's type |
| UartLink.DeliveredAppend | sdk/tools/ftdf_dts/dts.py:114-126 | what a stream of frames delivers is what its parts deliver, in order |
| UartLink.StreamDelivered | sdk/tools/ftdf_dts/dts.py:50-126 | for any number of frames, each header read whole or in two pieces and idle polls in between, exactly the payloads of the intact FTDF frames reach serQueue and of the intact ACK frames ackQueue, in order |
| UartLink.WrittenDelivered | sdk/tools/ftdf_dts/dts.py:140-170 | what the sender writes for a list of payloads, repetitions included, is aligned and delivers each payload as often as it was written, none of them as acknowledgements |
| UartLink.SentIsReceived | sdk/tools/ftdf_dts/dts.py:50-170 | every list of payloads of up to 65530 bytes comes out of the receiver in order, each as often as the sender wrote it: up to the first acknowledged attempt, three at most |
| UartLink.OnceIfAcknowledged | sdk/tools/ftdf_dts/dts.py:162-170 | the payloads come out once each if and only if every first attempt is acknowledged |
| UartLink.UnacknowledgedArrivesTwice | sdk/tools/ftdf_dts/dts.py:162-170 | whenever the first attempt for a payload goes unacknowledged and the second does not, the receiver queues the payload twice |
| UartLink.OneByteBreaksFrame | sdk/tools/ftdf_dts/dts.py:102-112 | changing one byte of type, payload or checksum leaves an intact frame aligned but no longer intact |
| UartLink.CorruptedFrameIsDropped | sdk/tools/ftdf_dts/dts.py:92-126 | a frame with one such wrong byte delivers nothing, and every frame before and after it is delivered as if it had not been sent |
| Fields.PadLength | sdk/tools/ftdf_dts/dts.py:964 | the pad is one to four bytes and completes a word; for whole words it is four |
| Fields.SetOctets | sdk/tools/ftdf_dts/dts.py:957-967 | accepts exactly byte values for the counted entries and writes them with their padding |
| Fields.GetOctets | sdk/tools/ftdf_dts/dts.py:1024-1030 | reads the counted bytes and advances past them; missing bytes read as zero |
| Fields.ReadOctetsBack | sdk/tools/ftdf_dts/dts.py:1024-1030 | the counted bytes are read back |
| Fields.SetFixed | sdk/tools/ftdf_dts/dts.py:373-377 | writes exactly size bytes, cutting or zero-filling the list |
| Fields.FixedBack | sdk/tools/ftdf_dts/dts.py:311-313 | a fixed-size array is read back cut or filled to its size |
| Fields.GetIntsBack | sdk/tools/ftdf_dts/dts.py:233-238 | a record of integers of given widths is read back |
| PayloadIEs.SetPayloadIEList | sdk/tools/ftdf_dts/dts.py:899-938 | raises exactly on values out of range, short lists or a missing subContent key; otherwise the nested encoding |
| PayloadIEs.GetPayloadIEList | sdk/tools/ftdf_dts/dts.py:844-896 | the loops return the list and offset of the recursive decoder |
| PayloadIEs.SubIEsBack | sdk/tools/ftdf_dts/dts.py:861-880 | a counted list of sub-elements inside a longer string is read back with its end offset |
| PayloadIEs.IEListBack | sdk/tools/ftdf_dts/dts.py:844-938 | decoding an encoded list followed by any bytes returns what the counts cover, nested sub-elements included, and consumes exactly the bytes written |
| PayloadIEs.ExactListBack | sdk/tools/ftdf_dts/dts.py:844-938 | a list whose counts are right comes back unchanged |
| PayloadIEs.IEListWords | sdk/tools/ftdf_dts/dts.py:899-938 | every encoding is a multiple of four bytes |
| PayloadIEs.DecodedIsExact | sdk/tools/ftdf_dts/dts.py:875-878 | what any byte string decodes to is accepted by the setter exactly when it was read in PIB form or no sub-element carries bytes, and then has exact counts |
| PayloadIEs.ReceivedListIsRefused | sdk/tools/ftdf_dts/dts.py:875-878 | a list of one sub-element with one byte, read outside the PIB, is not accepted by the setter |
| PayloadIEs.DecodeIsStable | sdk/tools/ftdf_dts/dts.py:844-938 | decode, encode, decode finds what the first decoding found, for every byte string |
| Tables.SetRows | sdk/tools/ftdf_dts/dts.py:243-256 | raises exactly on a bad count or a value too wide; otherwise count and records (device and security-level tables) |
| Tables.GetRows | sdk/tools/ftdf_dts/dts.py:225-240 | the loop returns the rows and end offset of the recursive decoder |
| Tables.CountedBack | sdk/tools/ftdf_dts/dts.py:225-291 | a counted table is read back as its counted rows and ends where the writing ended |
| Tables.SetKeyTable | sdk/tools/ftdf_dts/dts.py:361-403 | raises exactly on counts that outrun their lists or values out of range at any of the three levels; otherwise the nested encoding |
| Tables.GetKeyTable | sdk/tools/ftdf_dts/dts.py:294-358 | the nested loops return the table of the recursive decoder |
| Tables.KeyBack | sdk/tools/ftdf_dts/dts.py:301-356 | one key descriptor with its three counted lists is read back, with its end offset |
| Tables.KeyTableBack | sdk/tools/ftdf_dts/dts.py:294-403 | the key table comes back with every list cut to its count, every keySource made 8 bytes and every key 16, for all counts |
| Tables.KeyTableIdempotent | sdk/tools/ftdf_dts/dts.py:294-403 | what comes back is accepted again and comes back unchanged |
| Tables.KeyTableStable | sdk/tools/ftdf_dts/dts.py:294-403 | whatever any byte string decodes to as a key table is accepted by the setter and decodes to itself again |
| Tables.RowsStable | sdk/tools/ftdf_dts/dts.py:225-291 | whatever any byte string decodes to as a counted table is accepted by the setter and decodes to itself again |
| Tables.KeyTableWords | sdk/tools/ftdf_dts/dts.py:361-403 | every encoded key table is a multiple of four bytes |
| PibAttributes.SetPib | sdk/tools/ftdf_dts/dts.py:697-841 | for every attribute number, raises exactly when its branch would and otherwise writes its encoding |
| PibAttributes.GetPib | sdk/tools/ftdf_dts/dts.py:556-694 | for every attribute number, returns the value its branch decodes |
| PibAttributes.SignedBack | sdk/tools/ftdf_dts/dts.py:560-561 | a signed 32-bit value is read back through its two's complement |
| PibAttributes.PibBack | sdk/tools/ftdf_dts/dts.py:556-841 | reading back an attribute, whatever follows it, returns the value fitted to its size; slotframe and link tables come back empty |
| PibAttributes.PibStable | sdk/tools/ftdf_dts/dts.py:556-841 | whatever any attribute decodes to is accepted by the setter, and decodes to itself again if and only if it is not a slotframe or link table with entries |
| PibAttributes.PibWords | sdk/tools/ftdf_dts/dts.py:697-841 | every encoded attribute is a multiple of four bytes |
| Params.SetParam | sdk/tools/ftdf_dts/dts.py:949-984 | one entry: what is accepted, what is written, and the key source filled up to eight entries |
| Params.SetParams | sdk/tools/ftdf_dts/dts.py:941-986 | the encoding of the whole list, or an exception exactly when some entry is invalid; key sources are extended in place and nothing else changes |
| Params.GetParams | sdk/tools/ftdf_dts/dts.py:989-1107 | the schema loop returns the dictionary of the recursive decoder or raises as it does |
| Params.EntryBack | sdk/tools/ftdf_dts/dts.py:1001-1060 | one entry, with a size taken from a field read before, is read back and advances past its encoding |
| Params.ParamsRoundTrip | sdk/tools/ftdf_dts/dts.py:941-1107 | for every schema of integers, memcpy, keySource, IEList and a final PIB attribute, parsing the serialized values returns exactly the schema's keys with the values sent |
| Params.ParamsWords | sdk/tools/ftdf_dts/dts.py:941-986 | a message of 4- and 8-byte integers and the special entries is a multiple of four bytes |
| Layouts.IELayout | sdk/tools/ftdf_dts/dts.py:899-938 | in an encoded list every element starts where the sizes of those before it say: identifier, length, and a count of sub-elements or the bytes and one to four zeros |
| Layouts.SubIELayout | sdk/tools/ftdf_dts/dts.py:916-930 | every sub-element starts where the sizes before it say: type, identifier, length, the bytes and one to four zeros |
| Layouts.KeyTableLayout | sdk/tools/ftdf_dts/dts.py:361-403 | every field of every key descriptor at its offset: lookups of 32 bytes, handles of 4, usages of 8, sixteen bytes of key |
| Layouts.LookupFields | sdk/tools/ftdf_dts/dts.py:368-385 | mode, eight bytes of key source, index, address mode, PAN id and an address of eight bytes, in 32 bytes |
| Layouts.DeviceTableRead | sdk/tools/ftdf_dts/dts.py:225-240 | attribute 69 is read as rows of 28 bytes: PAN id, short address, extended address (8), frame counter (8), exempt flag |
| Layouts.SecurityLevelTableRead | sdk/tools/ftdf_dts/dts.py:259-275 | attribute 70 is read as rows of five integers of four bytes |
| Layouts.SlotframeTableRead | sdk/tools/ftdf_dts/dts.py:472-484 | attribute 43 is read as rows of a handle and a size |
| Layouts.LinkTableRead | sdk/tools/ftdf_dts/dts.py:487-505 | attribute 44 is read as rows of seven integers of four bytes |
| Layouts.IntegerAttributes | sdk/tools/ftdf_dts/ftdf.py:159-264 | which attribute numbers are integers of four bytes, which of eight, and that the transmit power is signed |
| Layouts.OctetAttributes | sdk/tools/ftdf_dts/dts.py:797-812 | 52 bytes of beacon payload and eight bytes of the key sources and PTI, filled up with zeros |
| Layouts.RecordAttributes | sdk/tools/ftdf_dts/dts.py:406-553 | 12 integers of metrics and counters, 13 of the timeslot template, 16 of the hopping sequence, at four times their index |
| Layouts.ListAttributes | sdk/tools/ftdf_dts/dts.py:813-841 | which numbers are element lists, keys, devices and security levels, and what is written for the others |
| Layouts.ParamsLayout | sdk/tools/ftdf_dts/dts.py:941-986 | every parameter of a message stands where the sizes of those before it say, integers in their width, bytes with their padding, eight bytes of key source |
| Layouts.FitMeans | sdk/tools/ftdf_dts/dts.py:963-970 | a list brought to a size keeps its beginning, and what is missing is zero |
| UsbCommands.UnHexOfHex | sdk/utilities/suousb_host/host_usb_updater.c:831-834 | decoding the hex digits of any bytes returns the bytes |
| UsbWire.CommandRead | sdk/utilities/suousb_host/host_usb_updater.c:869-894 | every command line, read as name, connection, decimal count and hex digits, whatever follows it, gives the name, the count and the bytes that the command is for |
| UsbWire.WireRead | sdk/utilities/suousb_host/host_usb_updater.c:531-551 | what the commands of a trace put on the wire is read, line by line, as what they say |
| UsbCommands.RenderLength | sdk/utilities/suousb_host/host_usb_updater.c:904-905 | a data command for 32-bit counts has at most 33 characters besides its hex digits |
| UsbUpdater.FormatBufferFits | sdk/utilities/suousb_host/host_usb_updater.c:904-905 | a data command and its terminator fit the format buffer if and only if its size, 100 more than two chunks, has not wrapped at 2^32 |
| UsbUpdater.FillHex | sdk/utilities/suousb_host/host_usb_updater.c:976-981 | the conversion loop fills the working buffer with the hex digits of the chunk and stays inside both buffers; its int index overflows exactly with more than 2^30 bytes |
| UsbUpdater.Link.WriteBuff | sdk/utilities/suousb_host/host_usb_updater.c:531-551 | up to three tries, each from the beginning, ending at the first that reports the full length or nothing; complete exactly if the last one was full; the characters put on the wire by all tries, and an incomplete write uses up a disturbance of the line |
| UsbUpdater.TriesEnd | sdk/utilities/suousb_host/host_usb_updater.c:531-551 | a complete write ends with the whole text on the wire, whatever its retries put before it; on a line that reports no disturbance it is the text alone |
| UsbUpdater.TriesExactly | sdk/utilities/suousb_host/host_usb_updater.c:531-551 | the tries end with the first report of everything or of nothing, and at the latest with the third; the last report decides |
| UsbUpdater.Link.WaitResponse | sdk/utilities/suousb_host/host_usb_updater.c:739-761 | the first line found by the reads before the last retry; what the last retry finds counts as a timeout |
| UsbUpdater.WaitedInTime | sdk/utilities/suousb_host/host_usb_updater.c:739-824 | a wait ends well if and only if the first line it finds is the expected one and is not found by its last read |
| UsbUpdater.Link.IssueCommandGetOk | sdk/utilities/suousb_host/host_usb_updater.c:770-799 | a short write ends the call; otherwise one wait follows and the call fails exactly unless a line starting with OK came in time |
| UsbUpdater.Link.WaitForSpecificResponseOrAbort | sdk/utilities/suousb_host/host_usb_updater.c:807-824 | one wait; a timeout or a wrong line is followed by exactly one abort write, a right line by none |
| UsbUpdater.SendChunk | sdk/utilities/suousb_host/host_usb_updater.c:974-986 | writes exactly one data command whose payload is the hex of the chunk, or overruns exactly when the chunk has more than 2^30 bytes or the format buffer has wrapped; a report of nothing written makes it fail after one call |
| UsbUpdater.SendBlock | sdk/utilities/suousb_host/host_usb_updater.c:974-988 | two chunks of half the buffer; the block advances by both or a write was disturbed; a report of nothing written leaves the position where it was, after one call |
| UsbUpdater.SendBulk | sdk/utilities/suousb_host/host_usb_updater.c:966-994 | for every device and every line with finitely many disturbed writes the loop ends, each turn lowering the remaining disturbances or size minus xfered, with at most one buffer of bytes left and every block acknowledged before the next; with a device that acknowledges every block it takes at least as many turns as reports of nothing written come next |
| UsbUpdater.AwaitBlock | sdk/utilities/suousb_host/host_usb_updater.c:989-993 | a right answer ends the block, leaves the position and the line alone and adds one event; a wrong one gives up; a device that says what is waited for never fails the wait |
| UsbUpdater.SendWholeChunks | sdk/utilities/suousb_host/host_usb_updater.c:1031-1043 | the whole chunks of the last block; an overrun exactly when there is one and chunks of that size overrun, before anything is sent |
| UsbUpdater.SendRest | sdk/utilities/suousb_host/host_usb_updater.c:1024-1066 | the rest of the image in whole chunks and a last part, then its acknowledgement |
| UsbUpdater.CheckLength | sdk/utilities/suousb_host/host_usb_updater.c:1080-1098 | the device is asked for the length; an abort is written exactly when its answer converts to something other than the size, and the update goes on to its end in both cases |
| UsbUpdater.Finish | sdk/utilities/suousb_host/host_usb_updater.c:1080-1122 | the length query, an abort exactly after a wrong length, then in every case end, its acknowledgement and reset |
| UsbUpdater.DoFirmwareUpdate | sdk/utilities/suousb_host/host_usb_updater.c:836-1134 | for every device, line, image and 32-bit buffer size the trace obeys the protocol; success exactly when the last event is a complete reset, and then an abort was sent exactly when the reported length was wrong; on a perfect line the wire is read as the commands of the trace, and on success as a conversation that hands over the image; failure only with a reason at the end of the trace; an overrun only for sizes that overrun, for which no data ever goes out; on a perfect line to any device that answers before the last read of each wait it succeeds, or overruns exactly for those sizes |
| UsbUpdater.ObligingGivesNoReason | sdk/utilities/suousb_host/host_usb_updater.c:739-824 | with complete writes and a device that answers within 99 reads of a command, 2999 after the last block and 299 otherwise, no legal trace ends with a reason to give up |
| UsbUpdater.LateIsTooLate | sdk/utilities/suousb_host/host_usb_updater.c:739-824 | silence for as many reads makes the wait fail, whatever its last read finds |
| UsbProtocol.AbortIffWrongLength | sdk/utilities/suousb_host/host_usb_updater.c:1080-1108 | a run that reports success contains an abort if and only if the length answered to READ_MEMINFO converts to something other than the size of the image |
| UsbProtocol.AbortIsFourthLast | sdk/utilities/suousb_host/host_usb_updater.c:1084-1108 | on a successful run an abort can only have answered a wrong length, directly before the end command |
| UsbRuns.SuccessAfterAbort | sdk/utilities/suousb_host/host_usb_updater.c:1084-1119 | for every image that fits one chunk and every wrong length there is a legal run that aborts and succeeds |
| UsbRuns.AbortDoesNotEndTheUpdate | sdk/utilities/suousb_host/host_usb_updater.c:1084-1119 | one such run: 64 zero bytes, a buffer of 128 and a reported length of 0 |
| UsbRuns.WrongLengthSucceeds | sdk/utilities/suousb_host/host_usb_updater.c:1084-1119 | the update itself, against a device that answers well but for the length, each time after up to 98 reads in vain: for every image and buffer size that do not overrun it sends an abort and reports success |
| UsbRuns.WhenItOverruns | sdk/utilities/suousb_host/host_usb_updater.c:847-905 | the sizes that overrun: buffers from 0xFFFFFF9C on, and images and half buffers of more than 2^30 bytes together |
| UsbRuns.FirstCommandOverruns | sdk/utilities/suousb_host/host_usb_updater.c:904-985 | for such a buffer the first data command of every image has at least 152 characters and its buffer at most 98 |
| UsbRuns.MinusOneOverruns | sdk/utilities/suousb_host/host_usb_updater.c:1211-1223 | for every image, a device that answers -1 as its buffer size makes the update overrun before any data goes out |
| UsbProtocol.BlockNeedsAck | sdk/utilities/suousb_host/host_usb_updater.c:989-993 | no block is announced, queried or ended before a CMP_OK has come for all data sent before |
| UsbProtocol.DataNeedsAck | sdk/utilities/suousb_host/host_usb_updater.c:966-994 | no data beyond one buffer's worth goes out unless a CMP_OK has come in between |
| UsbProtocol.AckEndsBlock | sdk/utilities/suousb_host/host_usb_updater.c:966-1066 | every CMP_OK for data comes at the end of a block: after all of its bytes, or after a short write that broke off a full block |
| UsbProtocol.OutstandingFits | sdk/utilities/suousb_host/host_usb_updater.c:953-1066 | on every run the bytes sent and not yet acknowledged fit the device buffer |
| UsbProtocol.NothingOutstanding | sdk/utilities/suousb_host/host_usb_updater.c:989-993 | nothing outstanding means every data command was followed by a CMP_OK |
| UsbProtocol.DataGrows | sdk/utilities/suousb_host/host_usb_updater.c:974-988 | the decoded payloads of complete data commands only grow and are always a beginning of the image |
| UsbProtocol.BlockMatchesLength | sdk/utilities/suousb_host/host_usb_updater.c:953-1066 | a block that is acknowledged after a complete write carries exactly the announced number of bytes if and only if that number fits two bytes and, for a full block, the buffer size is even, whatever fell short before |
| UsbRuns.OddBufferFallsShort | sdk/utilities/suousb_host/host_usb_updater.c:847-847 | a legal run with a buffer of 129 bytes: the block announced as 129 bytes is acknowledged after 128 |
| UsbProtocol.AbortIsFinal | sdk/utilities/suousb_host/host_usb_updater.c:807-824 | a failed guarded wait is followed by one abort and by nothing else |
| UsbProtocol.FailedCommandIsFinal | sdk/utilities/suousb_host/host_usb_updater.c:770-799 | nothing follows a command that was not answered by OK |
| UsbProtocol.ResetFollowsEnd | sdk/utilities/suousb_host/host_usb_updater.c:1103-1119 | the reset goes out only right after a complete END and a CMP_OK read after it, with the whole image delivered |
| UsbProtocol.ResetIsFinal | sdk/utilities/suousb_host/host_usb_updater.c:1118-1134 | nothing follows the reset |
| UsbProtocol.HandshakeComesFirst | sdk/utilities/suousb_host/host_usb_updater.c:921-950 | every undisturbed run begins with the seven handshake events in their order: status switched on and OK, start, IMG_STARTED, OK, wiring and OK |
| UsbProtocol.SuccessDelivers | sdk/utilities/suousb_host/host_usb_updater.c:836-1134 | on a successful run the hex-decoded payloads of the complete data commands, in order, are exactly the image, the handshake came first, and no wait or command failed; whether it sent an abort is what UsbProtocol.AbortIffWrongLength says |
| UsbWire.SuccessIsRead | sdk/utilities/suousb_host/host_usb_updater.c:836-1134 | with complete writes the wire of a successful run reads as status, start (0x13) and wiring, data whose bytes in order are the image, the question for the length with or without an abort (0xFF), end (0xFE) and reset (0xFD) |
| UsbWire.AnnouncesWhatComes | sdk/utilities/suousb_host/host_usb_updater.c:953-1011 | the two bytes of a PATCH_LEN, low byte first, are the buffer size if more than that is left and else all that is left, modulo 2^16 |
| UsbWire.CarriesNextChunk | sdk/utilities/suousb_host/host_usb_updater.c:974-1058 | a PATCH_DATA is read as the next bytes of the image, as many as it counts: half a buffer or all that is left |
| UsbRuns.LastReadIsTooLate | sdk/utilities/suousb_host/host_usb_updater.c:747-758 | a wait that finds nothing before its k-th read returns that line, as a timeout exactly when it was its last read |
| UsbRuns.LateAnswerIsAnError | sdk/utilities/suousb_host/host_usb_updater.c:747-758 | the answer OK found by the last of a hundred reads makes the command fail |
| MultiImage.AddPadding | sdk/utilities/mkimage/mkimage.c:529-543 | appends exactly the given number of pad bytes |
| MultiImage.AppendFileCsum | sdk/utilities/mkimage/mkimage.c:293-329 | appends the whole input and returns the xor of its bytes |
| MultiImage.SetActiveImage | sdk/utilities/mkimage/mkimage.c:278-291 | sets the id byte of the input file, which a file shorter than the header grows by what the stack held, changes nothing else of it, and rewinds it |
| MultiImage.GrowsByStack | sdk/utilities/mkimage/mkimage.c:278-291 | a file shorter than 64 bytes grows to 64 by what the structure held |
| MultiImage.PlaceImage | sdk/utilities/mkimage/mkimage.c:759-785 | fails exactly when the position of the file, cast to 32 bits, is past the offset; otherwise padding, then the image with its id byte |
| MultiImage.FillProductHeader | sdk/utilities/mkimage/mkimage.c:743-751 | the stores, of which the second memset reaches past the two-byte pad, give the header with its configuration offset |
| MultiImage.PlaceProductHeader | sdk/utilities/mkimage/mkimage.c:725-757 | fails exactly when the position of the file, cast to 32 bits, is past the offset; otherwise padding, then the 24 header bytes |
| MultiImage.PlaceBoot | sdk/utilities/mkimage/mkimage.c:676-723 | the boot header and the bootloader, whose xor is returned |
| MultiImage.CreateMultiImage | sdk/utilities/mkimage/mkimage.c:607-859 | success exactly when every test on the 32-bit positions passes; then the exact file, the two id bytes set, and the product header written once before or after the images, or both |
| MultiImage.FitsExactly | sdk/utilities/mkimage/mkimage.c:613-845 | the parts fit without overlap in one of the two allowed orders if and only if every test passes and no position tested has reached 2^32; the file is then the layout of the offsets with one product header |
| MultiImage.PointersLead | sdk/utilities/mkimage/mkimage.c:743-751 | in a file whose parts fit, the pointers of the product header lead to the first image, with id 1, and to the second, with id 0, which are otherwise as given; the configuration offset is there modulo 2^32 |
| MultiImage.HeaderFields | sdk/utilities/mkimage/mkimage.c:743-751 | magic, both offsets, eight bytes of 0xff and the configuration offset at their places |
| MultiImage.BootReadsBack | sdk/utilities/mkimage/mkimage.c:686-710 | the boot header has its magic, the bootloader length high byte first and, for EEPROM, the xor; the bootloader starts at 8 or 32 |
| MultiImage.GrowPlaces | sdk/utilities/mkimage/mkimage.c:725-775 | a part whose test passes lands at its offset exactly when the file was shorter than 2^32 bytes, and otherwise a multiple of 2^32 behind it, with 0xff before it |
| MultiImage.OrdinaryOffsets | sdk/utilities/mkimage/mkimage.c:500-527 | for arguments that are not negative and are accepted, and parts of less than 4 GB, the tests pass exactly when the parts fit |
| MultiImage.NegativeOffsetsPass | sdk/utilities/mkimage/mkimage.c:516-524 | the arguments -64 -32 -16 with images of 64 bytes pass every test, although the parts do not fit; the second image lies 2^32 bytes behind its offset |
| MultiImage.HeaderTwice | sdk/utilities/mkimage/mkimage.c:725-845 | the arguments -64 0 64 with images of 64 bytes write the product header twice |
| MultiImage.FlashLayout | sdk/utilities/mkimage/mkimage.c:725-845 | in the finished file every part is where its offset says, the length is the end of the last part, and every byte outside the parts is 0xff |
| MultiImage.RewriteOnlyCrc | sdk/utilities/mkimage/mkimage.c:847-857 | writing the EEPROM header again changes its crc byte and nothing else |
| MultiImage.LayoutBootCrc | sdk/utilities/mkimage/mkimage.c:847-857 | with another crc in the boot header the same tests pass, and the file differs in that byte alone |
| LogStats.LogParser.ReadLine | sdk/tools/ftdf_dts/parse_logs.py:99-130 | one line: what is recorded, given up or counted as a duplicate, and the state after it |
| LogStats.LogParser.ParseLog | sdk/tools/ftdf_dts/parse_logs.py:82-130 | results are exactly the outcomes of the started runs, in order, failed ones with their lines; missed and a pending script are exactly the runs without a verdict; start lines and verdicts are conserved |
| LogRuns.ResultsAreRuns | sdk/tools/ftdf_dts/parse_logs.py:99-130 | straight from the lines: the results are, one by one and in order, the start lines with a verdict before the next start; each has the verdict of the first such line, and a failed one all lines of its run |
| LogRuns.MissedAreStarts | sdk/tools/ftdf_dts/parse_logs.py:99-104 | the missed and pending scripts are, one by one and in order, the start lines without such a verdict |
| LogStats.StartsAreSettledOrNot | sdk/tools/ftdf_dts/parse_logs.py:99-130 | every start is a result or left without one, name by name, and none is counted twice |
| LogStats.LineSettles | sdk/tools/ftdf_dts/parse_logs.py:109-130 | what a line records comes off the results still to come |
| LogTotals.ProcessResults | sdk/tools/ftdf_dts/parse_logs.py:154-185 | the dictionary holds exactly the scripts of the results with their runs and counts; the maximum is the most runs of any script; the totals are all runs and all passes |
| LogTotals.ScriptsAddUp | sdk/tools/ftdf_dts/parse_logs.py:163-184 | summed over the scripts, runs and passes are those of the whole log |
| LogTotals.Histogram | sdk/tools/ftdf_dts/parse_logs.py:189-195 | entry i counts the scripts that passed i times |
| LogTotals.EntriesAddUp | sdk/tools/ftdf_dts/parse_logs.py:189-195 | entries that count the scripts by passes add up to the scripts and, weighted, to their passes |
| LogTotals.HistogramAddsUp | sdk/tools/ftdf_dts/parse_logs.py:189-195 | the histogram sums to the number of scripts and its weighted sum is the number of passes |
| LogTotals.ComputeExitCode | sdk/tools/ftdf_dts/parse_logs.py:322-361 | the code or the exception, for every combination of options, from the histogram and the totals |
| LogTotals.PercentFloor | sdk/tools/ftdf_dts/parse_logs.py:347-349 | comparing the floored percentage with the threshold is comparing 100 * passes with threshold * runs |
| LogRuns.PercentageMet | sdk/tools/ftdf_dts/parse_logs.py:346-349 | the percentage is met if and only if 100 * passes / runs, rounded down, is at least the threshold |
| LogRuns.AllOfThem | sdk/tools/ftdf_dts/parse_logs.py:346-349 | with a percentage of 100 and no minpass a log is accepted if and only if every run passed |
| LogRuns.StrictMeansNoFailure | sdk/tools/ftdf_dts/parse_logs.py:322-329 | in strict mode a log is accepted if and only if the verdict line of every run in it says passed |
| LogRuns.PassesAreCounted | sdk/tools/ftdf_dts/parse_logs.py:163-177 | the passes of a script are the results with its name that passed, counted one by one |
| LogTotals.BelowIsTooFew | sdk/tools/ftdf_dts/parse_logs.py:332-341 | the histogram has an entry below minpass exactly when some script passed fewer than minpass times |
| LogReport.SplitJoins | sdk/tools/ftdf_dts/parse_logs.py:271-293 | the parts of a script name hold no separator and, joined again, are the name |
| LogReport.OutcomesLogged | sdk/tools/ftdf_dts/parse_logs.py:109-130 | the log kept of a run says FAILED exactly when the run failed |
| LogReport.MakeCase | sdk/tools/ftdf_dts/parse_logs.py:270-309 | raises exactly for a name with fewer than two separators or too few runs; otherwise the case lists exactly the failed runs among the first iterations and is a failure exactly when fewer than minpass of those passed |
| LogReport.CreateXmlReport | sdk/tools/ftdf_dts/parse_logs.py:239-312 | no report without minpass, iterations and junit_xml; otherwise one case for every script, or an exception exactly when some script cannot be reported on |
| LogReport.CleanMeansPasses | sdk/tools/ftdf_dts/parse_logs.py:305-307 | a report without failures means that every script passed at least minpass times, and the other way round when every script ran exactly iterations times |
| LogReport.ReportAndCodeDisagree | sdk/tools/ftdf_dts/parse_logs.py:279-341 | a script that fails once and then passes is a failure in the report on one run, while its log meets minpass 1 |
| LogReport.ExitCode | sdk/tools/ftdf_dts/parse_logs.py:364-371 | from log to exit code: an exception exactly when the report cannot be made, or for a log without results, not strict, with minpass above 1 or a percentage; otherwise 0 exactly when strict finds only passes, or else minpass and percentage are met |

## Left out

Representation
- Parameters: the text searches and conversions `strtol`, `mktime`, `sscanf`, `atoi` and the regular
  expressions of the log parser appear as parameters or as fields of the input (a version file is its
  version, date and numbers; a log line is its text, its start match and its verdicts).
- Cryptography: AES and the signature library are uninterpreted functions. AES keeps the length, and a
  signature's length depends only on its curve, as in `sdk/utilities/libbo_crypto/bo_crypto.c:574-591`. Two signing
  calls on one message may differ.
- Python exceptions are one value, `Raises`; dictionaries of integers with fixed keys are rows of integers in wire order.
- Byte order: `MKIMAGE_LITTLE_ENDIAN` is taken as defined, and the packed sizes 36 and 7 of the two headers come from
  `suota.h` and `suota_security_ext.h`.
- Allocation failures, closed or failing files and ports, and console output are not modelled.

Bounds
- ImageSections.AdminDecodes: at most 51 recognised keys, because with a 52nd there is no section: the original's behaviour
  is undefined from there on, which the builders report as an outcome of its own.
- MultiImage.CreateMultiImage: the input files are distinct and open at their start, and file positions are those of a
  64-bit `off_t`. Offsets are taken as parsed, and the command-line forms are not modelled.
- UsbUpdater.DoFirmwareUpdate: the write calls report finitely many disturbances, because the update need not end
  otherwise (`UsbUpdater.SendBulk`). The image size and the buffer size are 32-bit numbers, as the parameters are.
- UartLink.StreamDelivered: each body arrives in one read. The receiver itself (`UartLink.UartThread.Run`) is modelled for
  every pacing, but a corrupted length or start flag, a declared length below 4 or a short body read can make it lose the
  frame boundary, and then nothing is claimed to arrive, only that nothing else does (`UartLink.ReceiverIsSound`). A declared
  length of 4 ends it (`UartLink.DeadIffEmptyMessage`). The port's read returns nothing for a length of zero or less.
- UsbWire.CommandRead: how a device reads its command lines is taken from their form here (name, connection, decimal count, hex
  digits); the device's own parser is not part of this model.
- UartLink.SndToUart: the acknowledgement queue and its timeout are one yes-or-no answer per attempt.
- Params.ParamsRoundTrip: keys are distinct, sizes refer to integers sent earlier and a PIB attribute comes last, as the
  original requires of its schemas; memcpy counts are not negative.

Not modelled
- The `strcpy`, `list_dict`, `dict` and `beacon_address_list` schema entries, which have no counterpart in the setter.
- Durations and group printing of `parse_logs.py`, the files its JUnit report is written to and the excerpts of the logs in
  them; its script argument handling beyond the option values.
- The performance and traffic counter getters beyond their fixed rows of integers, and the per-message functions of `dts.py`,
  which instantiate one schema shape.
- `mkimage` single-image and key-generation commands, `bin2image`, `dgtl_mux`, `nvparam`, the cryptographic library and the BLE
  demo applications: they would add I/O, option handling or short callbacks.
