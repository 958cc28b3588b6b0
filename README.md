# InvisioVault core in Dafny

InvisioVault hides files in an RGB image by least-significant-bit (LSB)
encoding. It can protect the hidden data with a password and recovers the
files from the image. This project models the program's core and proves
properties of it:

- the static methods of `SteganographyEngine`:
  - key derivation and the password envelope (`encrypt_data`, `decrypt_data`);
  - the per-file record (`prepare_file_data`, `extract_file_data`);
  - the capacity rule and the pixel codec (`can_hide_data`,
    `hide_data_in_image`, `extract_data_from_image`);
- the two runs of `WorkerThread`:
  - `_hide_files` prepares every file, packs the records into one archive,
    optionally envelopes it and writes it into the image;
  - `_extract_files` reads the archive back, opens the envelope, walks the
    records and saves each file under a name that is not taken yet.

The modules follow the program's layers:

- `Common`: bytes and bits, exception text as `Result`, Python slicing,
  `int.to_bytes` and `int.from_bytes`, `str(n)`, grid arithmetic.
- `BitCodec`: the bit order, least significant bit first, and bits back to bytes.
- `Pkcs7`: `pad` and `unpad` for 16-byte blocks.
- `Envelope`: key derivation, AES-CBC over an abstract block cipher, and the
  envelope `"INVISIOVAULT"` ‖ salt ‖ IV ‖ ciphertext.
- `Record`: BE32(len(meta)) ‖ meta ‖ content, where meta is the UTF-8 JSON
  metadata.
- `Lsb`: the capacity rule and the pixel codec. The numpy pixel array is the
  `array3<byte>` field of class `Carrier`. The embedding loop rewrites it in
  place, and the methods are proved against the functions `Embedded` and
  `ExtractedFrom`.
- `Archive`: BE32(count) followed by, for each record, BE32(len) ‖ record.
  This covers packing and the extraction walk, which stops early.
- `Worker`: the two runs as the sequence of `progress_signal`,
  `status_signal` and `finished_signal` events they emit. Extraction also
  returns the new state of the output directory.

Everything the program gets from outside becomes a parameter:

- PBKDF2 and the AES block functions: a `Crypto` value. The round-trip lemmas
  require `IsBlockCipher`, meaning that decrypting a block undoes encrypting it.
- `json.dumps`, `json.loads` and the UTF-8 codec: a `Json` value. Round trips
  require `RoundTrips`.
- The random salt and IV from `os.urandom`.
- `datetime.now()`: a timestamp string per file.
- File reads: each `InputFile` carries its contents or its read error.
- `os.path.join`, `splitext` and `basename`, and write failures: an `Env` value.
- The output directory: a `Disk` map from path to bytes.
- Whether saving the image succeeded: the `saved` flag.

Two behaviours of the code (`invisiovault.py`) are modelled as written:

- Hiding checks capacity twice. `_hide_files` asks whether the image holds
  `len(data) + 4` bytes. `can_hide_data` counts those 4 bytes as the room
  reserved for the size field ("Reserve space for size information
  (4 bytes)"), so `hide_data_in_image` would be expected to accept what
  that check accepts. Instead it asks `can_hide_data` about the already
  prefixed payload, so it needs `len(data) + 8` bytes. A payload that
  exactly fills the capacity is therefore refused, and the run ends
  "Operation failed" at 100% progress. The model keeps both checks
  (`Worker.HideCapacityGap`, `Worker.HideCapacityGapExample`).
- During extraction, any `ValueError` from `decrypt_data` is reported as
  "Incorrect password or corrupted data". This includes the IV-length error
  of a short blob.

## Model

| member | source | states |
|---|---|---|
| Common.ToBytes4 | invisiovault.py:294-297 | `to_bytes(4, 'big')` succeeds exactly for values below 2^32, and reading the 4 bytes back gives the value; otherwise it fails with the OverflowError text |
| Common.BeValueOfBe32 | invisiovault.py:361 | `int.from_bytes` of the 4 big-endian bytes written for n is n |
| Common.BeValueBound | invisiovault.py:349 | a big-endian value of k bytes is below 2^(8k), so a slice shorter than 4 bytes gives a small count or size |
| Common.BeValue4Bound | invisiovault.py:361 | a count or size read with `int.from_bytes` from at most four bytes is below 2^32 |
| Common.DecInjective | invisiovault.py:377 | different counters print as different decimal text |
| BitCodec.ByteBitsRoundTrip | invisiovault.py:160-162 | folding a byte's eight bits, least significant first, with `byte \|= bit << j` gives the byte back |
| BitCodec.BytesToBits | invisiovault.py:159-162 | the bit expansion has 8 bits per byte |
| BitCodec.BitsToBytes | invisiovault.py:239-247 | only whole groups of 8 bits become bytes; a trailing partial group is dropped |
| BitCodec.BytesRoundTrip | invisiovault.py:239-247 | regrouping the bit expansion of any byte string gives that byte string |
| BitCodec.BytesToBitsAppend | invisiovault.py:151-162 | expanding length prefix ‖ data is the expansion of the prefix followed by that of the data |
| BitCodec.PadToTriple | invisiovault.py:165-166 | padding appends the fewest zero bits (0 to 2) that make the length a multiple of 3 and keeps the bits before them |
| BitCodec.ZeroExtend | invisiovault.py:217-222 | size bits missing from a short scan read as 0, and the bits present are kept |
| BitCodec.FoldByte | invisiovault.py:240-247 | the inner loop assembles bits i..i+8 into the byte they encode |
| BitCodec.FoldSizeByte | invisiovault.py:216-222 | the guarded size loop assembles a byte of the zero-extended 32 size bits |
| BitCodec.BitsValueBound | invisiovault.py:243-246 | eight folded bits always make a value that fits in a byte |
| Pkcs7.Pad | invisiovault.py:57 | `pad(data, 16)`: appends n bytes of value n, where n = 16 − len % 16, so a whole block of 16s when the length is a multiple of 16 |
| Pkcs7.Unpad | invisiovault.py:77 | `unpad(p, 16)`: refuses an empty input, a length not a multiple of 16, a last byte n outside 1..16, or a tail that is not n bytes of n; otherwise drops the last n bytes |
| Pkcs7.PadShape | invisiovault.py:57 | padding adds 1 to 16 bytes, reaches a multiple of 16 and keeps the data as a prefix |
| Pkcs7.UnpadPad | invisiovault.py:77 | unpadding padded data gives the data back |
| Pkcs7.PadUnpad | invisiovault.py:77 | whatever unpads to some data is exactly the padding of that data |
| Pkcs7.UnpadIff | invisiovault.py:57-77 | unpad(p) = data holds exactly when pad(data) = p |
| Envelope.DeriveKey | invisiovault.py:43-48 | `derive_key` for a given salt: PBKDF2-HMAC-SHA256 of the password with that salt and 100000 iterations |
| Envelope.Encrypt | invisiovault.py:51-59 | `encrypt_data` with the two random draws given: header ‖ salt ‖ IV ‖ AES-CBC under the derived key of the padded data |
| Envelope.Decrypt | invisiovault.py:62-80 | `decrypt_data`: "Invalid data format" without the header; the IV-length error when fewer than 16 IV bytes follow the salt; "Incorrect password or corrupted data" when the ciphertext is not whole blocks or does not unpad; otherwise the unpadded CBC decryption |
| Envelope.XorBlockTwice | invisiovault.py:56-57 | XOR with the chaining block is undone by XOR with the same block |
| Envelope.CbcEncrypt | invisiovault.py:56-57 | CBC encryption of whole blocks keeps the length |
| Envelope.CbcDecrypt | invisiovault.py:75-76 | CBC decryption of whole blocks keeps the length |
| Envelope.CbcRoundTrip | invisiovault.py:56-77 | with a block cipher, CBC decryption under the same key and IV inverts CBC encryption |
| Envelope.EncryptLayout | invisiovault.py:51-59 | an envelope is the header, then the salt, then the IV, then one more ciphertext block than the data fills |
| Envelope.DecryptEncrypt | invisiovault.py:62-80 | decrypting an envelope with its password gives the data back |
| Envelope.DecryptOutcomes | invisiovault.py:62-80 | the answer is one of three errors or data: "Invalid data format" exactly without the header, the IV-length error exactly for a headed blob under 44 bytes, and data only from a blob of whole blocks that is longer than the data |
| Record.PrepareFileData | invisiovault.py:83-103 | `prepare_file_data`: the read error, or the metadata {filename, size, timestamp} as UTF-8 JSON framed as BE32(len(meta)) ‖ meta ‖ content, enveloped when a password is given; the OverflowError when the metadata reaches 2^32 bytes |
| Record.Unframe | invisiovault.py:115-124 | the reading half of `extract_file_data`: the length from the first (up to) four bytes, the metadata and content as the clamped slices after it, the decode error, or "Invalid metadata format" when the JSON does not parse |
| Record.ExtractFileData | invisiovault.py:106-124 | `extract_file_data`: decrypts only with a password and a header, maps every decryption error to "Incorrect password or corrupted data", then reads the frame |
| Record.FrameSlices | invisiovault.py:95-118 | reading a frame back gives the declared metadata length, the metadata bytes and the content |
| Record.PrepareOutcomes | invisiovault.py:83-103 | `prepare_file_data` fails with the read error, or with the overflow exactly when the metadata text reaches 2^32 bytes; otherwise it returns the plain frame of metadata and unchanged bytes, or an envelope of it of the stated length |
| Record.ExtractPrepared | invisiovault.py:106-124 | a prepared record extracts, with the same password or none, to its metadata (filename, size, timestamp) and the file's bytes |
| Record.ExtractOutcomes | invisiovault.py:106-124 | a failed decryption gives "Incorrect password or corrupted data"; metadata that decodes but does not parse gives "Invalid metadata format"; the content is whatever follows the declared metadata, and is empty when the frame is shorter |
| Lsb.SetLsb | invisiovault.py:176 | the new channel value has the bit as its LSB and keeps the other seven bits |
| Lsb.CanHide | invisiovault.py:127-136 | `can_hide_data` is true exactly when 8·(size + 4) ≤ 3·width·height |
| Lsb.PayloadBitsLength | invisiovault.py:150-166 | the padded bit stream of length prefix ‖ data covers whole pixels and is 0 to 2 bits longer than 8·(n + 4) |
| Lsb.Embedded | invisiovault.py:169-181 | the channels after the embedding loop: channel t has its LSB set to stream bit t while the stream lasts and is unchanged after it |
| Lsb.DeclaredSize | invisiovault.py:203-224 | the size the extractor reads: the first 32 scan bits, missing ones as 0, folded LSB-first into four bytes, read big-endian |
| Lsb.ExtractedFrom | invisiovault.py:191-248 | what `extract_data_from_image` returns for a scan: the whole bytes folded from scan bits 32 up to 32 + 8·size, clamped to the scan |
| Lsb.EmbedRoundTrip | invisiovault.py:139-251 | when the channels hold the prefixed payload, extracting from the embedded channels gives exactly the data |
| Lsb.EmbeddedLsbs | invisiovault.py:169-181 | after embedding, the first m channel LSBs are the first m stream bits |
| Lsb.EmbedFrame | invisiovault.py:169-181 | embedding changes only LSBs and leaves every channel past the touched pixels as it was |
| Lsb.ExtractFramed | invisiovault.py:214-248 | a scan that starts with BE32(len) ‖ data bits extracts exactly data |
| Lsb.ExtractedLength | invisiovault.py:214-248 | extraction returns at most the declared number of bytes; nothing for a scan of 32 bits or fewer or a declared size of 0; exactly the declared size when the image holds it; and all the whole bytes after the prefix when it does not; the declared size is below 2^32 |
| Lsb.HeadPrefix | invisiovault.py:203-215 | the first 32 bits of the head scan are the first 32 bits of the whole scan |
| Lsb.ScanPosition | invisiovault.py:228-230 | the second scan's `// 3 // width` and `% width` name the pixel and channel that hold bit t |
| Lsb.ExpandBits | invisiovault.py:158-166 | the bit-building loop produces the padded LSB-first expansion of the prefixed payload |
| Lsb.Carrier.Channels | invisiovault.py:148 | the pixel array read row by row has three channels per pixel |
| Lsb.Carrier.Scan | invisiovault.py:203-208 | the full LSB scan has one bit per channel |
| Lsb.Carrier.ChannelAt | invisiovault.py:204-208 | channel k of pixel (i, j) is at position 3·(i·width + j) + k of the row-major scan |
| Lsb.Carrier.ScanAt | invisiovault.py:228-236 | scan bit t is the LSB of channel t % 3 of the pixel `// 3 // width`, `% width` |
| Lsb.Carrier.CanHideData | invisiovault.py:127-136 | the capacity rule applied to this image's width and height |
| Lsb.Carrier.HideData | invisiovault.py:139-188 | `hide_data_in_image` succeeds exactly when the length fits 4 bytes and the image holds the prefixed payload plus 4 more bytes; on success the channels are the embedding of the padded stream, and on failure the pixels are unchanged |
| Lsb.Carrier.WriteBits | invisiovault.py:169-181 | the embedding loop rewrites, in row-major order, the channels the stream reaches and no others |
| Lsb.Carrier.WriteRow | invisiovault.py:170-181 | one row of the loop rewrites that row's channels up to the end of the stream and leaves later channels alone |
| Lsb.Carrier.WritePixel | invisiovault.py:172-177 | one pixel step writes three stream bits into the LSBs of that pixel |
| Lsb.Carrier.ExtractData | invisiovault.py:191-251 | `extract_data_from_image` returns the bytes the LSB scan declares after its 32-bit length |
| Lsb.Carrier.ScanLengthBits | invisiovault.py:203-212 | the first scan stops after the pixel that completes 32 bits, so it reads exactly the first 33 scan bits, or the whole scan when that is shorter |
| Lsb.Carrier.ScanHeadRow | invisiovault.py:204-212 | one row of the first scan extends a prefix of the scan by the whole row, or up to 33 bits |
| Lsb.Carrier.ScanPayloadBits | invisiovault.py:227-236 | the second scan reads the scan bits from 32 up to the total; it fails (the ZeroDivisionError, giving `b''`) exactly for an image 0 pixels wide |
| Lsb.Carrier.ReadWholePixel | invisiovault.py:206-208 | reading a pixel in the first scan appends that pixel's three scan bits |
| Lsb.Carrier.ReadPixel | invisiovault.py:233-236 | reading a pixel in the second scan appends scan bits up to the total and no further |
| Lsb.ReadLength | invisiovault.py:214-224 | the declared size is the big-endian value of the four bytes folded from the zero-extended size bits |
| Lsb.AssembleBytes | invisiovault.py:238-247 | the byte loop groups the data bits into whole bytes |
| Archive.Packed | invisiovault.py:294-297 | the combined data as `_hide_files` builds it: BE32(count) followed by BE32(len) ‖ record per record, or the OverflowError |
| Archive.RecordsIn | invisiovault.py:356-366 | the records the loop visits from round i of num: none once the rounds are done or the data is used up; otherwise the clamped slice whose size the next (up to) four bytes give, then the rest of the walk past it |
| Archive.Unpack | invisiovault.py:349-366 | the records `_extract_files` visits: the walk from offset 4 with the count read from the first four bytes |
| Archive.DropIsSlice | invisiovault.py:357-366 | the tail the walk has left is the Python slice `data[offset:]` |
| Archive.Pack | invisiovault.py:294-297 | the combined data is BE32(count) followed by BE32(len) ‖ record for each record, or the OverflowError when a count or length reaches 2^32 |
| Archive.FramesAppend | invisiovault.py:295-297 | framing two lists of records is framing the first then the second |
| Archive.RecordsInFrames | invisiovault.py:356-366 | walking framed records gives the records back when the count allows all of them |
| Archive.FrameAtHead | invisiovault.py:360-366 | a frame at the walk's position yields its record, and the walk continues right after it |
| Archive.WalkStep | invisiovault.py:357-366 | one loop round reads the size at the offset, takes the clamped slice and moves past it |
| Archive.WalkEnd | invisiovault.py:356-358 | the walk yields nothing once the offset reaches the end or the count is used up |
| Archive.UnpackPack | invisiovault.py:349-366 | unpacking a packed archive gives its count and exactly its records |
| Archive.RecordsInBound | invisiovault.py:356-366 | the walk yields no more records than rounds remain, and every record but the last uses at least 4 bytes of the tail |
| Archive.UnpackBound | invisiovault.py:349-366 | an archive yields at most its declared count of records and at most one record per 4 bytes; it yields none for a count of 0 or 4 bytes or fewer; the declared count is below 2^32 |
| Worker.Percent | invisiovault.py:291 | per-file progress never exceeds 50 |
| Worker.PercentMonotone | invisiovault.py:291 | per-file progress does not decrease from one file to the next |
| Worker.Failure | invisiovault.py:320-322 | the except branch appends an error status and ends with `Finished(false, message)` |
| Worker.Reached | invisiovault.py:286-291 | the progress reached after k files is at most 50 |
| Worker.ReachedMonotone | invisiovault.py:286-291 | the progress reached never goes down as files are prepared |
| Worker.PrepareAll | invisiovault.py:286-291 | the first k rounds of the preparation loop: per file the "Preparing file i/n" status, `prepare_file_data(path, None)` and the progress i·50/n, stopping at the first error |
| Worker.PrepareRecords | invisiovault.py:286-291 | the preparation loop emits the events and yields the records or the first error of the specification `PrepareAll` |
| Worker.PrepareAllStops | invisiovault.py:286-291 | once a file fails, the loop stops and later files change nothing |
| Worker.PrepareAllShape | invisiovault.py:286-291 | preparation emits no final event, and its progress stays between 0 and the value reached and never decreases |
| Worker.PrepareAllOk | invisiovault.py:286-291 | the loop succeeds exactly when every file prepares |
| Worker.PrepareAllRecords | invisiovault.py:286-291 | on success there is one record per file, each what `prepare_file_data` made of it |
| Worker.PrepareAllErr | invisiovault.py:286-291 | on failure the error is that of the first file that does not prepare |
| Worker.PrepareAllResult | invisiovault.py:286-291 | there is one record per file exactly when every file prepares; otherwise the result is the first file's error |
| Worker.HidePayload | invisiovault.py:282-302 | the events up to the capacity check and the bytes to hide: the packed archive of the prepared records, enveloped with an "Encrypting data..." status when a password is given, or the first error |
| Worker.HideTrace | invisiovault.py:275-322 | the whole event trace of `_hide_files`: the payload's events, then its error, the too-small error, or the embedding's progress 100 and its success or "Operation failed" |
| Worker.BuildPayload | invisiovault.py:282-302 | preparing, packing and optionally enveloping emits the events and yields the payload of the specification `HidePayload` |
| Worker.HideFiles | invisiovault.py:275-322 | the hide run emits `HideTrace`; the image is the embedding of the payload exactly when the payload was built and fits both capacity checks, and it is unchanged otherwise |
| Worker.HidePayloadShape | invisiovault.py:282-302 | up to the capacity check, the run emits only preparation progress between 0 and 50, in order |
| Worker.HideWellFormed | invisiovault.py:275-322 | the hide trace has ordered progress between 0 and 100 and exactly one final event, at the end |
| Worker.HideOutcome | invisiovault.py:304-322 | the run ends `Finished(true, output_path)` exactly when the payload was built, fits and was saved; otherwise it ends with the payload error, "too small", or "Operation failed" |
| Worker.HideCapacityGap | invisiovault.py:304-318 | a payload that passes the run's check but not `hide_data_in_image`'s is reported at 100% and then fails with "Operation failed" |
| Worker.HideCapacityGapExample | invisiovault.py:304-318 | hiding no files in a 22 × 1 image that holds the 8-byte prefixed payload still ends "Operation failed" |
| Worker.CandidateInjective | invisiovault.py:377 | `{base}_{counter}{ext}` names differ exactly when the counters differ |
| Worker.TriedGrows | invisiovault.py:376-378 | each taken candidate shrinks the set of taken paths not yet tried, so the loop ends |
| Worker.FreeFrom | invisiovault.py:376-378 | the counter the loop stops at gives a free name, and every counter before it is taken |
| Worker.UniqueName | invisiovault.py:374-378 | the chosen path is not on the disk; it is the joined path when that is free, and otherwise the first free `_counter` name |
| Worker.UniquePath | invisiovault.py:374-378 | the unique-name loop returns the name specified by `UniqueName` |
| Worker.SaveRecord | invisiovault.py:369-387 | the `try` for one record: extract it without a password, join its filename to the output directory, make the name unique, and write the content, or the error met on the way |
| Worker.SaveOne | invisiovault.py:369-387 | one record is extracted, named and written, or fails with the error of the specification `SaveRecord` |
| Worker.Absorb | invisiovault.py:384-389 | one round's effect: the "Extracted:" status with the file added to the disk and the path list, or the "Error extracting file i" status, then the progress 50 + i·50/num |
| Worker.ExtractList | invisiovault.py:356-389 | the extraction loop over the records still to visit, one `Absorb` round per record |
| Worker.ExtractOne | invisiovault.py:369-389 | one loop round emits the saved or error status and the progress, and updates the disk and the path list as `Absorb` says |
| Worker.ReadFrame | invisiovault.py:360-366 | reading at the offset yields the walk's next record, and the rest of the walk starts at the new offset |
| Worker.ExtractStep | invisiovault.py:356-389 | one round of the extraction loop advances the walk by one record and keeps the loop invariant |
| Worker.ExtractAll | invisiovault.py:353-389 | the loop processes exactly the records of `Unpack(data)`, at most the declared count, as the specification `ExtractList` does |
| Worker.Unwrap | invisiovault.py:331-346 | the events up to progress 50 and the archive, or "No hidden data", the password request, or "Incorrect password or corrupted data" |
| Worker.ExtractRun | invisiovault.py:324-396 | the whole extract run on the extracted bytes: the unwrap, the "Found n hidden files" status, the loop, and the final success with the joined paths, or the failure |
| Worker.UnwrapData | invisiovault.py:331-346 | the empty-data, needs-password and decryption checks give the events and plaintext of the specification `Unwrap` |
| Worker.ExtractFiles | invisiovault.py:324-396 | the extract run emits the events and leaves the disk of the specification `ExtractRun` |
| Worker.AbsorbEvents | invisiovault.py:385-389 | every round appends exactly one status and then the progress 50 + its per-file percentage |
| Worker.ExtractListShape | invisiovault.py:356-389 | the loop continues the trace with statuses and rising progress between 50 and 100 |
| Worker.AbsorbDisk | invisiovault.py:380-387 | a round either writes one new file at a fresh path and records it, or leaves the disk and paths alone |
| Worker.ExtractListDisk | invisiovault.py:369-387 | the loop only adds files, at fresh and distinct paths that it records in order; no file already on the disk changes, and at most one path is added per record |
| Worker.Contents | invisiovault.py:370-382 | the contents the loop writes are, record by record, the content `extract_file_data` returns |
| Worker.ExtractListSaved | invisiovault.py:369-387 | when every record is readable and every write succeeds, the i-th new path holds the i-th record's content |
| Worker.UnwrapShape | invisiovault.py:331-346 | unwrapping emits no final event, and its progress stays between 0 and 50 and never decreases |
| Worker.ExtractWellFormed | invisiovault.py:324-396 | the extract trace has ordered progress between 0 and 100 and exactly one final event, at the end |
| Worker.ExtractOutcome | invisiovault.py:329-396 | the run fails with "No hidden data", the password request, or "Incorrect password" exactly in its three error cases, and then writes nothing; unencrypted data goes to the walk unchanged; otherwise the run ends `Finished(true, "\n".join(paths))` |
| Worker.ArchiveUnmarked | invisiovault.py:294-297 | an unencrypted archive of fewer than 0x49000000 files cannot start with the envelope header |
| Worker.PayloadUnwraps | invisiovault.py:337-346 | unwrapping the hide payload with the same password, or none, gives back the packed archive of the prepared records |
| Worker.PreparedReadable | invisiovault.py:370 | a record prepared without a password extracts to the file's own bytes |
| Worker.ExtractPacked | invisiovault.py:349-392 | extracting a packed archive of readable records, with every write succeeding, ends in success and saves every record's content at new paths in order |
| Worker.HideThenExtract | invisiovault.py:275-396 | hiding files and then extracting from the written channels, with the same password, ends in success: one new, distinct, previously free path per file, each holding that file's bytes, and every earlier file on the disk kept |

## Left out

- Image files: opening, converting to RGB and saving the image are not
  modelled. `Carrier` is the decoded 3-channel pixel array. Whether saving
  succeeded is the `saved` parameter. Exceptions raised inside
  `hide_data_in_image` other than the overflow and the capacity check
  appear only through that flag.
- Cryptography: PBKDF2-HMAC-SHA256 and the AES block function are
  parameters. Only the CBC chaining, PKCS#7 padding and the envelope layout
  are modelled.
- `derive_key` with no salt draws one from `os.urandom`. The core always
  passes a salt, so that branch is not modelled.
- Random salt and IV, the clock, and file reads are parameters.
- JSON text: `json.dumps`, `json.loads` and UTF-8 are parameters.
  Parsed metadata is a record whose keys may be missing. A JSON value
  that is not an object, or a filename that is not a string, is not
  distinguished from a missing key.
- Progress: `int((i+1)/n*50)` is modelled as the exact floor of
  (i+1)·50/n. Python's float division can round down one less, for
  example `int(29/50*50)` is 28.
- Paths: `os.path.join`, `splitext` and `basename` are functions of `Env`.
  The directory is the `Disk` map. A failed write leaves the disk as it
  was; a partly written file is not modelled.
- The Qt thread, its signals and the `run` dispatch on `task_type` with
  its `params` lookups are not modelled. Each run returns its event
  sequence instead of emitting signals.
- The `print` calls in the except branches, and the messages of the
  exceptions that `decrypt_data` swallows, are not modelled.
- `total_size` in `_hide_files` is never read and is not modelled.
- HideThenExtract: requires fewer than 0x49000000 files. Beyond that, an
  unencrypted archive can begin with the bytes of `"INVISIOVAULT"` and
  would be taken for an envelope.
- HideThenExtract: requires every write to succeed, a block cipher and a
  JSON codec that round-trips. Without these, `_extract_files` does not
  promise the files back either.
- ExtractPacked: requires every record to be readable and every write to
  succeed, for the same reason.
