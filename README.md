# FileHideLibrary container format, in Dafny

FileHideLibrary hides data inside an ordinary file by appending it. The carrier stays readable.
The combined file is laid out as

    carrier ++ FH_START(10) ++ int32 version ++ probe(16) ++ payload ++ int64 originalLength ++ FH_END(13)

with big-endian two's-complement integers. `FH_START` and `FH_END` are the magic numbers
"Alex1sBigD" and "Alex1sBigDEnd". The probe is `FH_CRYPT` ("FHCrypt" followed by nine zero
bytes). It is stored as is in an unencrypted file and encrypted in an encrypted one.

This project models the three classes that produce and consume that layout:

- **FHFile** (`fhfile.dfy`, module `FHFileFormat`).
  - The validating constructor is the pure function `Parse`. It runs the same checks, in the same
    order and with the same exceptions: the end marker, the footer geometry computed in 64-bit
    long arithmetic, the start marker at the stored length, the version, and the probe that
    decides the mode.
  - Each seek to a negative position is an `IoError` outcome.
  - The class `FHFile` holds the fields `Parse` derives. It covers the encryption guards of
    `cryptoBytes()` and `checkPassword`, and the truncation of `deleteHiddenData`.
  - A file on disk is a `StoredFile` object whose byte sequence the methods reassign.
- **FHOutputStream** (`fhoutput.dfy`, module `FHOutput`). A class with the writer's state: the
  `encrypt` flag, the sinks it has closed, and what the active sink has received.
  - `writeEncrypted` is the toggle that closes the active sink and opens one of the other mode.
    It does nothing when there is no cipher or when the mode is already active.
  - A closed sink's bytes reach the file: as written for a plain sink, and as `enc` of
    everything it received for a cipher sink. `enc` is an uninterpreted parameter.
- **FHInputStream** (`fhinput.dfy`, module `FHInput`). A class with the counter `read` and the
  `EOF` latch.
  - `checkLen` adds each requested length to the counter in long arithmetic and clamps the
    request at `offsetEnd`. It latches EOF on the request that reaches `offsetEnd`. After that,
    every read returns -1.
  - The wrapped stream is the byte sequence it delivers, together with a position.
- **The FHFile operations that drive the streams** (`fhfileops.dfy`, module `FHFileOps`).
  - `extractHiddenData` in both modes, including the `Files.copy` loop over an 8192-byte buffer.
  - `hideFile`: record the length, write, validate, truncate back on failure.
- **The cipher's effect on the layout** (`fhcipher.dfy`, module `FHCipherLayout`). It uses PKCS#5
  padding (section 6.1.1 of RFC 8018) and the fact that the first CBC block decrypts on its own.
  AES itself stays uninterpreted.

The main results:
- Round trip without a cipher. `PlainRoundTrip` and `HideAndExtract` show that a closed writer
  appends bytes that open as an unencrypted FHFile. The offsets are `|carrier| + 30` and
  `|file| - 21`, and extraction yields the payload exactly, for every non-empty payload.
- Parsing a frame. `ParseFrame` gives the verdict for any frame. `ParseIsFrame` is the converse:
  every file that opens is such a frame. `ProbeDecidesMode` shows that the 16 bytes before
  `offsetStart` decide the mode.
- Reader accounting. `RunAccounts` and `FHInputStream.Accounting` show that the total length
  handed to the wrapped stream is `min(requested, offsetEnd - offsetStart)`. EOF is latched
  exactly when the requests cover the region, and until then the counter stays inside
  `[offsetStart, offsetEnd)`. The counter may wrap past the largest long without changing the
  outcome (`TrueDistance`).
- The encrypted layout as written.
  - The writer closes the probe's cipher sink on its own, so PKCS#5 padding turns the 16-byte
    probe into 32 bytes. The open reads only the first 16 of them as `cryptoBytes`, so the
    region it reports as hidden data starts with the other 16 (`CipherOutputOpens`).
  - Those 16 stored bytes decrypt to `FH_CRYPT`, whose last byte is 0 and therefore not valid
    padding. So `checkPassword` with the right password answers false
    (`RightPasswordRejected`, and `WrittenPasswordRejected` for a file the writer produced).

## Model

| member | source | states |
|---|---|---|
| Bytes.ToLong | src/org/filehide/filehidelibrary/FHFile.java:101 | long subtraction yields the one long that differs from the true value by 0 or 2^64 (the range bound and the three candidates determine it), so it is exact when the true value fits and wraps once when it does not |
| Bytes.ToInt | src/org/filehide/filehidelibrary/FHInputStream.java:126 | the `(int)` cast keeps the value modulo 2^32 in the int range, exact when it fits |
| Bytes.SignedByte | src/org/filehide/filehidelibrary/FHInputStream.java:97 | a byte widened to int lies in -128..127 and agrees with the byte modulo 256 |
| Bytes.ReadInt | src/org/filehide/filehidelibrary/FHFile.java:117 | readInt yields an int: the unsigned big-endian value, shifted by 2^32 when above INT_MAX |
| Bytes.ReadLong | src/org/filehide/filehidelibrary/FHFile.java:100 | readLong yields a long: the unsigned big-endian value, shifted by 2^64 when above LONG_MAX |
| Bytes.ReadIntWriteInt | src/org/filehide/filehidelibrary/FHOutputStream.java:98 | reading back the 4 bytes writeInt wrote gives the int back, for every int |
| Bytes.ReadLongWriteLong | src/org/filehide/filehidelibrary/FHOutputStream.java:112 | reading back the 8 bytes writeLong wrote gives the long back, for every long |
| Bytes.WriteIntReadInt | src/org/filehide/filehidelibrary/FHFile.java:117 | any 4 bytes are the writeInt encoding of the int readInt takes from them |
| Bytes.WriteLongReadLong | src/org/filehide/filehidelibrary/FHFile.java:100 | any 8 bytes are the writeLong encoding of the long readLong takes from them |
| FHFileFormat.HeadLength | src/org/filehide/filehidelibrary/FHFile.java:277-279 | FH_HEAD_LENGTH is 10 + 4 + 16 = 30 |
| FHFileFormat.EndLength | src/org/filehide/filehidelibrary/FHFile.java:284-286 | FH_END_LENGTH is 8 + 13 = 21 |
| FHFileFormat.Parse | src/org/filehide/filehidelibrary/FHFile.java:83-142 | a file shorter than 13 bytes is an IOException; a mismatched end marker is NotFHFile, before any other check; a file of 13 to 20 bytes ending in the marker is an IOException from the seek to the footer; on success HeadLength <= offsetStart < offsetEnd = length - 21, encrypted exactly when cryptoBytes is set, cryptoBytes is 16 bytes long, and an encrypted region is a whole number of 16-byte blocks |
| FHFileFormat.CheckGeometry | src/org/filehide/filehidelibrary/FHFile.java:97-111 | after the footer check and the seek, a successful open ends its region where the footer starts, with the same mode, cryptoBytes length and block properties |
| FHFileFormat.GeometryCorrupt | src/org/filehide/filehidelibrary/FHFile.java:97-105 | a file with the end marker whose hidden-data length, computed in long arithmetic from the stored length, is not positive opens as Corrupt |
| FHFileFormat.NoRoomIsCorrupt | src/org/filehide/filehidelibrary/FHFile.java:97-111 | a non-negative stored length that leaves no room for a header and one byte before the footer, or lies past the end, opens as Corrupt |
| FHFileFormat.CheckHead | src/org/filehide/filehidelibrary/FHFile.java:107-139 | an accepted header puts offsetStart 30 bytes after the stored length, and offsetEnd where the footer starts; an encrypted one keeps the 16 probe bytes `h[14..30]` as cryptoBytes |
| FHFileFormat.ParseFrame | src/org/filehide/filehidelibrary/FHFile.java:83-142 | a file made of `n` carrier bytes, FH_START, a version, 16 probe bytes, a non-empty payload, a footer recording `n` and FH_END opens as FrameVerdict says: negative version Corrupt, other non-zero version IncompatibleVersion, probe FH_CRYPT unencrypted, any other probe encrypted with cryptoBytes = probe, or Corrupt when the payload is not a multiple of 16; the offsets bracket the payload exactly |
| FHFileFormat.PlainFrameOpens | src/org/filehide/filehidelibrary/FHFile.java:126-139 | an unencrypted version 0 frame with a non-empty payload opens unencrypted at offsets `|carrier| + 30` and `length - 21`, with the payload between them |
| FHFileFormat.ParseIsFrame | src/org/filehide/filehidelibrary/FHFile.java:83-142 | conversely, every file that opens is the frame of its carrier, a version 0 header, its probe and its region |
| FHFileFormat.ProbeDecidesMode | src/org/filehide/filehidelibrary/FHFile.java:126-137 | an opened file is encrypted exactly when the 16 bytes before offsetStart differ from FH_CRYPT, and those bytes are then its cryptoBytes |
| FHFileFormat.HeaderBeforeOffsetStart | src/org/filehide/filehidelibrary/FHFile.java:107-139 | in an opened file, the bytes before offsetStart are the carrier, FH_START, version 0 and the probe |
| FHFileFormat.ParseChecksStartMarker | src/org/filehide/filehidelibrary/FHFile.java:107-114 | when the footer points at bytes that are not FH_START, the open fails with Corrupt |
| FHFileFormat.TruncatedIsNotFHFile | src/org/filehide/filehidelibrary/FHFile.java:88-95 | cutting the last byte off any FHFile leaves a file that fails with NotFHFile |
| FHFileFormat.EmptyPayloadIsCorrupt | src/org/filehide/filehidelibrary/FHFile.java:97-105 | a frame with an empty payload fails the geometry check with Corrupt, whatever its header |
| FHFileFormat.NegativeStoredLength | src/org/filehide/filehidelibrary/FHFile.java:97-108 | a negative stored length is an IOException from the seek, unless the long subtraction wraps or is not positive, which is Corrupt first |
| FHFileFormat.SecretInHundredZeros | src/org/filehide/filehidelibrary/FHFile.java:83-142 | a 100-byte carrier hiding 6 bytes is 157 bytes long, and its hidden data lies in [130, 136) |
| FHFileFormat.SetLength | src/org/filehide/filehidelibrary/FHFile.java:153 | setLength leaves exactly the requested length and keeps the bytes below it |
| FHFileFormat.FHFile.constructor | src/org/filehide/filehidelibrary/FHFile.java:134-139 | the object holds the fields the open derived from the file's bytes |
| FHFileFormat.FHFile.CryptoBytes | src/org/filehide/filehidelibrary/FHFile.java:266-269 | NotEncrypted exactly on an unencrypted file, otherwise the stored 16-byte probe |
| FHFileFormat.FHFile.CheckPassword | src/org/filehide/filehidelibrary/FHFile.java:173-182 | NotEncrypted exactly on an unencrypted file, otherwise true exactly when doFinal accepts cryptoBytes |
| FHFileFormat.FHFile.DeleteHiddenData | src/org/filehide/filehidelibrary/FHFile.java:151-155 | the file's length becomes offsetStart, keeping the old bytes below it; on the file it was opened from, what remains is the carrier followed by the 30-byte header |
| FHFileFormat.Open | src/org/filehide/filehidelibrary/FHFile.java:83-142 | new FHFile succeeds exactly when Parse does, with Parse's fields, and otherwise throws Parse's error |
| FHOutput.Append | src/org/filehide/filehidelibrary/FHOutputStream.java:97 | a write extends what was written by exactly the data and changes neither the mode nor the closed sinks |
| FHOutput.CloseSink | src/org/filehide/filehidelibrary/FHOutputStream.java:126-133 | closing the active sink records what it received as a segment in its mode, and nothing written is lost |
| FHOutput.Toggle | src/org/filehide/filehidelibrary/FHOutputStream.java:121-136 | after writeEncrypted(m) the mode is m, except that encryption is refused without a cipher; a refused or redundant request changes nothing, and an effective one closes the active sink; what was written is unchanged |
| FHOutput.ToggleIdempotent | src/org/filehide/filehidelibrary/FHOutputStream.java:124-130 | asking twice for the same mode is asking once |
| FHOutput.NoCipherNeverSwitches | src/org/filehide/filehidelibrary/FHOutputStream.java:123 | without a cipher, writeEncrypted never changes the state |
| FHOutput.Opened | src/org/filehide/filehidelibrary/FHOutputStream.java:46-55 | after construction the writer encrypts exactly when it has a cipher; with a cipher the header fields, the probe's own cipher segment and an empty plain segment are closed; without one everything is still in the plain sink |
| FHOutput.Finished | src/org/filehide/filehidelibrary/FHOutputStream.java:87-90 | close() leaves plain mode with no open data, having written the stored length and FH_END after everything else |
| FHOutput.CompleteSegments | src/org/filehide/filehidelibrary/FHOutputStream.java:46-136 | a writer opened, given a payload and closed has closed exactly five sinks with a cipher (fields, probe, empty, payload, footer) and a single plain sink without one |
| FHOutput.CompleteOutput | src/org/filehide/filehidelibrary/FHOutputStream.java:96-114 | the bytes it appends: the header fields, then probe and payload each encrypted separately (or plain), then the footer |
| FHOutput.PlainOutputIsFrame | src/org/filehide/filehidelibrary/FHOutputStream.java:96-114 | without a cipher, carrier plus output is the version 0 frame with probe FH_CRYPT and footer `|carrier|` |
| FHOutput.PlainRoundTrip | src/org/filehide/filehidelibrary/FHOutputStream.java:96-114 | without a cipher and with a non-empty payload, the result opens unencrypted with offsets `|carrier| + 30` and `length - 21`, and the payload between them |
| FHOutput.FHOutputStream.constructor | src/org/filehide/filehidelibrary/FHOutputStream.java:46-55 | originalFileLength is the file's length before any header byte; the state is Opened, and the file holds the carrier followed by the closed sinks' bytes |
| FHOutput.FHOutputStream.CloseActiveSink | src/org/filehide/filehidelibrary/FHOutputStream.java:126-132 | closing `out` appends the sink's bytes to the file and keeps the file equal to carrier plus rendered sinks |
| FHOutput.FHOutputStream.WriteEncrypted | src/org/filehide/filehidelibrary/FHOutputStream.java:121-136 | the state becomes Toggle of the old state; the file stays carrier plus rendered sinks |
| FHOutput.FHOutputStream.Write | src/org/filehide/filehidelibrary/FHOutputStream.java:18 | the inherited FilterOutputStream write hands the data to `out`, the sink writeEncrypted last installed |
| FHOutput.FHOutputStream.WriteFHHead | src/org/filehide/filehidelibrary/FHOutputStream.java:96-103 | FH_START and the version in plain, then FH_CRYPT through the cipher sink, which is closed again |
| FHOutput.FHOutputStream.WriteFHEnd | src/org/filehide/filehidelibrary/FHOutputStream.java:109-114 | back to plain mode, then the stored length and FH_END |
| FHOutput.FHOutputStream.Close | src/org/filehide/filehidelibrary/FHOutputStream.java:87-90 | the state is Finished of the old state and the file holds everything the writer emitted |
| FHOutput.WriteHiddenData | src/org/filehide/filehidelibrary/FHOutputStream.java:46-90 | opening a writer, writing the payload and closing it appends exactly the complete writer's output to the file |
| FHInput.CheckLen | src/org/filehide/filehidelibrary/FHInputStream.java:119-131 | before the end of the region, EOF is latched exactly when the request reaches offsetEnd; then the length shrinks to offsetEnd - read, otherwise it is unchanged and the counter grows by it; the length stays in [0, len] |
| FHInput.TrueDistance | src/org/filehide/filehidelibrary/FHInputStream.java:120-121 | the distance computed from a counter that wrapped past the largest long is still the true distance |
| FHInput.Run | src/org/filehide/filehidelibrary/FHInputStream.java:105-131 | the counter stays a long across any sequence of requests |
| FHInput.RunAccounts | src/org/filehide/filehidelibrary/FHInputStream.java:106-131 | the lengths handed to the wrapped stream add up to min(requested, region); EOF exactly when the requests cover the region; before EOF the counter is offsetStart plus the requests, inside [offsetStart, offsetEnd) |
| FHInput.RunStep | src/org/filehide/filehidelibrary/FHInputStream.java:106-109 | one more request before EOF goes through checkLen |
| FHInput.Deliver | src/org/filehide/filehidelibrary/FHInputStream.java:108 | the wrapped stream returns 0 exactly for an empty request, -1 exactly at its end, otherwise at most what was asked and what it has |
| FHInput.DeliverAdvances | src/org/filehide/filehidelibrary/FHInputStream.java:108 | a wrapped stream that delivered min(passed, size) delivers min(passed + k, size) after one more request of k |
| FHInput.Skipped | src/org/filehide/filehidelibrary/FHInputStream.java:75-76 | skip(offsetStart) leaves the bytes after offsetStart, or nothing on a shorter file |
| FHInput.FHInputStream.Accounting | src/org/filehide/filehidelibrary/FHInputStream.java:119-131 | on an open stream the total handed on is within the region, and equals it exactly when EOF is latched |
| FHInput.FHInputStream.constructor | src/org/filehide/filehidelibrary/FHInputStream.java:44-45 | the counter starts at offsetStart, EOF false, nothing delivered |
| FHInput.FHInputStream.CheckLength | src/org/filehide/filehidelibrary/FHInputStream.java:119-131 | the counter and the latch take CheckLen's values, and the returned length is added to the total handed on |
| FHInput.FHInputStream.Transfer | src/org/filehide/filehidelibrary/FHInputStream.java:108 | the wrapped stream copies what it delivers into b[off..] and leaves the rest of b alone |
| FHInput.FHInputStream.ReadInto | src/org/filehide/filehidelibrary/FHInputStream.java:105-109 | after EOF it returns -1 and touches nothing; otherwise it records the request, applies checkLen and delivers the clamped length from the source into b[off..] |
| FHInput.FHInputStream.ReadClamped | src/org/filehide/filehidelibrary/FHInputStream.java:108 | super.read(b, off, checkLen(len)), with the same effect as ReadInto before EOF |
| FHInput.FHInputStream.ReadAll | src/org/filehide/filehidelibrary/FHInputStream.java:100-103 | read(b) is read(b, 0, b.length): -1 after EOF; before it, the counter and latch move as checkLen(b.length) says, the request is recorded, the delivered bytes fill the front of b and the rest of b is unchanged |
| FHInput.FHInputStream.ReadByte | src/org/filehide/filehidelibrary/FHInputStream.java:89-98 | read() returns a negative bulk result unchanged, otherwise the signed next byte of the source (0xFF comes back as -1); before EOF it moves the counter and latch as checkLen(1) says |
| FHInput.OpenPlain | src/org/filehide/filehidelibrary/FHInputStream.java:40-46 | Encrypted exactly on an encrypted file, otherwise a fresh stream over the file's bytes after offsetStart |
| FHInput.OpenDecrypting | src/org/filehide/filehidelibrary/FHInputStream.java:55-61 | NotEncrypted exactly on an unencrypted file, otherwise a fresh stream over the decryption of the bytes after offsetStart |
| FHFileOps.Extracted | src/org/filehide/filehidelibrary/FHFile.java:216 | what a reader delivers is a prefix of its source no longer than the region |
| FHFileOps.HiddenRegion | src/org/filehide/filehidelibrary/FHFile.java:216 | when the file reaches offsetEnd, the hidden data is the bytes between the offsets |
| FHFileOps.ExtractedPlain | src/org/filehide/filehidelibrary/FHFile.java:216 | the plain reader's delivery is the hidden region of the file |
| FHFileOps.CopyOut | src/org/filehide/filehidelibrary/FHFile.java:216 | Files.copy on a fresh reader leaves in `to` exactly the source cut at the region |
| FHFileOps.CopyChunk | src/org/filehide/filehidelibrary/FHFile.java:216 | one turn of the copy loop keeps the loop invariant and makes progress |
| FHFileOps.ReadChecked | src/org/filehide/filehidelibrary/FHFile.java:216 | read(buf) never returns 0, returns -1 only when the region or the source is used up, and moves the counter by the buffer length until EOF |
| FHFileOps.ExtractHiddenData | src/org/filehide/filehidelibrary/FHFile.java:214-217 | Encrypted exactly on an encrypted file, with `to` untouched; otherwise `to` holds the file's hidden region |
| FHFileOps.ExtractHiddenDataDecrypting | src/org/filehide/filehidelibrary/FHFile.java:202-205 | NotEncrypted exactly on an unencrypted file, with `to` untouched; otherwise, for a wrapped stream that fills every request as far as it can, `to` holds the decryption of the bytes after offsetStart, cut at the size of the region |
| FHFileOps.HideFile | src/org/filehide/filehidelibrary/FHFile.java:219-232 | succeeds exactly when toBeHiddenIn opens, with the open's fields; an IOException passes through, any other failure becomes CreationFailed; toBeHiddenIn ends with the length recorded first; `origin` is unchanged only because the model never flushes the writer's buffer |
| FHFileOps.HideAndExtract | src/org/filehide/filehidelibrary/FHFile.java:214-217 | writing a non-empty payload without a cipher and extracting it gives the payload back |
| FHCipherLayout.PaddedLength | src/org/filehide/filehidelibrary/FHCipher.java:67 | PKCS#5 output is a whole number of blocks, longer than the input by 1 to 16 bytes |
| FHCipherLayout.Pad | src/org/filehide/filehidelibrary/FHCipher.java:67 | padding has the padded length and keeps the input as its prefix |
| FHCipherLayout.Unpad | src/org/filehide/filehidelibrary/FHCipher.java:67 | unpadding accepts only non-empty whole blocks ending in a byte k in 1..16, and removes exactly k bytes |
| FHCipherLayout.UnpadPad | src/org/filehide/filehidelibrary/FHCipher.java:67 | unpadding undoes padding |
| FHCipherLayout.ProbeIsUnpadded | src/org/filehide/filehidelibrary/FHFile.java:45 | FH_CRYPT is not validly padded |
| FHCipherLayout.CipherOutputIsFrame | src/org/filehide/filehidelibrary/FHOutputStream.java:96-114 | with a cipher, the output is the frame whose probe is the first 16 bytes of the probe's ciphertext and whose region is the rest of it followed by the payload's ciphertext |
| FHCipherLayout.CipherFrameOpens | src/org/filehide/filehidelibrary/FHFile.java:126-139 | a version 0 frame with a probe other than FH_CRYPT and a non-empty, block-aligned payload opens encrypted with the probe as cryptoBytes |
| FHCipherLayout.CipherOutputOpens | src/org/filehide/filehidelibrary/FHOutputStream.java:96-103 | an encrypted writer's output opens encrypted, with cryptoBytes the first 16 of the probe's 32 cipher bytes and a region that starts with the other 16 |
| FHCipherLayout.RightPasswordRejected | src/org/filehide/filehidelibrary/FHFile.java:173-182 | when the stored 16 bytes decrypt to FH_CRYPT, checkPassword answers false |
| FHCipherLayout.WrittenPasswordRejected | src/org/filehide/filehidelibrary/FHFile.java:173-182 | on a file the writer produced with a CBC cipher, checkPassword with the writing password answers false, since the stored 16 bytes decrypt to FH_CRYPT itself |

## Left out

- The `"w"` mode passed to `RandomAccessFile` in `deleteHiddenData` and `hideFile` is not a valid mode, and Java rejects it with an exception. The model performs the intended `setLength` truncation instead.
- FHFileOps.HideFile: models the I/O wiring as written. `toBeHiddenIn`'s bytes go to a writer on `origin`, and that writer is never closed. Its bytes stay in the writer's buffer, and the model does not flush a full buffer early, so no byte reaches `origin` and `toBeHiddenIn` is read as it was. Whether the recorded length actually changes on disk is therefore not modelled beyond this.
- The model makes no end-to-end round-trip claim through `hideFile`, because the footer is never written.
- `NotFHFileAnymoreException` and invalidating an FHFile after `deleteHiddenData`: the source declares the exception but never throws it.
- The streams that are never closed on error paths, and exceptions thrown by `close()`.
- The debug `System.out.println` in `checkLen`.
- FHCipher's key derivation (SHA-256 truncated to 16 bytes) and AES itself. The writer takes the encryption of a sink's input as a parameter `enc`, and the reader takes the decryption as `decrypt`. `checkPassword` takes `doFinal` as a parameter. The padding is modelled only in `fhcipher.dfy`, and there only as requires about `enc`.
- The UTF-8 encoding of `String` passwords.
- FHFileOps.ExtractHiddenDataDecrypting: with a real `CipherInputStream`, each read returns at most what one internal update produces (512 input bytes). Meanwhile the counter counts the full 8192 bytes that `Files.copy` requests each time, so EOF is latched after ceil(region / 8192) reads, and Java's extraction stops short of the region whenever the region is larger than about 512 bytes. The contract states the result for a wrapped stream that fills every request.
- FHInput.Deliver: a `CipherInputStream` may return fewer bytes than it has on any call. The model gives both wrapped streams the file stream's behaviour: as many bytes as asked for and available.
- FHInput.FHInputStream.ReadInto: requires `off + len <= b.Length`, which also excludes requests beyond the array whose clamped length still fits (Java serves those normally). Negative `off` or `len` are excluded too. For a request whose clamped length exceeds the array, Java's `checkLen` has already added `len` to the counter, and may have latched EOF, before the wrapped stream throws `IndexOutOfBoundsException`; the model does not capture that state change.
- FHOutput.FHOutputStream.Write: a write or a close after `close()` is excluded by the requires.
- FHFileFormat.Parse: requires the file to be no longer than a Java long can count.
- The streams and files are byte sequences. Buffering, file handles and `Files.copy` internals are left out, except for the copy loop, which is modelled.
- `deleteHiddenData` cuts the file at `offsetStart`, so the 30-byte header stays in the file and the carrier is not restored exactly. The model follows the code.
- The reader's counter counts requested bytes, not delivered ones. In encrypted mode it counts bytes of the plaintext stream against the ciphertext region's size. The model follows the code.
- `Test.java` and the exception classes, apart from the error kinds of `Error`.
