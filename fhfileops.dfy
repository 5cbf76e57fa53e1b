/** The FHFile operations that move hidden data in and out of files through the streams:
    extracting the hidden data (the copy loop of Files.copy over an FHInputStream), and
    hideFile's record-the-length, validate, truncate-on-failure sequence. */
module FHFileOps {
  import opened Bytes
  import opened FHFileFormat
  import opened FHOutput
  import opened FHInput

  /** The size of the buffer Files.copy moves bytes through. */
  const BUFFER_SIZE: nat := 8192

  /** What a reader opened on `fh` with `source` as its wrapped stream delivers before it
      stops: the source cut at the size of the hidden-data region. */
  function Extracted(fh: FHFile, source: seq<byte>): (r: seq<byte>)
    requires fh.Valid()
    ensures |r| <= fh.offsetEnd - fh.offsetStart && r <= source
  {
    source[..Min(fh.offsetEnd - fh.offsetStart, |source|)]
  }

  /** The bytes of a file between offsetStart and offsetEnd, as far as the file reaches. */
  function HiddenRegion(content: seq<byte>, fh: FHFile): (r: seq<byte>)
    requires fh.Valid()
    ensures fh.offsetEnd <= |content| ==> r == content[fh.offsetStart..fh.offsetEnd]
  {
    if fh.offsetStart <= |content| then content[fh.offsetStart..Min(fh.offsetEnd, |content|)] else []
  }

  /** The plain reader's source cut at the region is the region itself. */
  lemma ExtractedPlain(fh: FHFile, content: seq<byte>)
    requires fh.Valid()
    ensures Extracted(fh, Skipped(content, fh.offsetStart)) == HiddenRegion(content, fh)
  {
  }

  /** Files.copy(in, to, REPLACE_EXISTING) on a freshly opened reader: `to` is emptied,
      then receives what read(buf) delivers, buffer by buffer, while read(buf) delivers
      something. */
  method CopyOut(input: FHInputStream, to: StoredFile)
    requires input.Valid() && !input.eof && input.position == 0
    modifies input, to
    ensures input.Valid()
    ensures to.content == Extracted(input.file, input.source)
  {
    var buffer := new byte[BUFFER_SIZE];
    to.content := [];
    var n := ReadChecked(input, buffer);
    while n > 0
      invariant Copying(input, to, buffer, n)
      decreases Remaining(input, n)
    {
      n := CopyChunk(input, to, buffer, n);
    }
  }

  /** The copy loop's invariant: `to` holds what the reader delivered, except the `n` bytes
      of the last read still in the buffer; a negative `n` means the reader delivered all
      it will. */
  ghost predicate Copying(input: FHInputStream, to: StoredFile, buffer: array<byte>, n: int)
    reads input, to, buffer
  {
    && input.Valid() && n != 0 && n <= buffer.Length
    && (n > 0 ==> n <= input.position && buffer[..n] == input.source[input.position - n..input.position])
    && to.content == input.source[..input.position - (if n > 0 then n else 0)]
    && (n < 0 ==> input.position == Min(input.file.offsetEnd - input.file.offsetStart, |input.source|))
  }

  /** What the copy loop has left: the distance of the counter to offsetEnd until EOF, plus
      the buffered bytes not yet written. */
  ghost function Remaining(input: FHInputStream, n: int): int
    reads input
  {
    (if input.eof then 0 else input.file.offsetEnd - input.read + 1) + (if n > 0 then 1 else 0)
  }

  /** One turn of the copy loop: write the buffered bytes to `to`, then read(buf) again. */
  method CopyChunk(input: FHInputStream, to: StoredFile, buffer: array<byte>, n: int) returns (next: int)
    requires Copying(input, to, buffer, n) && n > 0 && buffer.Length == BUFFER_SIZE
    modifies input, to, buffer
    ensures Copying(input, to, buffer, next)
    ensures 0 <= Remaining(input, next) < old(Remaining(input, n))
  {
    to.content := to.content + buffer[..n];
    next := ReadChecked(input, buffer);
  }

  /** read(buf) on the reader, with what it implies for the copy loop: it never delivers
      nothing, it reports the end only once the region or the source is used up, and until
      EOF every call moves the counter by the buffer's length. */
  method ReadChecked(input: FHInputStream, buffer: array<byte>) returns (n: int)
    requires input.Valid() && buffer.Length == BUFFER_SIZE
    modifies input, buffer
    ensures input.Valid()
    ensures n != 0 && n <= BUFFER_SIZE
    ensures n > 0 ==> input.position == old(input.position) + n && buffer[..n] == input.source[old(input.position)..input.position]
    ensures n < 0 ==> input.position == old(input.position) == Min(input.file.offsetEnd - input.file.offsetStart, |input.source|)
    ensures old(input.eof) ==> n < 0 && input.eof
    ensures !old(input.eof) && !input.eof ==> input.read == old(input.read) + BUFFER_SIZE
  {
    n := input.ReadAll(buffer);
    input.Accounting();
  }

  /** extractHiddenData(to): FHFileEncryptedException on an encrypted file; otherwise `to`
      receives the hidden-data region of the file, as far as the file reaches. */
  method ExtractHiddenData(fh: FHFile, to: StoredFile) returns (r: Result<(), Error>)
    requires fh.Valid()
    modifies to
    ensures r.Err? <==> fh.encrypted
    ensures r.Err? ==> r.error == Encrypted && to.content == old(to.content)
    ensures r.Ok? ==> to.content == HiddenRegion(old(fh.file.content), fh)
  {
    var attempt := OpenPlain(fh);
    if attempt.Err? {
      return Err(attempt.error);
    }
    ExtractedPlain(fh, fh.file.content);
    CopyOut(attempt.value, to);
    r := Ok(());
  }

  /** extractHiddenData(to, password): FHFileNotEncryptedException on an unencrypted file;
      otherwise `to` receives what the cipher stream decrypts from the bytes after
      offsetStart, cut at the size of the region. */
  method ExtractHiddenDataDecrypting(fh: FHFile, to: StoredFile, decrypt: seq<byte> -> seq<byte>) returns (r: Result<(), Error>)
    requires fh.Valid()
    modifies to
    ensures r.Err? <==> !fh.encrypted
    ensures r.Err? ==> r.error == NotEncrypted && to.content == old(to.content)
    ensures r.Ok? ==> to.content == Extracted(fh, decrypt(Skipped(old(fh.file.content), fh.offsetStart)))
  {
    var attempt := OpenDecrypting(fh, decrypt);
    if attempt.Err? {
      return Err(attempt.error);
    }
    CopyOut(attempt.value, to);
    r := Ok(());
  }

  /** hideFile(origin, toBeHiddenIn): records toBeHiddenIn's length, copies toBeHiddenIn's
      bytes into an unencrypted writer opened on origin (never closed), then opens
      toBeHiddenIn as an FHFile. An IOException passes through; any other failure truncates
      toBeHiddenIn back to the recorded length and becomes FHFileCreationFailedException. */
  method HideFile(origin: StoredFile, toBeHiddenIn: StoredFile, enc: seq<byte> -> seq<byte>) returns (r: Result<FHFile, Error>)
    requires |toBeHiddenIn.content| <= LONG_MAX
    modifies origin, toBeHiddenIn
    ensures r.Ok? <==> Parse(old(toBeHiddenIn.content)).Ok?
    ensures r.Ok? ==> r.value.file == toBeHiddenIn && r.value.Valid() && r.value.Fields() == Parse(old(toBeHiddenIn.content)).value
    ensures r.Err? ==> r.error == (if Parse(old(toBeHiddenIn.content)).error == IoError then IoError else CreationFailed)
    ensures |toBeHiddenIn.content| == |old(toBeHiddenIn.content)|
    ensures toBeHiddenIn.content == old(toBeHiddenIn.content)
    ensures origin.content == old(origin.content)
  {
    var originalFileLength := |toBeHiddenIn.content|;
    ghost var before := toBeHiddenIn.content;
    var out := new FHOutputStream(origin, false, enc);
    assert Render(Opened(false).closed, enc) == [];
    out.Write(toBeHiddenIn.content);
    assert toBeHiddenIn.content == before;
    var attempt := Open(toBeHiddenIn);
    if attempt.Err? {
      if attempt.error == IoError {
        return Err(IoError);
      }
      SetLength(toBeHiddenIn, originalFileLength);
      return Err(CreationFailed);
    }
    r := Ok(attempt.value);
  }

  /** The round trip the format exists for: an unencrypted writer that receives a non-empty
      payload and is closed leaves a file that opens as an unencrypted FHFile, and
      extracting its hidden data yields the payload. */
  method HideAndExtract(carrier: StoredFile, to: StoredFile, enc: seq<byte> -> seq<byte>, payload: seq<byte>) returns (r: Result<FHFile, Error>)
    requires |payload| > 0
    requires |carrier.content| + HeadLength() + |payload| + EndLength() <= LONG_MAX
    modifies carrier, to
    ensures r.Ok? && !r.value.encrypted
    ensures to.content == payload
  {
    ghost var original := carrier.content;
    WriteHiddenData(carrier, false, enc, payload);
    ghost var f := carrier.content;
    PlainRoundTrip(original, payload, enc, f);
    r := Open(carrier);
    var fh := r.value;
    assert fh.offsetStart == |original| + HeadLength() && fh.offsetEnd == |f| - EndLength() && !fh.encrypted;
    var extracted := ExtractHiddenData(fh, to);
    assert to.content == f[fh.offsetStart..fh.offsetEnd];
  }
}
