/** The FHFile container format: the magic numbers, the validating open that locates the
    hidden data inside a file, and the FHFile object with its getters, its encryption guards
    and the truncation that deletes the hidden data.

    A FHFile (version 0) is laid out as
      carrier ++ FH_START(10) ++ int32 version ++ probe(16) ++ payload ++ int64 originalLength ++ FH_END(13)
    with both integers big-endian two's complement. */
module FHFileFormat {
  import opened Bytes

  /** The starting magic number ("Alex1sBigD"). */
  const FH_START: seq<byte> := [0x41, 0x6C, 0x65, 0x78, 0x31, 0x73, 0x42, 0x69, 0x67, 0x44]

  /** The ending magic number ("Alex1sBigDEnd"). */
  const FH_END: seq<byte> := [0x41, 0x6C, 0x65, 0x78, 0x31, 0x73, 0x42, 0x69, 0x67, 0x44, 0x45, 0x6E, 0x64]

  /** The probe: stored as is in an unencrypted file, encrypted in an encrypted one. */
  const FH_CRYPT: seq<byte> := [0x46, 0x48, 0x43, 0x72, 0x79, 0x70, 0x74, 0, 0, 0, 0, 0, 0, 0, 0, 0]

  const CURRENT_FILE_VERSION: int := 0

  /** Integer.BYTES, Long.BYTES and FHCipher.BYTES (the cipher's block size). */
  const INTEGER_BYTES: nat := 4
  const LONG_BYTES: nat := 8
  const CIPHER_BYTES: nat := 16

  /** FH_HEAD_LENGTH: start marker, version and probe. */
  function HeadLength(): (n: nat)
    ensures n == 30
  {
    |FH_START| + INTEGER_BYTES + CIPHER_BYTES
  }

  /** FH_END_LENGTH: stored original length and end marker. */
  function EndLength(): (n: nat)
    ensures n == 21
  {
    LONG_BYTES + |FH_END|
  }

  /** The exceptions of the library, plus the IOException a seek to a negative offset throws. */
  datatype Error =
    | IoError              // IOException
    | NotFHFile            // NotFHFileException
    | Corrupt              // FHFileCorruptException
    | IncompatibleVersion  // IncompatibleFHFileVersionException
    | Encrypted            // FHFileEncryptedException
    | NotEncrypted         // FHFileNotEncryptedException
    | CreationFailed       // FHFileCreationFailedException

  /** What a successful open derives: where the hidden data starts and ends, whether it is
      encrypted, and the stored probe (null, here None, unless encrypted). */
  datatype Container = Container(offsetStart: int, offsetEnd: int, encrypted: bool, cryptoBytes: Option<seq<byte>>)

  /** The checks the FHFile constructor runs on a file's bytes, in the order it runs them:
      the end marker, then the footer's geometry, then the header. A file's length is a
      Java long. */
  function Parse(f: seq<byte>): (r: Result<Container, Error>)
    requires |f| <= LONG_MAX
    ensures |f| < |FH_END| ==> r == Err(IoError)
    ensures |f| >= |FH_END| && f[|f| - |FH_END|..] != FH_END ==> r == Err(NotFHFile)
    ensures |FH_END| <= |f| < EndLength() && f[|f| - |FH_END|..] == FH_END ==> r == Err(IoError)
    ensures r.Ok? ==>
      && HeadLength() <= r.value.offsetStart < r.value.offsetEnd
      && r.value.offsetEnd == |f| - EndLength()
      && (r.value.encrypted <==> r.value.cryptoBytes.Some?)
      && (r.value.cryptoBytes.Some? ==> |r.value.cryptoBytes.value| == CIPHER_BYTES)
      && (r.value.encrypted ==> (r.value.offsetEnd - r.value.offsetStart) % CIPHER_BYTES == 0)
  {
    var length := |f|;
    // seek(length - FH_END.length) throws on a negative position
    if length < |FH_END| then Err(IoError)
    else if f[length - |FH_END|..] != FH_END then Err(NotFHFile)
    // seek(offsetEnd) likewise
    else if length < EndLength() then Err(IoError)
    else
      var offsetEnd := length - EndLength();
      CheckGeometry(f, ReadLong(f[offsetEnd..offsetEnd + LONG_BYTES]))
  }

  /** The footer check: the hidden-data length, computed in long arithmetic from the stored
      original length, must be positive; then the seek to the stored length must succeed. */
  function CheckGeometry(f: seq<byte>, originalFileLength: int): (r: Result<Container, Error>)
    requires EndLength() <= |f| <= LONG_MAX
    requires LONG_MIN <= originalFileLength <= LONG_MAX
    ensures r.Ok? ==>
      && HeadLength() <= r.value.offsetStart < r.value.offsetEnd
      && r.value.offsetEnd == |f| - EndLength()
      && (r.value.encrypted <==> r.value.cryptoBytes.Some?)
      && (r.value.cryptoBytes.Some? ==> |r.value.cryptoBytes.value| == CIPHER_BYTES)
      && (r.value.encrypted ==> (r.value.offsetEnd - r.value.offsetStart) % CIPHER_BYTES == 0)
  {
    var hiddenDataLength := ToLong(|f| - originalFileLength - HeadLength() - EndLength());
    if hiddenDataLength <= 0 then Err(Corrupt)
    else if originalFileLength < 0 then Err(IoError)
    // only when the subtraction wrapped: the seek lands past the end of the file, read()
    // finds no bytes, and the zero-filled start array is not FH_START
    else if originalFileLength >= |f| then Err(Corrupt)
    else
      assert hiddenDataLength == |f| - originalFileLength - HeadLength() - EndLength();
      CheckHead(f[originalFileLength..|f| - EndLength()], originalFileLength)
  }

  /** The header check on the bytes from the stored original length `o` up to the footer:
      start marker, version, then the probe that decides the mode. */
  function CheckHead(h: seq<byte>, o: nat): (r: Result<Container, Error>)
    requires |h| > HeadLength()
    ensures r.Ok? ==>
      && r.value.offsetStart == o + HeadLength() && r.value.offsetEnd == o + |h|
      && (r.value.encrypted <==> r.value.cryptoBytes.Some?)
      && (r.value.cryptoBytes.Some? ==> |r.value.cryptoBytes.value| == CIPHER_BYTES)
      && (r.value.cryptoBytes.Some? ==> r.value.cryptoBytes.value == h[|FH_START| + INTEGER_BYTES..HeadLength()])
      && (r.value.encrypted ==> (|h| - HeadLength()) % CIPHER_BYTES == 0)
  {
    var hiddenDataLength := |h| - HeadLength();
    if h[..|FH_START|] != FH_START then Err(Corrupt)
    else
      var fileVersion := ReadInt(h[|FH_START|..|FH_START| + INTEGER_BYTES]);
      if fileVersion < 0 then Err(Corrupt)
      else if fileVersion != CURRENT_FILE_VERSION then Err(IncompatibleVersion)
      else
        var cryptoBytes := h[|FH_START| + INTEGER_BYTES..HeadLength()];
        if cryptoBytes != FH_CRYPT then
          if hiddenDataLength % CIPHER_BYTES != 0 then Err(Corrupt)
          else Ok(Container(o + HeadLength(), o + |h|, true, Some(cryptoBytes)))
        else Ok(Container(o + HeadLength(), o + |h|, false, None))
  }

  /** The bytes of a file whose carrier, version field, probe region and payload are given;
      the footer records the carrier's length. */
  function Frame(carrier: seq<byte>, version: int, probe: seq<byte>, payload: seq<byte>): seq<byte>
  {
    carrier + FH_START + WriteInt(version) + probe + payload + WriteLong(|carrier|) + FH_END
  }

  /** Where the pieces of a frame lie. */
  lemma FrameParts(carrier: seq<byte>, version: int, probe: seq<byte>, payload: seq<byte>)
    requires |probe| == CIPHER_BYTES
    ensures
      var f := Frame(carrier, version, probe, payload);
      var h := FH_START + WriteInt(version) + probe + payload;
      var len := |f|;
      && len == |carrier| + HeadLength() + |payload| + EndLength()
      && f[len - |FH_END|..] == FH_END
      && f[len - EndLength()..len - |FH_END|] == WriteLong(|carrier|)
      && f[|carrier|..len - EndLength()] == h
  {
    var h := FH_START + WriteInt(version) + probe + payload;
    var w := WriteLong(|carrier|);
    Group(carrier, FH_START, WriteInt(version), probe, payload, w, FH_END);
    FourParts(carrier, h, w, FH_END);
  }

  /** Regrouping the pieces of a frame around its header. */
  lemma Group(a: seq<byte>, b: seq<byte>, c: seq<byte>, d: seq<byte>, e: seq<byte>, w: seq<byte>, z: seq<byte>)
    ensures a + b + c + d + e + w + z == a + (b + c + d + e) + w + z
  {
  }

  /** Where the four pieces of a concatenation lie. */
  lemma FourParts(a: seq<byte>, h: seq<byte>, w: seq<byte>, e: seq<byte>)
    ensures
      var f := a + h + w + e;
      && f[|f| - |e|..] == e
      && f[|a| + |h|..|a| + |h| + |w|] == w
      && f[|a|..|a| + |h|] == h
  {
    var f := a + h + w + e;
    assert f[|f| - |e|..] == e;
    assert f[|a| + |h|..|a| + |h| + |w|] == w;
    assert f[|a|..|a| + |h|] == h;
  }

  /** Where the three pieces of a concatenation lie. */
  lemma ThreeParts(a: seq<byte>, w: seq<byte>, e: seq<byte>)
    ensures
      var f := a + w + e;
      f[|f| - |e|..] == e && f[|a|..|a| + |w|] == w
  {
    var f := a + w + e;
    assert f[|f| - |e|..] == e;
    assert f[|a|..|a| + |w|] == w;
  }

  /** An unencrypted version 0 frame with a non-empty payload opens with the payload as its
      hidden data. */
  lemma PlainFrameOpens(f: seq<byte>, carrier: seq<byte>, payload: seq<byte>)
    requires f == Frame(carrier, CURRENT_FILE_VERSION, FH_CRYPT, payload)
    requires |payload| > 0
    requires |carrier| + HeadLength() + |payload| + EndLength() <= LONG_MAX
    ensures |f| == |carrier| + HeadLength() + |payload| + EndLength()
    ensures Parse(f) == Ok(Container(|carrier| + HeadLength(), |f| - EndLength(), false, None))
    ensures f[|carrier| + HeadLength()..|f| - EndLength()] == payload
  {
    FrameParts(carrier, CURRENT_FILE_VERSION, FH_CRYPT, payload);
    ParseFrame(f, |carrier|, CURRENT_FILE_VERSION, FH_CRYPT, payload);
  }

  /** What opening a frame yields: a negative version is corruption, any other version but
      0 is incompatible, the probe decides the mode, and an encrypted payload must be a
      whole number of cipher blocks. */
  function FrameVerdict(version: int, probe: seq<byte>, payloadLength: nat, start: int, end: int): Result<Container, Error>
  {
    if version < 0 then Err(Corrupt)
    else if version != CURRENT_FILE_VERSION then Err(IncompatibleVersion)
    else if probe == FH_CRYPT then Ok(Container(start, end, false, None))
    else if payloadLength % CIPHER_BYTES != 0 then Err(Corrupt)
    else Ok(Container(start, end, true, Some(probe)))
  }

  /** Opening a file laid out as a frame after `n` carrier bytes, known by its slices: it
      opens as FrameVerdict decides from its version and probe, and the offsets bracket the
      payload exactly. */
  lemma ParseFrame(f: seq<byte>, n: nat, version: int, probe: seq<byte>, payload: seq<byte>)
    requires INT_MIN <= version <= INT_MAX
    requires |probe| == CIPHER_BYTES && |payload| > 0
    requires |f| == n + HeadLength() + |payload| + EndLength() <= LONG_MAX
    requires f[|f| - 13..] == FH_END && f[|f| - 21..|f| - 13] == WriteLong(n)
    requires f[n..|f| - 21] == FH_START + WriteInt(version) + probe + payload
    ensures Parse(f) == FrameVerdict(version, probe, |payload|, n + HeadLength(), |f| - EndLength())
    ensures f[n + HeadLength()..|f| - EndLength()] == payload
  {
    var h := FH_START + WriteInt(version) + probe + payload;
    var verdict := FrameVerdict(version, probe, |payload|, n + HeadLength(), |f| - EndLength());
    CheckFramedHead(version, probe, payload, n, |f| - EndLength());
    ParseFramed(f, n, h, verdict);
    assert h[HeadLength()..] == payload;
    SliceOfSlice(f, n, |f| - EndLength(), HeadLength(), |h|);
  }

  /** A file with the end marker and a footer recording `o`, with room for a header and at
      least one byte, opens as the header check on the bytes from `o` decides. */
  lemma ParseFramed(f: seq<byte>, o: nat, h: seq<byte>, verdict: Result<Container, Error>)
    requires |f| <= LONG_MAX && o + HeadLength() < |f| - EndLength()
    requires f[|f| - 13..] == FH_END && f[|f| - 21..|f| - 13] == WriteLong(o)
    requires f[o..|f| - 21] == h && CheckHead(h, o) == verdict
    ensures Parse(f) == verdict
  {
    ReadLongWriteLong(o);
    ParseHeaderAt(f, o);
  }

  /** A file with the end marker whose footer points at a position leaving room for a
      header and at least one byte opens as its header check there decides. */
  lemma ParseHeaderAt(f: seq<byte>, o: nat)
    requires |f| <= LONG_MAX && o + HeadLength() < |f| - EndLength()
    requires f[|f| - 13..] == FH_END && ReadLong(f[|f| - 21..|f| - 13]) == o
    ensures Parse(f) == CheckHead(f[o..|f| - 21], o)
  {
    assert Parse(f) == CheckGeometry(f, o);
  }

  /** A file with the end marker whose hidden-data length, computed in long arithmetic from
      the stored original length, is not positive is corrupt: this covers a stored length
      inside the last 51 bytes or past the end of the file. */
  lemma GeometryCorrupt(f: seq<byte>)
    requires EndLength() <= |f| <= LONG_MAX && f[|f| - 13..] == FH_END
    requires ToLong(|f| - ReadLong(f[|f| - 21..|f| - 13]) - HeadLength() - EndLength()) <= 0
    ensures Parse(f) == Err(Corrupt)
  {
    assert Parse(f) == CheckGeometry(f, ReadLong(f[|f| - 21..|f| - 13]));
  }

  /** A stored length that is not negative but leaves no room for a header and one byte of
      hidden data before the footer is corrupt. */
  lemma NoRoomIsCorrupt(f: seq<byte>)
    requires EndLength() <= |f| <= LONG_MAX && f[|f| - 13..] == FH_END
    requires 0 <= ReadLong(f[|f| - 21..|f| - 13]) && |f| - EndLength() <= ReadLong(f[|f| - 21..|f| - 13]) + HeadLength()
    ensures Parse(f) == Err(Corrupt)
  {
    var stored := ReadLong(f[|f| - 21..|f| - 13]);
    if stored < |f| {
      assert LONG_MIN <= |f| - stored - HeadLength() - EndLength() <= 0;
      GeometryCorrupt(f);
    } else {
      assert Parse(f) == CheckGeometry(f, stored);
    }
  }

  /** A file whose footer points at a header that does not start with FH_START is corrupt. */
  lemma ParseChecksStartMarker(f: seq<byte>, o: nat)
    requires |f| <= LONG_MAX && o + HeadLength() < |f| - EndLength()
    requires f[|f| - 13..] == FH_END && ReadLong(f[|f| - 21..|f| - 13]) == o
    requires f[o..o + 10] != FH_START
    ensures Parse(f) == Err(Corrupt)
  {
    var h := f[o..|f| - 21];
    assert h[..10] == f[o..o + 10];
    assert CheckHead(h, o) == Err(Corrupt);
    ParseHeaderAt(f, o);
  }

  /** The header check on a framed header. */
  lemma CheckFramedHead(version: int, probe: seq<byte>, payload: seq<byte>, o: nat, end: int)
    requires INT_MIN <= version <= INT_MAX
    requires |probe| == CIPHER_BYTES && |payload| > 0
    requires end == o + HeadLength() + |payload|
    ensures
      var h := FH_START + WriteInt(version) + probe + payload;
      CheckHead(h, o) == FrameVerdict(version, probe, |payload|, o + HeadLength(), end)
  {
    var h := FH_START + WriteInt(version) + probe + payload;
    assert h[..10] == FH_START && h[10..14] == WriteInt(version) && h[14..30] == probe;
    ReadIntWriteInt(version);
  }

  /** Conversely, every file that opens is a framed file: its carrier, a version 0 header,
      the probe just before offsetStart, the payload between the offsets, and the footer. */
  lemma ParseIsFrame(f: seq<byte>)
    requires |f| <= LONG_MAX && Parse(f).Ok?
    ensures
      var c := Parse(f).value;
      var o := c.offsetStart - HeadLength();
      f == Frame(f[..o], CURRENT_FILE_VERSION, f[o + 14..o + 30], f[o + 30..c.offsetEnd])
  {
    var c := Parse(f).value;
    var len := |f|;
    var o := c.offsetStart - HeadLength();
    ParseViaHead(f);
    assert ReadLong(f[len - 21..len - 13]) == o;
    assert CheckHead(f[o..len - 21], o) == Ok(c);
    HeadParts(f, o, c);
    PrefixOfHeader(f, o);
    WriteLongReadLong(f[len - 21..len - 13]);
    FrameOfParts(f, o, c.offsetEnd);
  }

  /** The 16 bytes before offsetStart decide the mode: a file is encrypted exactly when they
      differ from FH_CRYPT, and they are then its cryptoBytes. */
  lemma ProbeDecidesMode(f: seq<byte>)
    requires |f| <= LONG_MAX && Parse(f).Ok?
    ensures
      var c := Parse(f).value;
      var o := c.offsetStart - HeadLength();
      && (c.encrypted <==> f[o + 14..o + 30] != FH_CRYPT)
      && (c.encrypted ==> c.cryptoBytes == Some(f[o + 14..o + 30]))
  {
    var c := Parse(f).value;
    var len := |f|;
    var o := c.offsetStart - HeadLength();
    ParseViaHead(f);
    assert ReadLong(f[len - 21..len - 13]) == o;
    assert CheckHead(f[o..len - 21], o) == Ok(c);
    HeadParts(f, o, c);
  }

  /** A file whose prefix up to `o + 30` is a carrier and a version 0 header, and whose last
      21 bytes are the footer recording `o`, is the frame of its pieces; `e` is where the
      footer starts. */
  lemma FrameOfParts(f: seq<byte>, o: nat, e: nat)
    requires o + HeadLength() < e == |f| - EndLength()
    requires f[|f| - 13..] == FH_END && f[|f| - 21..|f| - 13] == WriteLong(o)
    requires f[..o + 30] == f[..o] + FH_START + WriteInt(CURRENT_FILE_VERSION) + f[o + 14..o + 30]
    ensures f == Frame(f[..o], CURRENT_FILE_VERSION, f[o + 14..o + 30], f[o + 30..e])
  {
    var len := |f|;
    var head := f[..o] + FH_START + WriteInt(CURRENT_FILE_VERSION) + f[o + 14..o + 30];
    var payload := f[o + 30..e];
    assert f == f[..o + 30] + payload + WriteLong(o) + FH_END by {
      Extend(f, o + 30, e, payload);
      Extend(f, e, len - 13, WriteLong(o));
      Extend(f, len - 13, len, FH_END);
      assert f[..len] == f;
    }
    assert f == head + payload + WriteLong(o) + FH_END;
    assert |f[..o]| == o;
  }

  /** A prefix grows by the piece that follows it. */
  lemma Extend(f: seq<byte>, i: nat, j: nat, piece: seq<byte>)
    requires i <= j <= |f| && f[i..j] == piece
    ensures f[..j] == f[..i] + piece
  {
  }

  /** What each field of an accepted header holds, located in the whole file. */
  lemma HeadParts(f: seq<byte>, o: nat, c: Container)
    requires o + HeadLength() < |f| - EndLength()
    requires CheckHead(f[o..|f| - 21], o) == Ok(c)
    ensures
      && c.offsetStart == o + HeadLength()
      && f[o..o + 10] == FH_START
      && ReadInt(f[o + 10..o + 14]) == CURRENT_FILE_VERSION
      && (c.encrypted <==> f[o + 14..o + 30] != FH_CRYPT)
      && (c.encrypted ==> c.cryptoBytes == Some(f[o + 14..o + 30]))
  {
    var h := f[o..|f| - 21];
    CheckHeadFields(h, o);
    SliceOfSlice(f, o, |f| - 21, 0, 10);
    SliceOfSlice(f, o, |f| - 21, 10, 14);
    SliceOfSlice(f, o, |f| - 21, 14, 30);
  }

  /** An opened file passed the end marker and the footer check, and its header starts at
      the stored original length. */
  lemma ParseViaHead(f: seq<byte>)
    requires |f| <= LONG_MAX && Parse(f).Ok?
    ensures
      var len := |f|;
      var o := ReadLong(f[len - 21..len - 13]);
      && f[len - 13..] == FH_END
      && 0 <= o && o + HeadLength() < len - EndLength()
      && Parse(f) == CheckHead(f[o..len - 21], o)
  {
    var len := |f|;
    var o := ReadLong(f[len - 21..len - 13]);
    assert f[len - 13..] == FH_END;
    assert Parse(f) == CheckGeometry(f, o);
  }

  /** What an accepted header holds. */
  lemma CheckHeadFields(h: seq<byte>, o: nat)
    requires |h| > HeadLength() && CheckHead(h, o).Ok?
    ensures
      var c := CheckHead(h, o).value;
      && h[..10] == FH_START
      && ReadInt(h[10..14]) == CURRENT_FILE_VERSION
      && (c.encrypted <==> h[14..30] != FH_CRYPT)
      && (c.encrypted ==> c.cryptoBytes == Some(h[14..30]))
  {
  }

  lemma SliceOfSlice(s: seq<byte>, a: nat, b: nat, i: nat, j: nat)
    requires a <= b <= |s| && i <= j <= b - a
    ensures s[a..b][i..j] == s[a + i..a + j]
  {
    assert forall k | 0 <= k < j - i :: s[a..b][i..j][k] == s[a + i + k];
  }

  /** What precedes the hidden data of an opened file: its carrier and a version 0 header. */
  lemma HeaderBeforeOffsetStart(f: seq<byte>, c: Container)
    requires |f| <= LONG_MAX && Parse(f) == Ok(c)
    ensures HeadLength() <= c.offsetStart < |f|
    ensures
      var o := c.offsetStart - HeadLength();
      f[..c.offsetStart] == f[..o] + FH_START + WriteInt(CURRENT_FILE_VERSION) + f[o + 14..o + 30]
  {
    var len := |f|;
    var o := c.offsetStart - HeadLength();
    ParseViaHead(f);
    assert ReadLong(f[len - 21..len - 13]) == o;
    assert CheckHead(f[o..len - 21], o) == Ok(c);
    HeadParts(f, o, c);
    PrefixOfHeader(f, o);
  }

  /** The prefix up to the end of a header at `o`, cut into its pieces. */
  lemma PrefixOfHeader(f: seq<byte>, o: nat)
    requires o + 30 <= |f|
    requires f[o..o + 10] == FH_START && ReadInt(f[o + 10..o + 14]) == CURRENT_FILE_VERSION
    ensures f[..o + 30] == f[..o] + FH_START + WriteInt(CURRENT_FILE_VERSION) + f[o + 14..o + 30]
  {
    WriteIntReadInt(f[o + 10..o + 14]);
    assert f[..o + 10] == f[..o] + f[o..o + 10];
    assert f[..o + 14] == f[..o + 10] + f[o + 10..o + 14];
    assert f[..o + 30] == f[..o + 14] + f[o + 14..o + 30];
  }

  /** Cutting the last byte off a FHFile leaves a file that is not a FHFile at all. */
  lemma TruncatedIsNotFHFile(f: seq<byte>)
    requires |f| <= LONG_MAX && Parse(f).Ok?
    ensures Parse(f[..|f| - 1]) == Err(NotFHFile)
  {
    var g := f[..|f| - 1];
    assert f[|f| - 13..] == FH_END;
    assert g[|g| - 13..][12] == FH_END[11] != FH_END[12];
  }

  /** A frame with nothing hidden in it fails the geometry check. */
  lemma EmptyPayloadIsCorrupt(carrier: seq<byte>, version: int, probe: seq<byte>)
    requires INT_MIN <= version <= INT_MAX && |probe| == CIPHER_BYTES
    requires |carrier| + HeadLength() + EndLength() <= LONG_MAX
    ensures Parse(Frame(carrier, version, probe, [])) == Err(Corrupt)
  {
    var f := Frame(carrier, version, probe, []);
    var len := |f|;
    assert f[len - 13..] == FH_END;
    assert f[len - 21..len - 13] == WriteLong(|carrier|);
    ReadLongWriteLong(|carrier|);
  }

  /** A negative stored length: the seek to it fails with an IOException, unless the
      hidden-data length computed in long arithmetic wraps around (or is not positive), in
      which case the geometry check reports corruption first. */
  lemma NegativeStoredLength(carrier: seq<byte>, stored: int)
    requires LONG_MIN <= stored < 0
    requires |carrier| + EndLength() <= LONG_MAX
    ensures
      var f := carrier + WriteLong(stored) + FH_END;
      var hidden := |f| - stored - HeadLength() - EndLength();
      Parse(f) == if hidden <= 0 || hidden > LONG_MAX then Err(Corrupt) else Err(IoError)
  {
    var f := carrier + WriteLong(stored) + FH_END;
    var len := |f|;
    ThreeParts(carrier, WriteLong(stored), FH_END);
    ReadLongWriteLong(stored);
    assert Parse(f) == CheckGeometry(f, stored);
  }

  /** A 100-byte carrier with the 6-byte payload "secret" hidden unencrypted: the file is
      157 bytes long and the hidden data lies in [130, 136). */
  lemma SecretInHundredZeros()
    ensures
      var f := Frame(seq(100, _ => 0), CURRENT_FILE_VERSION, FH_CRYPT, [0x73, 0x65, 0x63, 0x72, 0x65, 0x74]);
      |f| == 157 && Parse(f) == Ok(Container(130, 136, false, None))
  {
    var carrier: seq<byte> := seq(100, _ => 0);
    var secret: seq<byte> := [0x73, 0x65, 0x63, 0x72, 0x65, 0x74];
    PlainFrameOpens(Frame(carrier, CURRENT_FILE_VERSION, FH_CRYPT, secret), carrier, secret);
  }

  /** A file on disk: its current bytes. */
  class StoredFile {
    var content: seq<byte>

    constructor(content: seq<byte>)
      ensures this.content == content
    {
      this.content := content;
    }
  }

  /** RandomAccessFile.setLength: truncates the file, or extends it with bytes whose
      contents are undefined. */
  method SetLength(file: StoredFile, newLength: nat)
    modifies file
    ensures |file.content| == newLength
    ensures var kept := Min(newLength, |old(file.content)|);
      file.content[..kept] == old(file.content)[..kept]
  {
    if newLength <= |file.content| {
      file.content := file.content[..newLength];
    } else {
      var k := newLength - |file.content|;
      assert |seq(k, _ => 0 as byte)| == k;
      var undefined: seq<byte> :| |undefined| == k;
      file.content := file.content + undefined;
    }
  }

  /** A validated FHFile: the file it was opened on and what the open derived from it. The
      derived fields never change; the file's bytes may (deleteHiddenData). */
  class FHFile {
    const file: StoredFile
    const offsetStart: int
    const offsetEnd: int
    const encrypted: bool
    const cryptoBytes: Option<seq<byte>>

    /** What every opened FHFile satisfies, whatever happened to the file since. */
    ghost predicate Valid() {
      && HeadLength() <= offsetStart < offsetEnd <= LONG_MAX
      && (encrypted <==> cryptoBytes.Some?)
      && (cryptoBytes.Some? ==> |cryptoBytes.value| == CIPHER_BYTES)
    }

    function Fields(): Container {
      Container(offsetStart, offsetEnd, encrypted, cryptoBytes)
    }

    constructor(file: StoredFile, c: Container)
      requires |file.content| <= LONG_MAX && Parse(file.content) == Ok(c)
      ensures this.file == file && Fields() == c && Valid()
    {
      this.file := file;
      offsetStart, offsetEnd := c.offsetStart, c.offsetEnd;
      encrypted, cryptoBytes := c.encrypted, c.cryptoBytes;
    }

    /** cryptoBytes(): the stored probe, or FHFileNotEncryptedException. */
    function CryptoBytes(): (r: Result<seq<byte>, Error>)
      requires Valid()
      ensures r.Err? <==> !encrypted
      ensures r.Err? ==> r.error == NotEncrypted
      ensures r.Ok? ==> Some(r.value) == cryptoBytes && |r.value| == CIPHER_BYTES
    {
      if !encrypted then Err(NotEncrypted) else Ok(cryptoBytes.value)
    }

    /** checkPassword(password): whether the password's decrypting cipher accepts the stored
        probe. `doFinal` is that cipher's one-shot decryption; None stands for the
        IllegalBlockSizeException or BadPaddingException it throws. */
    function CheckPassword(doFinal: seq<byte> -> Option<seq<byte>>): (r: Result<bool, Error>)
      requires Valid()
      ensures r.Err? <==> !encrypted
      ensures r.Err? ==> r.error == NotEncrypted
      ensures r.Ok? ==> (r.value <==> doFinal(cryptoBytes.value).Some?)
    {
      if !encrypted then Err(NotEncrypted)
      else
        match doFinal(cryptoBytes.value)
        case None => Ok(false)
        case Some(_) => Ok(true)
    }

    /** deleteHiddenData(): sets the file's length to offsetStart. On the file this FHFile
        was opened on, what remains is the carrier followed by the 30-byte header. */
    method DeleteHiddenData()
      requires Valid()
      modifies file
      ensures |file.content| == offsetStart
      ensures offsetStart <= |old(file.content)| ==> file.content == old(file.content)[..offsetStart]
      ensures offsetStart > |old(file.content)| ==> file.content[..|old(file.content)|] == old(file.content)
      ensures |old(file.content)| <= LONG_MAX && Parse(old(file.content)) == Ok(Fields()) ==>
        var o := offsetStart - HeadLength();
        file.content == old(file.content)[..o] + FH_START + WriteInt(CURRENT_FILE_VERSION) + old(file.content)[o + 14..o + 30]
    {
      ghost var before := file.content;
      if |before| <= LONG_MAX && Parse(before) == Ok(Fields()) {
        HeaderBeforeOffsetStart(before, Fields());
      }
      SetLength(file, offsetStart);
      if offsetStart <= |before| {
        assert file.content == before[..offsetStart];
      }
    }
  }

  /** new FHFile(file): opens the file and validates it, or throws what Parse reports. */
  method Open(file: StoredFile) returns (r: Result<FHFile, Error>)
    requires |file.content| <= LONG_MAX
    ensures r.Ok? <==> Parse(file.content).Ok?
    ensures r.Err? ==> r.error == Parse(file.content).error
    ensures r.Ok? ==> r.value.file == file && r.value.Valid() && r.value.Fields() == Parse(file.content).value
  {
    var p := Parse(file.content);
    if p.Err? {
      return Err(p.error);
    }
    var fh := new FHFile(file, p.value);
    r := Ok(fh);
  }
}
