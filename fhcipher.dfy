/** What the writer and the open make of an encrypted file, given the two facts about
    FHCipher's AES/CBC/PKCS5Padding transformation that matter for the layout: PKCS#5
    padding (section 6.1.1 of RFC 8018) always adds between 1 and 16 bytes, so a cipher
    sink that received x bytes emits 16 * (x / 16 + 1); and in CBC mode the first 16 bytes
    of a ciphertext decrypt on their own to the first 16 bytes of the padded plaintext.
    The block cipher itself stays uninterpreted. */
module FHCipherLayout {
  import opened Bytes
  import opened FHFileFormat
  import opened FHOutput

  const BLOCK: nat := 16

  /** The number of bytes a cipher sink emits for x bytes of input. */
  function PaddedLength(x: nat): (n: nat)
    ensures n % BLOCK == 0 && x < n <= x + BLOCK
  {
    BLOCK * (x / BLOCK + 1)
  }

  /** PKCS#5 padding: k bytes of value k, where k brings the length to the next multiple of
      16 (a whole block when it already is one). */
  function Pad(x: seq<byte>): (r: seq<byte>)
    ensures |r| == PaddedLength(|x|) && r[..|x|] == x
  {
    var k := BLOCK - |x| % BLOCK;
    x + seq(k, _ => k as byte)
  }

  /** PKCS#5 unpadding, as doFinal in decrypt mode checks it: a non-empty whole number of
      blocks whose last byte k lies in 1..16 and whose last k bytes all equal k; None stands
      for BadPaddingException or IllegalBlockSizeException. */
  function Unpad(s: seq<byte>): (r: Option<seq<byte>>)
    ensures r.Some? ==> |s| > 0 && |s| % BLOCK == 0 && 1 <= s[|s| - 1] as int <= BLOCK
    ensures r.Some? ==> |r.value| <= |s| && s == r.value + s[|r.value|..] && |s| - |r.value| == s[|s| - 1] as int
  {
    if |s| == 0 || |s| % BLOCK != 0 then None
    else
      var k := s[|s| - 1] as int;
      if 1 <= k <= BLOCK && (forall i :: |s| - k <= i < |s| ==> s[i] as int == k) then Some(s[..|s| - k])
      else None
  }

  /** Unpadding undoes padding. */
  lemma UnpadPad(x: seq<byte>)
    ensures Unpad(Pad(x)) == Some(x)
  {
    var k := BLOCK - |x| % BLOCK;
    var p := Pad(x);
    assert p[|p| - 1] as int == k;
    assert forall i :: |p| - k <= i < |p| ==> p[i] as int == k;
    assert p[..|p| - k] == x;
  }

  /** The probe constant is not padded: its last byte is 0. */
  lemma ProbeIsUnpadded()
    ensures Unpad(FH_CRYPT) == None
  {
    assert FH_CRYPT[15] == 0;
  }

  /** What a writer with a cipher appends to a carrier, opened: the open reads the first 16
      of the 32 bytes the probe's cipher sink emitted as cryptoBytes, and the hidden-data
      region it reports starts with the other 16, followed by the payload's ciphertext.
      `enc` is required to pad as PKCS#5 does on the two inputs it receives. */
  lemma CipherOutputOpens(carrier: seq<byte>, payload: seq<byte>, enc: seq<byte> -> seq<byte>, f: seq<byte>)
    requires |enc(FH_CRYPT)| == PaddedLength(|FH_CRYPT|) && |enc(payload)| == PaddedLength(|payload|)
    requires enc(FH_CRYPT)[..BLOCK] != FH_CRYPT
    requires |carrier| + HeadLength() + BLOCK + PaddedLength(|payload|) + EndLength() <= LONG_MAX
    requires f == carrier + Render(Complete(true, |carrier|, payload).closed, enc)
    ensures |f| == |carrier| + HeadLength() + BLOCK + PaddedLength(|payload|) + EndLength()
    ensures Parse(f) == Ok(Container(|carrier| + HeadLength(), |f| - EndLength(), true, Some(enc(FH_CRYPT)[..BLOCK])))
    ensures f[|carrier| + HeadLength()..|f| - EndLength()] == enc(FH_CRYPT)[BLOCK..] + enc(payload)
  {
    var n := PaddedLength(|payload|);
    assert |enc(FH_CRYPT)| == 2 * BLOCK;
    var probe, region := enc(FH_CRYPT)[..BLOCK], enc(FH_CRYPT)[BLOCK..] + enc(payload);
    assert |region| == BLOCK + n && n % BLOCK == 0;
    BlockMore(n);
    CipherOutputIsFrame(carrier, payload, enc);
    CipherFrameOpens(f, carrier, probe, region);
  }

  /** With a cipher the writer produces the frame whose probe is the first 16 bytes of the
      probe's ciphertext and whose payload is the rest of them followed by the payload's
      ciphertext. */
  lemma CipherOutputIsFrame(carrier: seq<byte>, payload: seq<byte>, enc: seq<byte> -> seq<byte>)
    requires |enc(FH_CRYPT)| >= BLOCK
    ensures carrier + Render(Complete(true, |carrier|, payload).closed, enc)
            == Frame(carrier, CURRENT_FILE_VERSION, enc(FH_CRYPT)[..BLOCK], enc(FH_CRYPT)[BLOCK..] + enc(payload))
  {
    CompleteOutput(true, |carrier|, payload, enc);
    SplitProbe(carrier, FH_START, WriteInt(CURRENT_FILE_VERSION), enc(FH_CRYPT), enc(payload), WriteLong(|carrier|), FH_END, BLOCK);
  }

  lemma BlockMore(n: int)
    requires n % BLOCK == 0
    ensures (BLOCK + n) % BLOCK == 0
  {
  }

  /** Regrouping the writer's output around a probe ciphertext cut at k. */
  lemma SplitProbe<T>(a: seq<T>, b1: seq<T>, b2: seq<T>, c: seq<T>, p: seq<T>, w: seq<T>, e: seq<T>, k: nat)
    requires k <= |c|
    ensures a + (b1 + b2 + c + p + (w + e)) == a + b1 + b2 + c[..k] + (c[k..] + p) + w + e
  {
    assert c == c[..k] + c[k..];
  }

  /** A version 0 frame whose probe is not FH_CRYPT and whose payload is a non-empty whole
      number of blocks opens as encrypted, with the probe as cryptoBytes. */
  lemma CipherFrameOpens(f: seq<byte>, carrier: seq<byte>, probe: seq<byte>, payload: seq<byte>)
    requires f == Frame(carrier, CURRENT_FILE_VERSION, probe, payload)
    requires |probe| == BLOCK && probe != FH_CRYPT
    requires |payload| > 0 && |payload| % BLOCK == 0
    requires |carrier| + HeadLength() + |payload| + EndLength() <= LONG_MAX
    ensures |f| == |carrier| + HeadLength() + |payload| + EndLength()
    ensures Parse(f) == Ok(Container(|carrier| + HeadLength(), |f| - EndLength(), true, Some(probe)))
    ensures f[|carrier| + HeadLength()..|f| - EndLength()] == payload
  {
    FrameParts(carrier, CURRENT_FILE_VERSION, probe, payload);
    ParseFrame(f, |carrier|, CURRENT_FILE_VERSION, probe, payload);
  }

  /** checkPassword with the password the file was written with: doFinal unpads what the
      stored 16 bytes decrypt to, which is the probe constant itself, and the probe
      constant is not validly padded, so the check answers false. */
  lemma RightPasswordRejected(fh: FHFile, decrypt: seq<byte> -> seq<byte>, doFinal: seq<byte> -> Option<seq<byte>>)
    requires fh.Valid() && fh.encrypted
    requires forall c :: doFinal(c) == Unpad(decrypt(c))
    requires decrypt(fh.cryptoBytes.value) == FH_CRYPT
    ensures fh.CheckPassword(doFinal) == Ok(false)
  {
    ProbeIsUnpadded();
    assert doFinal(fh.cryptoBytes.value) == None;
  }

  /** checkPassword on a file the writer produced, with the password it was written with:
      the open takes the first 16 bytes of the probe's ciphertext as cryptoBytes, in CBC
      mode they decrypt on their own to the first 16 bytes of the padded probe constant,
      which are the constant itself, so the check answers false. */
  lemma WrittenPasswordRejected(carrier: seq<byte>, payload: seq<byte>, enc: seq<byte> -> seq<byte>, f: seq<byte>,
                                decrypt: seq<byte> -> seq<byte>, doFinal: seq<byte> -> Option<seq<byte>>, fh: FHFile)
    requires |enc(FH_CRYPT)| == PaddedLength(|FH_CRYPT|) && |enc(payload)| == PaddedLength(|payload|)
    requires enc(FH_CRYPT)[..BLOCK] != FH_CRYPT
    requires |carrier| + HeadLength() + BLOCK + PaddedLength(|payload|) + EndLength() <= LONG_MAX
    requires f == carrier + Render(Complete(true, |carrier|, payload).closed, enc)
    requires decrypt(enc(FH_CRYPT)[..BLOCK]) == Pad(FH_CRYPT)[..BLOCK]
    requires forall c :: doFinal(c) == Unpad(decrypt(c))
    requires fh.Valid() && |f| <= LONG_MAX && Parse(f) == Ok(fh.Fields())
    ensures fh.CheckPassword(doFinal) == Ok(false)
  {
    CipherOutputOpens(carrier, payload, enc, f);
    assert fh.encrypted && fh.cryptoBytes == Some(enc(FH_CRYPT)[..BLOCK]);
    assert Pad(FH_CRYPT)[..BLOCK] == FH_CRYPT;
    RightPasswordRejected(fh, decrypt, doFinal);
  }
}
