/** The writer of hidden data, FHOutputStream. It appends to a file through one active
    sink at a time: a plain one (a buffered file stream) or a cipher one (a cipher stream
    over a buffered file stream). Switching the mode closes the active sink, which is when
    its bytes reach the file: a plain sink's bytes as written, a cipher sink's as the
    cipher's output for everything written into it. The cipher itself is a parameter,
    `enc`, standing for one whole encryption (update and doFinal) of a sink's input. */
module FHOutput {
  import opened Bytes
  import opened FHFileFormat

  /** What one sink received between its opening and its closing, and in which mode. */
  datatype Segment = Segment(encrypted: bool, data: seq<byte>)

  /** The writer's sink state: the mode of the active sink, the sinks already closed (in
      order) and what the active sink has received so far. */
  datatype Sinks = Sinks(encrypt: bool, closed: seq<Segment>, current: seq<byte>)

  /** The bytes a closed sink leaves in the file. */
  function Emitted(s: Segment, enc: seq<byte> -> seq<byte>): seq<byte>
  {
    if s.encrypted then enc(s.data) else s.data
  }

  /** The bytes a sequence of closed sinks leaves in the file, in order. */
  function Render(segs: seq<Segment>, enc: seq<byte> -> seq<byte>): seq<byte>
  {
    if segs == [] then [] else Render(segs[..|segs| - 1], enc) + Emitted(segs[|segs| - 1], enc)
  }

  /** Everything the sinks received, before any encryption. */
  function Plaintext(segs: seq<Segment>): seq<byte>
  {
    if segs == [] then [] else Plaintext(segs[..|segs| - 1]) + segs[|segs| - 1].data
  }

  /** Everything written to the stream so far, in order and before any encryption. */
  function Written(s: Sinks): seq<byte>
  {
    Plaintext(s.closed) + s.current
  }

  lemma RenderSnoc(segs: seq<Segment>, s: Segment, enc: seq<byte> -> seq<byte>)
    ensures Render(segs + [s], enc) == Render(segs, enc) + Emitted(s, enc)
  {
    assert (segs + [s])[..|segs|] == segs;
  }

  lemma PlaintextSnoc(segs: seq<Segment>, s: Segment)
    ensures Plaintext(segs + [s]) == Plaintext(segs) + s.data
  {
    assert (segs + [s])[..|segs|] == segs;
  }

  /** A write goes to the active sink. */
  function Append(s: Sinks, data: seq<byte>): (r: Sinks)
    ensures Written(r) == Written(s) + data
    ensures r.encrypt == s.encrypt && r.closed == s.closed
  {
    Sinks(s.encrypt, s.closed, s.current + data)
  }

  /** Closing the active sink. */
  function CloseSink(s: Sinks): (r: Sinks)
    ensures Written(r) == Written(s)
    ensures r.current == [] && r.encrypt == s.encrypt
    ensures r.closed == s.closed + [Segment(s.encrypt, s.current)]
  {
    var r := Sinks(s.encrypt, s.closed + [Segment(s.encrypt, s.current)], []);
    PlaintextSnoc(s.closed, Segment(s.encrypt, s.current));
    r
  }

  /** writeEncrypted(m): asking for encryption without a cipher, or for the mode already
      active, changes nothing; otherwise the active sink is closed and a sink in mode `m`
      opened. */
  function Toggle(s: Sinks, hasCipher: bool, m: bool): (r: Sinks)
    ensures r.encrypt == (if m && !hasCipher then s.encrypt else m)
    ensures Written(r) == Written(s)
    ensures (m && !hasCipher) || s.encrypt == m ==> r == s
    ensures r != s ==> r.closed == s.closed + [Segment(s.encrypt, s.current)] && r.current == []
  {
    if m && !hasCipher then s
    else if s.encrypt == m then s
    else
      var c := CloseSink(s);
      Sinks(m, c.closed, c.current)
  }

  /** Asking twice for the same mode is asking once. */
  lemma ToggleIdempotent(s: Sinks, hasCipher: bool, m: bool)
    requires s.encrypt ==> hasCipher
    ensures Toggle(Toggle(s, hasCipher, m), hasCipher, m) == Toggle(s, hasCipher, m)
  {
  }

  /** Without a cipher the writer never leaves plain mode and never closes a sink. */
  lemma NoCipherNeverSwitches(s: Sinks, m: bool)
    requires !s.encrypt
    ensures Toggle(s, false, m) == s
  {
  }

  /** The sink state after the constructor: the plain header fields written, the probe
      written through the cipher if there is one, and the writer switched to encrypted
      mode, which only happens with a cipher. */
  function Opened(hasCipher: bool): (r: Sinks)
    ensures r.encrypt == hasCipher
    ensures Written(r) == FH_START + WriteInt(CURRENT_FILE_VERSION) + FH_CRYPT
    ensures hasCipher ==>
      r == Sinks(true, [Segment(false, FH_START + WriteInt(CURRENT_FILE_VERSION)), Segment(true, FH_CRYPT), Segment(false, [])], [])
    ensures !hasCipher ==> r == Sinks(false, [], FH_START + WriteInt(CURRENT_FILE_VERSION) + FH_CRYPT)
  {
    var header := FH_START + WriteInt(CURRENT_FILE_VERSION);
    var fields := Append(Append(Sinks(false, [], []), FH_START), WriteInt(CURRENT_FILE_VERSION));
    assert fields == Sinks(false, [], header);
    var cipherSink := Toggle(fields, hasCipher, true);
    assert hasCipher ==> cipherSink.closed == [] + [Segment(false, header)] == [Segment(false, header)];
    assert hasCipher ==> cipherSink.current == [];
    var probe := Append(cipherSink, FH_CRYPT);
    assert hasCipher ==> probe.current == [] + FH_CRYPT == FH_CRYPT;
    var head := Toggle(probe, hasCipher, false);
    assert Plaintext([]) == [];
    assert hasCipher ==> head != probe;
    assert hasCipher ==> head.closed == [Segment(false, header)] + [Segment(true, FH_CRYPT)];
    assert !hasCipher ==> head == Sinks(false, [], header + FH_CRYPT);
    Toggle(head, hasCipher, true)
  }

  /** The sink state after close(): back to plain mode, the footer written, and the plain
      sink closed. */
  function Finished(s: Sinks, hasCipher: bool, originalFileLength: int): (r: Sinks)
    ensures Written(r) == Written(s) + WriteLong(originalFileLength) + FH_END
    ensures !r.encrypt && r.current == []
  {
    var plain := Toggle(s, hasCipher, false);
    CloseSink(Append(Append(plain, WriteLong(originalFileLength)), FH_END))
  }

  /** The sink state of a writer that was opened, received `payload` and was closed. */
  function Complete(hasCipher: bool, originalFileLength: int, payload: seq<byte>): Sinks
  {
    Finished(Append(Opened(hasCipher), payload), hasCipher, originalFileLength)
  }

  /** The sinks a complete writer closed, in order: with a cipher the plain header fields,
      the probe's cipher sink, an empty plain sink, the payload's cipher sink and the plain
      footer; without one a single plain sink that received everything. */
  lemma CompleteSegments(hasCipher: bool, originalFileLength: int, payload: seq<byte>)
    ensures
      var fields := FH_START + WriteInt(CURRENT_FILE_VERSION);
      var footer := WriteLong(originalFileLength) + FH_END;
      Complete(hasCipher, originalFileLength, payload).closed ==
        if hasCipher
        then [Segment(false, fields), Segment(true, FH_CRYPT), Segment(false, []), Segment(true, payload), Segment(false, footer)]
        else [Segment(false, fields + FH_CRYPT + payload + footer)]
  {
    if hasCipher {
      CompleteCipherSegments(originalFileLength, payload);
    } else {
      CompletePlainSegments(originalFileLength, payload);
    }
  }

  lemma CompleteCipherSegments(originalFileLength: int, payload: seq<byte>)
    ensures
      var fields := FH_START + WriteInt(CURRENT_FILE_VERSION);
      var footer := WriteLong(originalFileLength) + FH_END;
      Complete(true, originalFileLength, payload).closed ==
        [Segment(false, fields), Segment(true, FH_CRYPT), Segment(false, []), Segment(true, payload), Segment(false, footer)]
  {
    var o := Opened(true);
    var a := Append(o, payload);
    assert a.current == payload;
    var p := Toggle(a, true, false);
    assert p.closed == o.closed + [Segment(true, payload)] && p.current == [];
    var q := Append(Append(p, WriteLong(originalFileLength)), FH_END);
    assert q.current == WriteLong(originalFileLength) + FH_END;
    assert CloseSink(q) == Complete(true, originalFileLength, payload);
  }

  lemma CompletePlainSegments(originalFileLength: int, payload: seq<byte>)
    ensures
      var fields := FH_START + WriteInt(CURRENT_FILE_VERSION);
      var footer := WriteLong(originalFileLength) + FH_END;
      Complete(false, originalFileLength, payload).closed == [Segment(false, fields + FH_CRYPT + payload + footer)]
  {
    var fields := FH_START + WriteInt(CURRENT_FILE_VERSION);
    var o := Opened(false);
    assert o.current == fields + FH_CRYPT && o.closed == [];
    var a := Append(o, payload);
    assert Toggle(a, false, false) == a;
    var q := Append(Append(a, WriteLong(originalFileLength)), FH_END);
    assert q.current == fields + FH_CRYPT + payload + (WriteLong(originalFileLength) + FH_END);
    assert CloseSink(q) == Complete(false, originalFileLength, payload);
    assert CloseSink(q).closed == [] + [Segment(false, q.current)];
  }

  /** What the writer leaves after the carrier: the header fields in plain, then the probe
      and the payload each encrypted as a separate cipher segment (or both plain without a
      cipher), then the footer in plain. */
  lemma CompleteOutput(hasCipher: bool, originalFileLength: int, payload: seq<byte>, enc: seq<byte> -> seq<byte>)
    ensures
      var fields := FH_START + WriteInt(CURRENT_FILE_VERSION);
      var footer := WriteLong(originalFileLength) + FH_END;
      Render(Complete(hasCipher, originalFileLength, payload).closed, enc) ==
        if hasCipher then fields + enc(FH_CRYPT) + enc(payload) + footer
        else fields + FH_CRYPT + payload + footer
  {
    var fields := FH_START + WriteInt(CURRENT_FILE_VERSION);
    var footer := WriteLong(originalFileLength) + FH_END;
    CompleteSegments(hasCipher, originalFileLength, payload);
    if hasCipher {
      RenderCipherSinks(fields, payload, footer, enc);
    } else {
      var body := fields + FH_CRYPT + payload + footer;
      assert Render([Segment(false, body)], enc) == body by {
        RenderSnoc([], Segment(false, body), enc);
        assert [Segment(false, body)] == [] + [Segment(false, body)];
      }
    }
  }

  /** The five sinks of a writer with a cipher, rendered. */
  lemma RenderCipherSinks(fields: seq<byte>, payload: seq<byte>, footer: seq<byte>, enc: seq<byte> -> seq<byte>)
    ensures Render([Segment(false, fields), Segment(true, FH_CRYPT), Segment(false, []), Segment(true, payload), Segment(false, footer)], enc)
            == fields + enc(FH_CRYPT) + enc(payload) + footer
  {
    var s0, s1, s2, s3, s4 := Segment(false, fields), Segment(true, FH_CRYPT), Segment(false, []), Segment(true, payload), Segment(false, footer);
    var a1 := [] + [s0];
    var a2 := a1 + [s1];
    var a3 := a2 + [s2];
    var a4 := a3 + [s3];
    RenderSnoc([], s0, enc);
    RenderSnoc(a1, s1, enc);
    RenderSnoc(a2, s2, enc);
    assert Render(a3, enc) == fields + enc(FH_CRYPT);
    RenderSnoc(a3, s3, enc);
    RenderSnoc(a4, s4, enc);
    assert a4 + [s4] == [s0, s1, s2, s3, s4];
  }

  /** Without a cipher the writer produces exactly the frame of the carrier and payload. */
  lemma PlainOutputIsFrame(carrier: seq<byte>, payload: seq<byte>, enc: seq<byte> -> seq<byte>)
    ensures carrier + Render(Complete(false, |carrier|, payload).closed, enc)
            == Frame(carrier, CURRENT_FILE_VERSION, FH_CRYPT, payload)
  {
    CompleteOutput(false, |carrier|, payload, enc);
    Regroup(carrier, FH_START, WriteInt(CURRENT_FILE_VERSION), FH_CRYPT, payload, WriteLong(|carrier|), FH_END);
  }

  lemma Regroup<T>(a: seq<T>, b: seq<T>, c: seq<T>, d: seq<T>, e: seq<T>, f: seq<T>, g: seq<T>)
    ensures a + (b + c + d + e + (f + g)) == a + b + c + d + e + f + g
  {
  }

  /** Without a cipher, what the writer appends to a carrier opens as an unencrypted FHFile
      whose hidden data is exactly the payload, provided the payload is not empty. */
  lemma PlainRoundTrip(carrier: seq<byte>, payload: seq<byte>, enc: seq<byte> -> seq<byte>, f: seq<byte>)
    requires |payload| > 0
    requires |carrier| + HeadLength() + |payload| + EndLength() <= LONG_MAX
    requires f == carrier + Render(Complete(false, |carrier|, payload).closed, enc)
    ensures |f| == |carrier| + HeadLength() + |payload| + EndLength()
    ensures Parse(f) == Ok(Container(|carrier| + HeadLength(), |f| - EndLength(), false, None))
    ensures f[|carrier| + HeadLength()..|f| - EndLength()] == payload
  {
    PlainOutputIsFrame(carrier, payload, enc);
    PlainFrameOpens(f, carrier, payload);
  }

  /** An open FHOutputStream appending hidden data to `file`. `carrier` is the file's content
      when the stream was opened; the closed sinks' output follows it in the file. */
  class FHOutputStream {
    const file: StoredFile
    const hasCipher: bool
    const enc: seq<byte> -> seq<byte>
    const originalFileLength: int
    ghost const carrier: seq<byte>
    var encrypt: bool
    ghost var closed: seq<Segment>
    var current: seq<byte>
    var open: bool

    ghost predicate Valid()
      reads this, file
    {
      && file.content == carrier + Render(closed, enc)
      && originalFileLength == |carrier|
      && (encrypt ==> hasCipher)
    }

    ghost function State(): Sinks
      reads this
    {
      Sinks(encrypt, closed, current)
    }

    /** FHOutputStream(file[, password]): records the file's length, then writes the head
        and switches to encrypted mode. */
    constructor(file: StoredFile, hasCipher: bool, enc: seq<byte> -> seq<byte>)
      modifies file
      ensures this.file == file && this.hasCipher == hasCipher && this.enc == enc
      ensures carrier == old(file.content) && originalFileLength == |old(file.content)|
      ensures Valid() && open
      ensures State() == Opened(hasCipher)
      ensures file.content == old(file.content) + Render(Opened(hasCipher).closed, enc)
    {
      this.file := file;
      this.hasCipher := hasCipher;
      this.enc := enc;
      carrier := file.content;
      originalFileLength := |file.content|;
      encrypt := false;
      closed := [];
      current := [];
      open := true;
      new;
      WriteFHHead();
      WriteEncrypted(true);
    }

    /** Closes the active sink: what it received reaches the file. */
    method CloseActiveSink()
      requires Valid()
      modifies this`closed, this`current, file
      ensures Valid()
      ensures State() == CloseSink(old(State()))
    {
      var segment := Segment(encrypt, current);
      RenderSnoc(closed, segment, enc);
      assert carrier + Render(closed + [segment], enc) == file.content + Emitted(segment, enc);
      file.content := file.content + Emitted(segment, enc);
      closed := closed + [segment];
      current := [];
    }

    /** writeEncrypted(encrypt). */
    method WriteEncrypted(m: bool)
      requires Valid()
      modifies this`encrypt, this`closed, this`current, file
      ensures Valid()
      ensures State() == Toggle(old(State()), hasCipher, m)
    {
      if m {
        if !hasCipher {
          return;
        }
        if encrypt {
          return;
        }
        CloseActiveSink();
        encrypt := true;
      } else {
        if !encrypt {
          return;
        }
        CloseActiveSink();
        encrypt := false;
      }
    }

    /** write(b) / write(b, off, len) / write(int): the bytes go to the active sink. */
    method Write(data: seq<byte>)
      requires Valid() && open
      modifies this`current
      ensures Valid()
      ensures State() == Append(old(State()), data)
    {
      current := current + data;
    }

    /** writeFHHead(). */
    method WriteFHHead()
      requires Valid() && State() == Sinks(false, [], [])
      modifies this`encrypt, this`closed, this`current, file
      ensures Valid()
      ensures State() == Toggle(Append(Toggle(Append(Append(Sinks(false, [], []), FH_START), WriteInt(CURRENT_FILE_VERSION)), hasCipher, true), FH_CRYPT), hasCipher, false)
    {
      current := current + FH_START;
      current := current + WriteInt(CURRENT_FILE_VERSION);
      WriteEncrypted(true);
      current := current + FH_CRYPT;
      WriteEncrypted(false);
    }

    /** writeFHEnd(). */
    method WriteFHEnd()
      requires Valid()
      modifies this`encrypt, this`closed, this`current, file
      ensures Valid()
      ensures State() == Append(Append(Toggle(old(State()), hasCipher, false), WriteLong(originalFileLength)), FH_END)
    {
      WriteEncrypted(false);
      current := current + WriteLong(originalFileLength);
      current := current + FH_END;
    }

    /** close(): the footer, then the plain sink is closed. */
    method Close()
      requires Valid() && open
      modifies this`encrypt, this`closed, this`current, this`open, file
      ensures Valid() && !open
      ensures State() == Finished(old(State()), hasCipher, originalFileLength)
      ensures file.content == carrier + Render(closed, enc)
    {
      ghost var before := State();
      WriteFHEnd();
      ghost var footer := State();
      CloseActiveSink();
      open := false;
      assert State() == Finished(before, hasCipher, originalFileLength) by {
        assert footer == Append(Append(Toggle(before, hasCipher, false), WriteLong(originalFileLength)), FH_END);
        assert State() == CloseSink(footer);
      }
    }
  }

  /** Opening a writer on `file`, writing `payload` to it and closing it appends exactly the
      complete writer's output to the file. */
  method WriteHiddenData(file: StoredFile, hasCipher: bool, enc: seq<byte> -> seq<byte>, payload: seq<byte>)
    modifies file
    ensures file.content == old(file.content) + Render(Complete(hasCipher, |old(file.content)|, payload).closed, enc)
  {
    var out := new FHOutputStream(file, hasCipher, enc);
    out.Write(payload);
    out.Close();
  }
}
