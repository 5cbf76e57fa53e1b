/** The reader of hidden data, FHInputStream. It wraps a stream positioned at offsetStart
    (a buffered file stream, or a cipher stream over the file stream) and keeps a counter,
    `read`, of the bytes requested so far, starting at offsetStart. Every request is clamped
    so that the counter does not pass offsetEnd; the request that reaches offsetEnd latches
    EOF, after which every read reports the end of the stream. The counter counts requested
    bytes, not delivered ones. */
module FHInput {
  import opened Bytes
  import opened FHFileFormat

  /** What checkLen(len) leaves: the new counter, whether EOF was latched, and the length it
      returns. */
  datatype Check = Check(read: int, eof: bool, response: int)

  /** checkLen(len): adds the requested length to the counter in long arithmetic, computes
      the distance left to offsetEnd, and on reaching it latches EOF and shortens the length
      by the overshoot (int arithmetic after a narrowing cast). */
  function CheckLen(read: int, offsetEnd: int, len: int): (r: Check)
    requires LONG_MIN <= read <= LONG_MAX && LONG_MIN <= offsetEnd <= LONG_MAX
    requires INT_MIN <= len <= INT_MAX
    ensures LONG_MIN <= r.read <= LONG_MAX
    ensures 0 <= read < offsetEnd && 0 <= len ==>
      && (r.eof <==> read + len >= offsetEnd)
      && (r.eof ==> r.response == offsetEnd - read)
      && (!r.eof ==> r.read == read + len && r.response == len)
      && 0 <= r.response <= len
  {
    var newRead := ToLong(read + len);
    var diff := ToLong(offsetEnd - newRead);
    TrueDistance(read, offsetEnd, len);
    if diff <= 0 then Check(newRead, true, ToInt(len + ToInt(diff)))
    else Check(newRead, false, len)
  }

  /** The counter may wrap around when a request takes it past the largest long, but the
      distance to offsetEnd computed from it is still the true one. */
  lemma TrueDistance(read: int, offsetEnd: int, len: int)
    requires LONG_MIN <= read <= LONG_MAX && LONG_MIN <= offsetEnd <= LONG_MAX
    requires INT_MIN <= len <= INT_MAX
    ensures 0 <= read < offsetEnd && 0 <= len ==> ToLong(offsetEnd - ToLong(read + len)) == offsetEnd - read - len
  {
    if 0 <= read < offsetEnd && 0 <= len {
      var d := offsetEnd - read - len;
      assert LONG_MIN <= d <= LONG_MAX && ToLong(d) == d;
      if read + len > LONG_MAX {
        assert offsetEnd - ToLong(read + len) == d + 0x1_0000_0000_0000_0000;
      }
    }
  }

  /** The counter, the EOF latch, and the total length handed to the wrapped stream. */
  datatype Counter = Counter(read: int, eof: bool, passed: int)

  /** The lengths a caller may request: Java ints, and not negative. */
  ghost predicate Requests(lens: seq<int>)
  {
    forall i :: 0 <= i < |lens| ==> 0 <= lens[i] <= INT_MAX
  }

  function Sum(lens: seq<int>): int
  {
    if lens == [] then 0 else Sum(lens[..|lens| - 1]) + lens[|lens| - 1]
  }

  /** The state after a stream opened at offsetStart has served the requests `lens` in
      order: a request after EOF changes nothing, any other goes through checkLen. */
  function Run(offsetStart: int, offsetEnd: int, lens: seq<int>): (r: Counter)
    requires LONG_MIN <= offsetStart <= LONG_MAX && LONG_MIN <= offsetEnd <= LONG_MAX
    requires Requests(lens)
    ensures LONG_MIN <= r.read <= LONG_MAX
    decreases |lens|
  {
    if lens == [] then Counter(offsetStart, false, 0)
    else
      var c := Run(offsetStart, offsetEnd, lens[..|lens| - 1]);
      if c.eof then c
      else
        var k := CheckLen(c.read, offsetEnd, lens[|lens| - 1]);
        Counter(k.read, k.eof, c.passed + k.response)
  }

  /** The counter's accounting: the lengths handed to the wrapped stream add up to what was
      requested, cut at the size of the hidden-data region; EOF is latched exactly when the
      requests cover the region; until then the counter is offsetStart plus the requests,
      inside the region. */
  lemma {:induction false} RunAccounts(offsetStart: int, offsetEnd: int, lens: seq<int>)
    requires 0 <= offsetStart < offsetEnd <= LONG_MAX
    requires Requests(lens)
    ensures
      var r := Run(offsetStart, offsetEnd, lens);
      var region := offsetEnd - offsetStart;
      && Sum(lens) >= 0
      && (r.eof <==> Sum(lens) >= region)
      && r.passed == Min(Sum(lens), region)
      && (!r.eof ==> r.read == offsetStart + Sum(lens) && offsetStart <= r.read < offsetEnd)
    decreases |lens|
  {
    if lens != [] {
      var prefix := lens[..|lens| - 1];
      assert Requests(prefix) by {
        assert forall i :: 0 <= i < |prefix| ==> prefix[i] == lens[i];
      }
      RunAccounts(offsetStart, offsetEnd, prefix);
      var c := Run(offsetStart, offsetEnd, prefix);
      if !c.eof {
        var k := CheckLen(c.read, offsetEnd, lens[|lens| - 1]);
        assert Run(offsetStart, offsetEnd, lens) == Counter(k.read, k.eof, c.passed + k.response);
      }
    }
  }

  /** One more request on a stream before EOF goes through checkLen. */
  lemma RunStep(offsetStart: int, offsetEnd: int, lens: seq<int>, len: int)
    requires LONG_MIN <= offsetStart <= LONG_MAX && LONG_MIN <= offsetEnd <= LONG_MAX
    requires Requests(lens) && 0 <= len <= INT_MAX
    requires !Run(offsetStart, offsetEnd, lens).eof
    ensures Requests(lens + [len])
    ensures
      var c := Run(offsetStart, offsetEnd, lens);
      var k := CheckLen(c.read, offsetEnd, len);
      Run(offsetStart, offsetEnd, lens + [len]) == Counter(k.read, k.eof, c.passed + k.response)
  {
    assert (lens + [len])[..|lens|] == lens;
  }

  /** How many bytes a wrapped stream with `available` bytes left hands over for a request
      of k bytes: none for an empty request, -1 at its end, otherwise as many as it has up
      to k. */
  function Deliver(available: nat, k: int): (n: int)
    requires k >= 0
    ensures n == -1 <==> k > 0 && available == 0
    ensures n == 0 <==> k == 0
    ensures -1 <= n <= k && n <= available
  {
    if k == 0 then 0 else if available == 0 then -1 else Min(k, available)
  }

  /** A wrapped stream that has delivered what was handed to it, up to its end, still has
      after one more request of k bytes. */
  lemma DeliverAdvances(passed: int, size: nat, k: int)
    requires passed >= 0 && k >= 0
    ensures var n := Deliver(size - Min(passed, size), k);
      Min(passed, size) + (if n < 0 then 0 else n) == Min(passed + k, size)
  {
  }

  /** What FileInputStream.skip leaves to read: the bytes after the first n, or nothing when
      the file is shorter. */
  function Skipped(content: seq<byte>, n: int): (r: seq<byte>)
    requires n >= 0
    ensures n <= |content| ==> content == content[..n] + r
    ensures n > |content| ==> r == []
  {
    if n <= |content| then content[n..] else []
  }

  /** An open FHInputStream. `source` is what the wrapped stream delivers: the file's bytes
      from offsetStart on, or what the cipher stream decrypts from them; `position` counts
      the bytes it has delivered. `requests` records the lengths asked for and `passed` the
      total length handed to the wrapped stream. */
  class FHInputStream {
    const file: FHFile
    const source: seq<byte>
    var position: nat
    var read: int
    var eof: bool
    ghost var requests: seq<int>
    ghost var passed: int

    /** The counter and the latch are what the requests so far leave. */
    ghost predicate Counted()
      reads this`read, this`eof, this`requests, this`passed
    {
      && file.Valid()
      && Requests(requests)
      && LONG_MIN <= read <= LONG_MAX
      && (!eof ==> file.offsetStart <= read < file.offsetEnd)
      && Run(file.offsetStart, file.offsetEnd, requests) == Counter(read, eof, passed)
    }

    /** ... and the wrapped stream has delivered what was handed to it, up to its end. */
    ghost predicate Valid()
      reads this
    {
      Counted() && position == Min(passed, |source|)
    }

    /** What the counter's accounting implies for an open stream: the total handed to the
        wrapped stream never exceeds the region, and covers it exactly once EOF is latched. */
    lemma Accounting()
      requires Valid()
      ensures 0 <= passed <= file.offsetEnd - file.offsetStart
      ensures eof <==> passed == file.offsetEnd - file.offsetStart
    {
      RunAccounts(file.offsetStart, file.offsetEnd, requests);
    }

    /** The fields the constructors set: the counter at offsetStart, EOF not reached. */
    constructor(file: FHFile, source: seq<byte>)
      requires file.Valid()
      ensures this.file == file && this.source == source
      ensures read == file.offsetStart && !eof && position == 0 && requests == []
      ensures Valid()
    {
      this.file := file;
      this.source := source;
      position := 0;
      read := file.offsetStart;
      eof := false;
      requests := [];
      passed := 0;
    }

    /** checkLen(len), which the reader only calls before EOF: the counter and the latch
        take what CheckLen computes, and the request is recorded. */
    method CheckLength(len: int) returns (response: int)
      requires Counted() && !eof && 0 <= len <= INT_MAX
      modifies this`read, this`eof, this`requests, this`passed
      ensures Counted()
      ensures var c := CheckLen(old(read), file.offsetEnd, len);
        read == c.read && eof == c.eof && response == c.response
      ensures requests == old(requests) + [len] && passed == old(passed) + response
    {
      RunStep(file.offsetStart, file.offsetEnd, requests, len);
      var c := CheckLen(read, file.offsetEnd, len);
      read := c.read;
      if c.eof {
        eof := true;
      }
      response := c.response;
      requests := requests + [len];
      passed := passed + response;
    }

    /** The wrapped stream's read(b, off, k): copies what it delivers to b[off..]. */
    method Transfer(b: array<byte>, off: int, k: int) returns (n: int)
      requires 0 <= off && 0 <= k && off + k <= b.Length && position <= |source|
      modifies this`position, b
      ensures n == Deliver(|source| - old(position), k)
      ensures position == old(position) + (if n < 0 then 0 else n)
      ensures b[..] == old(b[..])[..off] + source[old(position)..position] + old(b[..])[off + position - old(position)..]
    {
      n := Deliver(|source| - position, k);
      if n > 0 {
        forall i | off <= i < off + n {
          b[i] := source[position + i - off];
        }
        position := position + n;
      }
    }

    /** read(b, off, len): -1 once EOF is latched; otherwise the request is clamped by
        checkLen and handed to the wrapped stream. */
    method ReadInto(b: array<byte>, off: int, len: int) returns (n: int)
      requires Valid()
      requires 0 <= off && 0 <= len && off + len <= b.Length && len <= INT_MAX
      modifies this`read, this`eof, this`position, this`requests, this`passed, b
      ensures Valid()
      ensures old(eof) ==> n == -1 && eof && read == old(read) && position == old(position)
      ensures old(eof) ==> requests == old(requests) && b[..] == old(b[..])
      ensures !old(eof) ==> requests == old(requests) + [len]
      ensures !old(eof) ==>
        var c := CheckLen(old(read), file.offsetEnd, len);
        read == c.read && eof == c.eof && n == Deliver(|source| - old(position), c.response)
      ensures position == old(position) + (if n < 0 then 0 else n)
      ensures b[..] == old(b[..])[..off] + source[old(position)..position] + old(b[..])[off + position - old(position)..]
    {
      if eof {
        return -1;
      }
      n := ReadClamped(b, off, len);
    }

    /** super.read(b, off, checkLen(len)), before EOF. */
    method ReadClamped(b: array<byte>, off: int, len: int) returns (n: int)
      requires Valid() && !eof
      requires 0 <= off && 0 <= len && off + len <= b.Length && len <= INT_MAX
      modifies this`read, this`eof, this`position, this`requests, this`passed, b
      ensures Valid()
      ensures requests == old(requests) + [len]
      ensures var c := CheckLen(old(read), file.offsetEnd, len);
        read == c.read && eof == c.eof && n == Deliver(|source| - old(position), c.response)
      ensures position == old(position) + (if n < 0 then 0 else n)
      ensures b[..] == old(b[..])[..off] + source[old(position)..position] + old(b[..])[off + position - old(position)..]
    {
      ghost var c := CheckLen(read, file.offsetEnd, len);
      ghost var before := passed;
      DeliverAdvances(passed, |source|, c.response);
      var k := CheckLength(len);
      assert k == c.response && passed == before + k;
      assert Counted() && position == old(position) && b[..] == old(b[..]);
      n := Transfer(b, off, k);
      assert Counted();
      assert position == Min(passed, |source|);
    }

    /** read(b): read(b, 0, b.length). */
    method ReadAll(b: array<byte>) returns (n: int)
      requires Valid() && b.Length <= INT_MAX
      modifies this`read, this`eof, this`position, this`requests, this`passed, b
      ensures Valid()
      ensures old(eof) ==> n == -1 && eof && read == old(read) && position == old(position)
      ensures !old(eof) ==>
        var c := CheckLen(old(read), file.offsetEnd, b.Length);
        read == c.read && eof == c.eof && n == Deliver(|source| - old(position), c.response)
      ensures !old(eof) ==> requests == old(requests) + [b.Length]
      ensures position == old(position) + (if n < 0 then 0 else n)
      ensures b[..position - old(position)] == source[old(position)..position]
      ensures forall i | position - old(position) <= i < b.Length :: b[i] == old(b[i])
    {
      n := ReadInto(b, 0, b.Length);
    }

    /** read(): one byte through read(b), returned as Java's signed byte, or the negative
        result of read(b). A delivered 0xFF comes back as -1. */
    method ReadByte() returns (v: int)
      requires Valid()
      modifies this`read, this`eof, this`position, this`requests, this`passed
      ensures Valid()
      ensures old(eof) ==> v == -1 && eof && position == old(position)
      ensures !old(eof) && old(position) < |source| ==> v == SignedByte(source[old(position)]) && position == old(position) + 1
      ensures !old(eof) && old(position) >= |source| ==> v == -1 && position == old(position)
      ensures !old(eof) ==>
        var c := CheckLen(old(read), file.offsetEnd, 1);
        read == c.read && eof == c.eof && requests == old(requests) + [1]
    {
      var b := new byte[1];
      assert !eof ==> CheckLen(read, file.offsetEnd, 1).response == 1;
      var response := ReadAll(b);
      if response < 0 {
        return response;
      }
      v := SignedByte(b[0]);
    }
  }

  /** FHInputStream(file): an unencrypted file's hidden data, read from the file's bytes
      after offsetStart; FHFileEncryptedException on an encrypted file. */
  method OpenPlain(fh: FHFile) returns (r: Result<FHInputStream, Error>)
    requires fh.Valid()
    ensures r.Err? <==> fh.encrypted
    ensures r.Err? ==> r.error == Encrypted
    ensures r.Ok? ==>
      && fresh(r.value) && r.value.Valid() && r.value.file == fh
      && r.value.source == Skipped(fh.file.content, fh.offsetStart)
      && r.value.read == fh.offsetStart && !r.value.eof && r.value.position == 0
  {
    if fh.encrypted {
      return Err(Encrypted);
    }
    var s := new FHInputStream(fh, Skipped(fh.file.content, fh.offsetStart));
    r := Ok(s);
  }

  /** FHInputStream(file, cipher): an encrypted file's hidden data, read through the cipher
      stream, which delivers `decrypt` of the file's bytes after offsetStart;
      FHFileNotEncryptedException on an unencrypted file. */
  method OpenDecrypting(fh: FHFile, decrypt: seq<byte> -> seq<byte>) returns (r: Result<FHInputStream, Error>)
    requires fh.Valid()
    ensures r.Err? <==> !fh.encrypted
    ensures r.Err? ==> r.error == NotEncrypted
    ensures r.Ok? ==>
      && fresh(r.value) && r.value.Valid() && r.value.file == fh
      && r.value.source == decrypt(Skipped(fh.file.content, fh.offsetStart))
      && r.value.read == fh.offsetStart && !r.value.eof && r.value.position == 0
  {
    if !fh.encrypted {
      return Err(NotEncrypted);
    }
    var s := new FHInputStream(fh, decrypt(Skipped(fh.file.content, fh.offsetStart)));
    r := Ok(s);
  }
}
