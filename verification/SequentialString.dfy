// Writing sequential string data chunk by chunk (src/mdb_v8_string.c:230-557).  The chunked
// state machine is proved to write what Truncation.WriteChars says, for every chunk size.

module SequentialString {
  import opened StringBuffer
  import opened CoreFile
  import opened Truncation

  const READ_FAILED := "<string (failed to read data)>"
  const LOOKS_INVALID := "<string (contents looks invalid)>"

  datatype SizeCheckResult = DontKnow | WillFit | WontFit | NoDanger

  // The character stored at `a`: one (signed) byte, or two bytes in little-endian order.
  function CharAt(core: Core, a: int, oneByte: bool): Code {
    if oneByte then SignExtended(core.ByteAt(a)) else core.ByteAt(a) + 256 * core.ByteAt(a + 1)
  }

  function Scale(oneByte: bool, n: int): int {
    if oneByte then n else 2 * n
  }

  // The `n` characters stored from `base` on.
  function CharsAt(core: Core, base: int, oneByte: bool, n: nat): seq<Code> {
    seq(n, i requires 0 <= i < n => CharAt(core, base + Scale(oneByte, i), oneByte))
  }

  // mdb_vread() into a caller's buffer: everything or nothing.
  method VRead(core: Core, dst: array<Byte>, n: nat, addr: int) returns (ok: bool)
    requires n <= dst.Length
    modifies dst
    ensures ok <==> core.Readable(addr, n)
    ensures ok ==> forall i | 0 <= i < n :: dst[i] == core.ByteAt(addr + i)
  {
    for i := 0 to n
      invariant forall a | addr <= a < addr + i :: a in core.bytes
      invariant forall j | 0 <= j < i :: dst[j] == core.ByteAt(addr + j)
    {
      if addr + i !in core.bytes {
        return false;
      }
      dst[i] := core.bytes[addr + i];
    }
    return true;
  }

  ghost predicate IsTail(tail: string) {
    tail in {"", MARKER, READ_FAILED, LOOKS_INVALID}
  }

  // Reading has failed: n characters that can be read have been written in full, followed by the
  // message.
  ghost predicate FailsAt(text: seq<Code>, readable: nat, b: Buf, b': Buf, flags: AppendFlags, n: nat) {
    && n <= readable && n <= |text|
    && |Encode(text[..n], flags)| <= b.Left()
    && b' == b.Put(Encode(text[..n], flags)).Put("<string (failed to read data)>")
  }

  ghost predicate ReadFails(text: seq<Code>, readable: nat, b: Buf, b': Buf, flags: AppendFlags) {
    exists n: nat :: FailsAt(text, readable, b, b', flags, n)
  }

  // How many of the n characters stored from `base` on can be read, up to the first that cannot.
  function ReadableChars(core: Core, base: int, oneByte: bool, n: nat): (k: nat)
    ensures k <= n
  {
    if n == 0 then 0
    else
      var k := ReadableChars(core, base, oneByte, n - 1);
      if k == n - 1 && core.Readable(base + Scale(oneByte, n - 1), Scale(oneByte, 1)) then n else k
  }

  lemma {:induction false} ReadablePrefix(core: Core, base: int, oneByte: bool, m: nat, n: nat)
    requires m <= n && core.Readable(base, Scale(oneByte, m))
    ensures m <= ReadableChars(core, base, oneByte, n)
  {
    if m < n {
      ReadablePrefix(core, base, oneByte, m, n - 1);
    } else if n > 0 {
      ReadablePrefix(core, base, oneByte, n - 1, n - 1);
    }
  }

  // The heuristic applied to external strings: the first byte is neither NUL nor ASCII.
  predicate FirstByteInvalid(core: Core, a: int) {
    core.ByteAt(a) != 0 && !IsAscii(SignExtended(core.ByteAt(a)))
  }

  // That is a byte with its top bit set.
  lemma FirstByteInvalidIff(core: Core, a: int)
    ensures FirstByteInvalid(core, a) <==> a in core.bytes && core.bytes[a] >= 128
  {
  }

  // What is to be written for the n characters from `base` on, if they can all be read.
  ghost function Expected(core: Core, base: int, oneByte: bool, n: nat, asciicheck: bool, b: Buf,
                          flags: AppendFlags): Buf
  {
    if asciicheck && n > 0 && FirstByteInvalid(core, base) then b.Put(LOOKS_INVALID)
    else WriteChars(b, CharsAt(core, base, oneByte, n), flags)
  }

  // And what is written: that, or else reading has failed after characters that can be read.
  ghost predicate DataIsWritten(core: Core, base: int, oneByte: bool, text: seq<Code>, expected: Buf,
                                b: Buf, b': Buf, flags: AppendFlags)
  {
    || b' == expected
    || (&& !core.Readable(base, Scale(oneByte, |text|))
        && ReadFails(text, ReadableChars(core, base, oneByte, |text|), b, b', flags))
  }

  // Writing the n characters from `base` on leaves what it should.
  ghost predicate CharsAreWritten(core: Core, base: int, oneByte: bool, n: nat, asciicheck: bool, b: Buf, b': Buf,
                                  flags: AppendFlags)
  {
    DataIsWritten(core, base, oneByte, CharsAt(core, base, oneByte, n),
                  Expected(core, base, oneByte, n, asciicheck, b, flags), b, b', flags)
  }

  // v8string_write_t, the state of one write.
  class SeqWriter {
    const core: Core
    const strb: Strbuf
    const flags: AppendFlags
    const oneByte: bool           // v8sw_inbytesperchar == 1
    const charsp: int
    const sliceoffset: nat
    const slicelen: nat
    const chunk: array<Byte>      // v8sw_chunk, with v8sw_chunksz == chunk.Length
    var readoff: nat
    var nreadchars: nat
    var chunki: nat
    var chunklast: bool
    var done: bool
    var asciicheck: bool
    ghost const text: seq<Code>   // the characters to write
    ghost const start: Buf        // the buffer when the writer was created
    ghost var tail: string        // what was appended after the last character

    constructor (core: Core, strb: Strbuf, flags: AppendFlags, oneByte: bool, charsp: int,
                 sliceoffset: nat, slicelen: nat, chunksz: nat, asciicheck: bool)
      requires strb.Valid()
      requires if oneByte then chunksz >= 7 else chunksz >= 14 && chunksz % 2 == 0
      requires asciicheck ==> oneByte
      ensures this.core == core && this.strb == strb && this.flags == flags && this.oneByte == oneByte
      ensures this.charsp == charsp && this.sliceoffset == sliceoffset && this.slicelen == slicelen
      ensures fresh(chunk) && start == strb.Abs()
      ensures text == CharsAt(core, charsp + Scale(oneByte, sliceoffset), oneByte, slicelen)
      ensures nreadchars == 0 && this.asciicheck == asciicheck && done == (slicelen == 0)
      ensures Valid()
    {
      this.core, this.strb, this.flags, this.oneByte := core, strb, flags, oneByte;
      this.charsp, this.sliceoffset, this.slicelen := charsp, sliceoffset, slicelen;
      chunk := new Byte[chunksz](_ => 0);
      readoff, nreadchars, chunki := Scale(oneByte, sliceoffset), 0, 0;
      chunklast, done, this.asciicheck := false, slicelen == 0, asciicheck;
      start, tail := strb.Abs(), "";
      text := CharsAt(core, charsp + Scale(oneByte, sliceoffset), oneByte, slicelen);
      new;
      assert text[..0] == [] && text[0..] == text;
      assert start.Put("") == start;
    }

    ghost predicate DataReadable() {
      core.Readable(charsp + Scale(oneByte, sliceoffset), Scale(oneByte, slicelen))
    }

    // The characters still to be written.
    ghost function Rest(): (t: seq<Code>)
      requires nreadchars <= |text|
      reads this
    {
      text[nreadchars..]
    }

    ghost predicate WellFormed()
      reads this
    {
      && text == CharsAt(core, charsp + Scale(oneByte, sliceoffset), oneByte, slicelen)
      && (if oneByte then chunk.Length >= 7 else chunk.Length >= 14 && chunk.Length % 2 == 0)
      && nreadchars <= |text| == slicelen
      && readoff == Scale(oneByte, sliceoffset + nreadchars)
    }

    // The first nreadchars characters, and nothing else, have been written in full.
    ghost predicate UpToDate(b: Buf)
      reads this
    {
      && nreadchars <= |text|
      && |Encode(text[..nreadchars], flags)| <= start.Left()
      && b == start.Put(Encode(text[..nreadchars], flags))
    }

    // When done, those characters are followed by one tail, which may be cut short.
    ghost predicate Valid()
      reads this, strb, strb.buf
    {
      && strb.Valid()
      && WellFormed()
      && (asciicheck ==> oneByte && nreadchars == 0)
      && (!done ==> UpToDate(strb.Abs()))
      && (done ==> IsTail(tail) && exists b :: UpToDate(b) && strb.Abs() == b.Put(tail))
    }

    // How this writer's output ends if its data can be read.
    ghost function Final(): Buf
      requires Valid()
      reads this, strb, strb.buf
    {
      if done then strb.Abs()
      else if asciicheck && FirstByteInvalid(core, charsp + Scale(oneByte, sliceoffset)) then
        strb.Abs().Put(LOOKS_INVALID)
      else WriteChars(strb.Abs(), Rest(), flags)
    }

    // A new writer is to end as the characters in memory say.
    lemma FinalAtStart()
      requires Valid() && nreadchars == 0 && start == strb.Abs() && done == (slicelen == 0)
      ensures Final() == Expected(core, charsp + Scale(oneByte, sliceoffset), oneByte, slicelen, asciicheck, start,
                                  flags)
    {
      assert text[0..] == text;
    }

    // Only characters that can be read have been written.
    ghost predicate PrefixReadable()
      reads this
    {
      core.Readable(charsp + Scale(oneByte, sliceoffset), Scale(oneByte, nreadchars))
    }

    // The write has ended because a chunk could not be read.
    ghost predicate ReadHasFailed()
      reads this, strb, strb.buf
    {
      strb.Valid() && done && !DataReadable() && exists b :: UpToDate(b) && strb.Abs() == b.Put(READ_FAILED)
    }

    // The part of the current chunk at or after chunki holds the next unread characters.
    ghost predicate ChunkLoaded()
      reads this, chunk
    {
      && WellFormed()
      && chunki <= chunk.Length && (!oneByte ==> chunki % 2 == 0)
      && (chunklast <==> chunki + Scale(oneByte, slicelen - nreadchars) <= chunk.Length)
      && forall j | chunki <= j < chunk.Length && j < chunki + Scale(oneByte, slicelen - nreadchars) ::
           chunk[j] == core.ByteAt(charsp + readoff + (j - chunki))
    }

    // Take the character at position i of the chunk as a uint16_t.
    method ChunkChar(i: nat, ghost n: nat) returns (c: Code)
      requires ChunkLoaded()
      requires i == chunki + Scale(oneByte, n) && i < chunk.Length && nreadchars + n < slicelen
      ensures c == Rest()[n]
    {
      assert Rest()[n] == text[nreadchars + n];
      if oneByte {
        c := SignExtended(chunk[i]);
      } else {
        assert i % 2 == 0;
        c := (chunk[i] as int) + 256 * (chunk[i + 1] as int);
      }
    }

    // The look-ahead loop of v8string_write_sizecheck(): charge for the rest of the chunk.
    method ScanChunk() returns (i: nat, noutbytes: nat, firstcharbytes: nat, n: nat)
      requires ChunkLoaded() && chunki < chunk.Length && nreadchars < slicelen
      ensures 0 < n <= slicelen - nreadchars && i == chunki + Scale(oneByte, n) && i <= chunk.Length
      ensures i == chunk.Length || n == slicelen - nreadchars
      ensures noutbytes == TotalCost(Rest()[..n], flags) && firstcharbytes == Cost(Rest()[0], flags)
    {
      ghost var rest := Rest();
      i, noutbytes, n, firstcharbytes := chunki, 0, 0, 0;
      while i < chunk.Length && nreadchars + n < slicelen
        invariant i == chunki + Scale(oneByte, n) && i <= chunk.Length
        invariant nreadchars + n <= slicelen
        invariant noutbytes == TotalCost(rest[..n], flags)
        invariant n > 0 ==> firstcharbytes == Cost(rest[0], flags)
        decreases slicelen - nreadchars - n
      {
        var chrval := ChunkChar(i, n);
        CostOfPrefix(rest, n, flags);
        assert Scale(oneByte, n + 1) == Scale(oneByte, n) + Scale(oneByte, 1);
        noutbytes := noutbytes + Cost(chrval, flags);
        if i == chunki {
          firstcharbytes := noutbytes;
        }
        i := i + Scale(oneByte, 1);
        n := n + 1;
      }
    }

    // v8string_write_sizecheck()
    method SizeCheck() returns (r: SizeCheckResult)
      requires strb.Valid() && ChunkLoaded() && chunki < chunk.Length && nreadchars < slicelen
      ensures r.NoDanger? <==> Cost(Rest()[0], flags) + |MARKER| <= strb.Abs().Left()
      ensures r.WillFit? ==> TotalCost(Rest(), flags) <= strb.Abs().Left()
      ensures r.WontFit? ==> TotalCost(Rest(), flags) > strb.Abs().Left()
      ensures r.DontKnow? ==> chunki != 0 && !chunklast
    {
      var maxoutbytesperchar := 2;
      var outbytesleft := strb.BytesLeft();
      ghost var rest := Rest();
      CostBoundsEmit(rest[0], flags);
      if outbytesleft > maxoutbytesperchar && outbytesleft - maxoutbytesperchar >= |MARKER| {
        return NoDanger;
      }
      var i, noutbytes, firstcharbytes, n := ScanChunk();
      if outbytesleft > |MARKER| && firstcharbytes <= outbytesleft - |MARKER| {
        return NoDanger;
      }
      SplitAt(rest, n, flags);
      EncodeWithinCost(rest[..n], flags);
      if noutbytes > outbytesleft {
        return WontFit;
      }
      if i == chunk.Length && !chunklast {
        return DontKnow;
      }
      assert rest[..n] == rest;
      return WillFit;
    }

    // End the write with a message.
    method Stop(msg: string)
      requires Valid() && !done && IsTail(msg)
      modifies this`done, this`tail, strb, strb.buf
      ensures Valid() && done && strb.Abs() == old(strb.Abs()).Put(msg)
    {
      ghost var b := strb.Abs();
      strb.Sprintf(msg);
      done, tail := true, msg;
      assert UpToDate(b);
    }

    // End the write with the truncation marker.
    method StopTruncated()
      requires Valid() && !done
      modifies this`done, this`tail, strb, strb.buf
      ensures Valid() && done && strb.Abs() == old(strb.Abs()).Put(MARKER)
    {
      ghost var b := strb.Abs();
      MarkerEncodesItself(flags);
      strb.AppendS(MARKER, flags);
      done, tail := true, MARKER;
      assert UpToDate(b);
    }

    // End the write because every character has been written.
    method StopAtEnd()
      requires Valid() && !done && nreadchars == slicelen
      modifies this`done, this`tail
      ensures Valid() && done && strb.Abs() == old(strb.Abs())
    {
      done, tail := true, "";
      assert UpToDate(strb.Abs()) && strb.Abs() == strb.Abs().Put("");
    }

    // Step over the next character of the chunk.
    method Advance()
      requires ChunkLoaded() && chunki < chunk.Length && nreadchars < slicelen
      modifies this`readoff, this`nreadchars, this`chunki
      ensures nreadchars == old(nreadchars) + 1 && chunki == old(chunki) + Scale(oneByte, 1)
      ensures ChunkLoaded()
    {
      readoff := readoff + Scale(oneByte, 1);
      nreadchars := nreadchars + 1;
      chunki := chunki + Scale(oneByte, 1);
    }

    // Append the next character of the chunk, which is known to fit.
    method TakeChar()
      requires Valid() && !done && ChunkLoaded() && chunki < chunk.Length && nreadchars < slicelen && !asciicheck
      requires Cost(Rest()[0], flags) <= strb.Abs().Left()
      modifies this`readoff, this`nreadchars, this`chunki, strb, strb.buf
      ensures nreadchars == old(nreadchars) + 1 && chunki == old(chunki) + Scale(oneByte, 1)
      ensures Valid() && ChunkLoaded()
      ensures strb.Abs() == old(strb.Abs()).Put(Emit(old(Rest()[0]), flags))
      ensures Rest() == old(Rest())[1..]
    {
      AppendFits(start, text, nreadchars, flags);
      var chrval := ChunkChar(chunki, 0);
      strb.AppendC(chrval, flags);
      Advance();
    }

    // The first half of v8string_write_seq_chunk(): fetch the next chunk.
    method ReadChunk() returns (nbytestoread: nat, ok: bool)
      requires Valid() && !done && nreadchars < slicelen
      modifies this`chunki, this`chunklast, chunk
      ensures Valid()
      ensures DataReadable() ==> ok
      ensures ok ==> ChunkLoaded() && chunki == 0 && core.Readable(charsp + readoff, nbytestoread)
      ensures nbytestoread == if chunklast then Scale(oneByte, slicelen - nreadchars) else chunk.Length
    {
      var inbytesleft := Scale(oneByte, slicelen - nreadchars);
      if chunk.Length < inbytesleft {
        nbytestoread := chunk.Length;
        chunklast := false;
      } else {
        nbytestoread := inbytesleft;
        chunklast := true;
      }
      ok := VRead(core, chunk, nbytestoread, charsp + readoff);
      chunki := 0;
    }

    // One turn of the loop in v8string_write_seq_chunk().
    method WriteOne() returns (again: bool)
      requires Valid() && !done && ChunkLoaded() && chunki < chunk.Length && nreadchars < slicelen && !asciicheck
      modifies this`readoff, this`nreadchars, this`chunki, this`done, this`tail, strb, strb.buf
      ensures Valid() && Final() == old(Final())
      ensures again ==> !done && ChunkLoaded()
      ensures again ==> nreadchars == old(nreadchars) + 1 && chunki == old(chunki) + Scale(oneByte, 1)
      ensures !again ==> nreadchars == old(nreadchars) && chunki == old(chunki) && (done || chunki > 0)
    {
      var sizecheck := SizeCheck();
      if sizecheck.WontFit? {
        StopTruncated();
        return false;
      }
      if sizecheck.DontKnow? {
        return false;
      }
      CostOfHead(Rest(), flags);
      TakeChar();
      return true;
    }

    // The loop of v8string_write_seq_chunk().
    method WriteLoaded(nbytestoread: nat)
      requires Valid() && !done && ChunkLoaded() && chunki == 0 && nreadchars < slicelen && !asciicheck
      requires nbytestoread == if chunklast then Scale(oneByte, slicelen - nreadchars) else chunk.Length
      modifies this`readoff, this`nreadchars, this`chunki, this`done, this`tail, strb, strb.buf
      ensures Valid() && Final() == old(Final())
      ensures done || old(nreadchars) < nreadchars < slicelen
      ensures 0 <= Scale(oneByte, nreadchars - old(nreadchars)) <= nbytestoread
    {
      while nreadchars < slicelen && chunki < nbytestoread
        invariant Valid() && Final() == old(Final()) && ChunkLoaded() && !done
        invariant nbytestoread == if chunklast then chunki + Scale(oneByte, slicelen - nreadchars) else chunk.Length
        invariant chunki == Scale(oneByte, nreadchars - old(nreadchars))
        invariant chunki <= nbytestoread
        decreases slicelen - nreadchars
      {
        var again := WriteOne();
        if !again {
          return;
        }
      }
      if nreadchars == slicelen {
        StopAtEnd();
      }
    }

    // The check of the first byte in v8string_write_seq_chunk(), for external strings.
    method CheckAscii()
      requires Valid() && !done && ChunkLoaded() && chunki == 0 && nreadchars < slicelen
      modifies this`done, this`asciicheck, this`tail, strb, strb.buf
      ensures Valid() && Final() == old(Final())
      ensures done || (ChunkLoaded() && !asciicheck)
    {
      if asciicheck {
        if chunk[0] != 0 && !IsAscii(SignExtended(chunk[0])) {
          Stop(LOOKS_INVALID);
          return;
        }
        asciicheck := false;
      }
    }

    // v8string_write_seq_chunk()
    method WriteChunk()
      requires Valid() && !done && nreadchars < slicelen && PrefixReadable()
      modifies this`readoff, this`nreadchars, this`chunki, this`chunklast, this`done, this`asciicheck, this`tail
      modifies strb, strb.buf, chunk
      ensures Valid() && PrefixReadable()
      ensures done || old(nreadchars) < nreadchars < slicelen
      ensures Final() == old(Final()) || ReadHasFailed()
    {
      var nbytestoread, ok := ReadChunk();
      if !ok {
        assert UpToDate(strb.Abs());
        Stop(READ_FAILED);
        return;
      }
      WriteRead(nbytestoread);
    }

    // The second half of v8string_write_seq_chunk(), with a chunk that has been read.
    method WriteRead(nbytestoread: nat)
      requires Valid() && !done && ChunkLoaded() && chunki == 0 && nreadchars < slicelen
      requires nbytestoread == if chunklast then Scale(oneByte, slicelen - nreadchars) else chunk.Length
      requires PrefixReadable() && core.Readable(charsp + readoff, nbytestoread)
      modifies this`readoff, this`nreadchars, this`chunki, this`done, this`asciicheck, this`tail, strb, strb.buf
      ensures Valid() && PrefixReadable() && Final() == old(Final())
      ensures done || old(nreadchars) < nreadchars < slicelen
    {
      CheckAscii();
      if !done {
        ghost var before := nreadchars;
        WriteLoaded(nbytestoread);
        MoreReadable(core, charsp + Scale(oneByte, sliceoffset), oneByte, before, nreadchars, nbytestoread);
      }
    }

    // The driving loop of v8string_write_seq() and v8string_write_ext().
    method Run()
      requires Valid() && (!done ==> nreadchars < slicelen) && PrefixReadable()
      modifies this`readoff, this`nreadchars, this`chunki, this`chunklast, this`done, this`asciicheck, this`tail
      modifies strb, strb.buf, chunk
      ensures Valid() && done && PrefixReadable()
      ensures Final() == old(Final()) || ReadHasFailed()
    {
      while !done
        invariant Valid() && (!done ==> nreadchars < slicelen) && PrefixReadable()
        invariant Final() == old(Final()) || ReadHasFailed()
        decreases if done then 0 else 1 + slicelen - nreadchars
      {
        WriteChunk();
      }
    }

    // All of the write, from a new writer on.
    method WriteAll()
      requires Valid() && nreadchars == 0 && start == strb.Abs() && done == (slicelen == 0)
      modifies this`readoff, this`nreadchars, this`chunki, this`chunklast, this`done, this`asciicheck, this`tail
      modifies strb, strb.buf, chunk
      ensures strb.Valid() && Grown(start, strb.Abs())
      ensures CharsAreWritten(core, charsp + Scale(oneByte, sliceoffset), oneByte, slicelen, old(asciicheck),
                              start, strb.Abs(), flags)
    {
      FinalAtStart();
      ghost var expected := Final();
      Run();
      WhatIsWritten(expected);
    }

    // The output in the end, in terms of what was to be written.
    lemma WhatIsWritten(expected: Buf)
      requires Valid() && done && PrefixReadable() && (strb.Abs() == expected || ReadHasFailed())
      ensures Grown(start, strb.Abs())
      ensures var base := charsp + Scale(oneByte, sliceoffset);
              DataIsWritten(core, base, oneByte, text, expected, start, strb.Abs(), flags)
    {
      var b :| UpToDate(b) && strb.Abs() == b.Put(tail);
      var prefix := Encode(text[..nreadchars], flags);
      assert strb.Abs() == start.Put(prefix).Put(tail);
      PutGrows(start, prefix);
      PutGrows(b, tail);
      if strb.Abs() != expected {
        assert strb.Abs() == start.Put(prefix).Put(READ_FAILED);
        FailureIsRecorded(core, charsp + Scale(oneByte, sliceoffset), oneByte, text, nreadchars, start, strb.Abs(),
                          flags);
      }
    }
  }

  // Set up a writer and run it.
  method WriteRun(core: Core, strb: Strbuf, flags: AppendFlags, oneByte: bool, charsp: int,
                  sliceoffset: nat, slicelen: nat, chunksz: nat, asciicheck: bool)
    requires strb.Valid() && (asciicheck ==> oneByte)
    requires if oneByte then chunksz >= 7 else chunksz >= 14 && chunksz % 2 == 0
    modifies strb, strb.buf
    ensures strb.Valid() && Grown(old(strb.Abs()), strb.Abs())
    ensures CharsAreWritten(core, charsp + Scale(oneByte, sliceoffset), oneByte, slicelen, asciicheck,
                            old(strb.Abs()), strb.Abs(), flags)
  {
    var write := new SeqWriter(core, strb, flags, oneByte, charsp, sliceoffset, slicelen, chunksz, asciicheck);
    write.WriteAll();
  }

  // What a writer that could not read its data has written.
  lemma FailureIsRecorded(core: Core, base: int, oneByte: bool, text: seq<Code>, n: nat, b: Buf, b': Buf,
                          flags: AppendFlags)
    requires n <= |text| && core.Readable(base, Scale(oneByte, n)) && |Encode(text[..n], flags)| <= b.Left()
    requires b' == b.Put(Encode(text[..n], flags)).Put(READ_FAILED)
    ensures ReadFails(text, ReadableChars(core, base, oneByte, |text|), b, b', flags)
  {
    ReadablePrefix(core, base, oneByte, n, |text|);
    assert FailsAt(text, ReadableChars(core, base, oneByte, |text|), b, b', flags, n);
  }

  // Reading on from character m on makes characters up to n readable.
  lemma MoreReadable(core: Core, base: int, oneByte: bool, m: nat, n: nat, nbytes: nat)
    requires m <= n && Scale(oneByte, n - m) <= nbytes
    requires core.Readable(base, Scale(oneByte, m)) && core.Readable(base + Scale(oneByte, m), nbytes)
    ensures core.Readable(base, Scale(oneByte, n))
  {
  }

  // Appending one more character of t to what has been written, when that character fits.
  lemma AppendFits(start: Buf, t: seq<Code>, n: nat, flags: AppendFlags)
    requires n < |t| && |Encode(t[..n], flags)| <= start.Left()
    requires Cost(t[n], flags) <= start.Put(Encode(t[..n], flags)).Left()
    ensures |Encode(t[..n + 1], flags)| <= start.Left()
    ensures start.Put(Encode(t[..n], flags)).Put(Emit(t[n], flags)) == start.Put(Encode(t[..n + 1], flags))
  {
    CostBoundsEmit(t[n], flags);
    assert t[..n + 1] == t[..n] + [t[n]];
    EncodeConcat(t[..n], [t[n]], flags);
    assert Encode([t[n]], flags) == Emit(t[n], flags);
    PutConcat(start, Encode(t[..n], flags), Emit(t[n], flags));
  }

  lemma MarkerEncodesItself(flags: AppendFlags)
    ensures Encode(Codes(MARKER), flags) == MARKER
  {
    assert Codes(MARKER) == [91, 46, 46, 46, 93];
    assert Encode([46, 46, 46, 93], flags) == "...]";
  }

  lemma CostOfHead(s: seq<Code>, flags: AppendFlags)
    requires s != []
    ensures Cost(s[0], flags) <= TotalCost(s, flags)
  {
  }

  lemma CostOfPrefix(s: seq<Code>, n: nat, flags: AppendFlags)
    requires n < |s|
    ensures TotalCost(s[..n + 1], flags) == TotalCost(s[..n], flags) + Cost(s[n], flags)
  {
    assert s[..n + 1] == s[..n] + [s[n]];
    TotalCostConcat(s[..n], [s[n]], flags);
    assert TotalCost([s[n]], flags) == Cost(s[n], flags);
  }
}
