// The bounded string buffer that every printing routine writes to (src/mdb_v8_strbuf.c).
// `Buf` is the abstract buffer; `Strbuf` is the C structure, proved to behave like it.

module StringBuffer {

  // A uint16_t character code, as passed to mdbv8_strbuf_appendc().
  type Code = c: int | 0 <= c < 0x1_0000

  // MSF_JSON includes MSF_ASCIIONLY, so three combinations behave differently.
  datatype AppendFlags = Plain | AsciiOnly | Json

  const QUOTE: Code := 34

  // A plain `char` is signed: bytes above 127 widen to 0xFF80..0xFFFF.
  type Byte = b: int | 0 <= b < 256

  function SignExtended(b: Byte): Code {
    if b < 128 then b else 0xFF00 + b
  }

  predicate IsAscii(c: Code) {
    c < 128
  }

  predicate IsControl(c: Code) {
    c < 32 || c == 127
  }

  // The bytes that mdbv8_strbuf_appendc() formats for one character.
  function Emit(c: Code, flags: AppendFlags): string {
    var c' := if !flags.Plain? && !IsAscii(c) then '?' as int else c;
    if !flags.Json? then [(c' % 256) as char]
    else if c' == 8 then "\\b"
    else if c' == 10 then "\\n"
    else if c' == 13 then "\\r"
    else if c' == 92 then "\\\\"
    else if c' == 34 then "\""
    else if IsControl(c') then "?"
    else [c' as char]
  }

  // mdbv8_strbuf_nbytesforchar(): what the look-ahead charges for one character.
  function Cost(c: Code, flags: AppendFlags): nat {
    if flags.Json? && c in {8, 10, 13, 92, 34} then 2 else 1
  }

  // The two functions are meant to be kept in sync.  They are, except on '"' in JSON mode.
  lemma CostBoundsEmit(c: Code, flags: AppendFlags)
    ensures 1 <= |Emit(c, flags)| <= Cost(c, flags) <= 2
    ensures |Emit(c, flags)| == Cost(c, flags) <==> !(flags.Json? && c == QUOTE)
  {
  }

  function Encode(s: seq<Code>, flags: AppendFlags): string {
    if s == [] then "" else Emit(s[0], flags) + Encode(s[1..], flags)
  }

  function TotalCost(s: seq<Code>, flags: AppendFlags): nat {
    if s == [] then 0 else Cost(s[0], flags) + TotalCost(s[1..], flags)
  }

  lemma {:induction false} EncodeConcat(s: seq<Code>, t: seq<Code>, flags: AppendFlags)
    ensures Encode(s + t, flags) == Encode(s, flags) + Encode(t, flags)
  {
    if s == [] {
      assert s + t == t;
    } else {
      assert (s + t)[1..] == s[1..] + t;
      EncodeConcat(s[1..], t, flags);
    }
  }

  lemma {:induction false} TotalCostConcat(s: seq<Code>, t: seq<Code>, flags: AppendFlags)
    ensures TotalCost(s + t, flags) == TotalCost(s, flags) + TotalCost(t, flags)
  {
    if s == [] {
      assert s + t == t;
    } else {
      assert (s + t)[1..] == s[1..] + t;
      TotalCostConcat(s[1..], t, flags);
    }
  }

  // Encoded size and charge over a whole text; they agree exactly on texts free of the quote mismatch.
  lemma {:induction false} EncodeWithinCost(s: seq<Code>, flags: AppendFlags)
    ensures |s| <= |Encode(s, flags)| <= TotalCost(s, flags)
    ensures |Encode(s, flags)| == TotalCost(s, flags) <==> !(flags.Json? && QUOTE in s)
  {
    if s != [] {
      CostBoundsEmit(s[0], flags);
      EncodeWithinCost(s[1..], flags);
      assert QUOTE in s <==> s[0] == QUOTE || QUOTE in s[1..];
    }
  }

  function Cut(s: string, n: nat): string {
    if |s| <= n then s else s[..n]
  }

  // What a caller sees of a buffer: the text so far, the room for text (one byte of the
  // storage is always kept for the terminator) and the bytes held back by reservations.
  datatype Buf = Buf(text: string, capacity: nat, reserved: nat) {

    function Left(): nat {
      if capacity - |text| < reserved then 0 else capacity - |text| - reserved
    }

    function Put(s: string): Buf {
      this.(text := text + Cut(s, Left()))
    }
  }

  // Formatting in pieces is formatting at once, however the pieces are truncated.
  lemma PutConcat(b: Buf, s: string, t: string)
    ensures b.Put(s).Put(t) == b.Put(s + t)
  {
    var n := b.Left();
    if |s| <= n {
      assert b.Put(s).text == b.text + s;
      assert b.Put(s).Left() == n - |s|;
      if |s + t| <= n {
      } else {
        assert (s + t)[..n] == s + t[..n - |s|];
      }
      assert b.Put(s).Put(t).text == b.Put(s + t).text;
    } else {
      assert b.Put(s).Left() == 0;
      assert |s + t| > n;
      assert (s + t)[..n] == s[..n];
      assert Cut(t, 0) == "";
    }
  }

  // b' is b with text appended, no more of it than there was room for.
  ghost predicate Grown(b: Buf, b': Buf) {
    && b.text <= b'.text
    && b' == b.(text := b'.text)
    && |b'.text| <= |b.text| + b.Left()
  }

  // Text is cut exactly if it does not fit outside the reservation, and then the buffer is full.
  lemma PutFills(b: Buf, s: string)
    requires |b.text| + b.reserved <= b.capacity
    ensures var after := b.Put(s);
            if |b.text| + |s| + b.reserved <= b.capacity then after.text == b.text + s
            else |after.text| + b.reserved == b.capacity && after.text <= b.text + s
  {
  }

  lemma PutGrows(b: Buf, s: string)
    ensures Grown(b, b.Put(s))
  {
  }

  class Strbuf {
    const buf: array<char>      // ms_buf, with ms_bufsz == buf.Length
    var curpos: nat             // ms_curbuf - ms_buf
    var curbufsz: nat           // ms_curbufsz
    var reservesz: nat          // ms_reservesz

    ghost predicate Valid()
      reads this, buf
    {
      && curpos + curbufsz == buf.Length
      && curbufsz >= 1
      && buf[curpos] == '\0'
    }

    ghost function Abs(): (b: Buf)
      requires Valid()
      reads this, buf
      ensures |b.text| <= b.capacity
    {
      Buf(buf[..curpos], buf.Length - 1, reservesz)
    }

    constructor (nbytes: nat)
      requires nbytes >= 1
      ensures Valid() && fresh(buf)
      ensures Abs() == Buf("", nbytes - 1, 0)
    {
      buf := new char[nbytes](_ => '\0');
      curpos, curbufsz, reservesz := 0, nbytes, 0;
    }

    method Rewind()
      requires Valid()
      modifies this, buf
      ensures Valid()
      ensures Abs() == old(Abs()).(text := "")
    {
      curpos := 0;
      curbufsz := buf.Length;
      buf[0] := '\0';
    }

    method Reserve(nbytes: int)
      requires Valid()
      requires reservesz + nbytes >= 0
      modifies this`reservesz
      ensures Valid()
      ensures Abs() == old(Abs()).(reserved := old(reservesz) + nbytes)
    {
      reservesz := reservesz + nbytes;
    }

    method BytesLeft() returns (n: nat)
      requires Valid()
      ensures n == Abs().Left()
    {
      if curbufsz - 1 < reservesz {
        return 0;
      }
      return curbufsz - 1 - reservesz;
    }

    // mdbv8_strbuf_vsprintf(), once its arguments have been formatted to `s`: vsnprintf() is
    // given curbufsz - reservesz bytes, writes a terminated prefix and returns |s|.
    method Sprintf(s: string)
      requires Valid()
      modifies this, buf
      ensures Valid()
      ensures Abs() == old(Abs()).Put(s)
    {
      if curbufsz <= reservesz {
        return;
      }
      var size := curbufsz - reservesz;
      var len := if |s| < size - 1 then |s| else size - 1;
      ghost var before := buf[..curpos];
      for i := 0 to len
        modifies buf
        invariant buf[..curpos] == before
        invariant buf[curpos..curpos + i] == s[..i]
      {
        buf[curpos + i] := s[i];
      }
      buf[curpos + len] := '\0';
      assert buf[..curpos + len] == before + s[..len];
      curbufsz := curbufsz - len;
      curpos := curpos + len;
    }

    method AppendC(c: Code, flags: AppendFlags)
      requires Valid()
      modifies this, buf
      ensures Valid()
      ensures Abs() == old(Abs()).Put(Emit(c, flags))
    {
      var c' := c;
      if !flags.Plain? && !IsAscii(c') {
        c' := '?' as int;
      }
      if flags.Json? {
        match c'
        case 8 => Sprintf("\\b"); return;
        case 10 => Sprintf("\\n"); return;
        case 13 => Sprintf("\\r"); return;
        case 92 => Sprintf("\\\\"); return;
        case 34 => Sprintf("\""); return;
        case _ =>
          if IsControl(c') {
            Sprintf("?");
            return;
          }
      }
      Sprintf([(c' % 256) as char]);
    }

    // mdbv8_strbuf_appends(): one appendc() per character of a C string.
    method AppendS(src: string, flags: AppendFlags)
      requires Valid()
      requires forall i | 0 <= i < |src| :: src[i] as int < 256
      modifies this, buf
      ensures Valid()
      ensures Abs() == old(Abs()).Put(Encode(Codes(src), flags))
    {
      ghost var start := Abs();
      ghost var codes := Codes(src);
      assert start.Put("") == start;
      for i := 0 to |src|
        invariant Valid()
        invariant Abs() == start.Put(Encode(codes[..i], flags))
      {
        AppendC(SignExtended(src[i] as int), flags);
        assert codes[..i + 1] == codes[..i] + [codes[i]];
        EncodeConcat(codes[..i], [codes[i]], flags);
        assert Encode([codes[i]], flags) == Emit(codes[i], flags);
        PutConcat(start, Encode(codes[..i], flags), Emit(codes[i], flags));
      }
      assert codes[..|src|] == codes;
    }
  }

  ghost function Codes(s: string): seq<Code>
    requires forall i | 0 <= i < |s| :: s[i] as int < 256
  {
    seq(|s|, i requires 0 <= i < |s| => SignExtended(s[i] as int))
  }
}
