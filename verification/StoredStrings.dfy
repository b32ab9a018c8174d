// How V8 stores a string in memory, given as an encoding of its text, and the round trip: what
// is printed for a stored string is its text.  (src/mdb_v8_string.c:66-228, 307-331, 559-697)

module StoredStrings {
  import opened Wrappers
  import opened StringBuffer
  import opened Escapes
  import opened CoreFile
  import opened SequentialString
  import opened Ropes
  import opened JSString

  // A string in memory and the objects it is made of, each with its address.
  datatype Stored =
    | Sequential(addr: nat, oneByte: bool, chars: seq<Code>)
    | External(addr: nat, resource: nat, data: nat, chars: seq<Code>)
    | Slice(addr: nat, parent: Stored, from: nat, len: nat)
    | Cons(addr: nat, first: Stored, second: Stored)
  {
    function Text(): seq<Code> {
      match this
      case Sequential(_, _, chars) => chars
      case External(_, _, _, chars) => chars
      case Slice(_, parent, from, len) => if from + len <= |parent.Text()| then parent.Text()[from..from + len] else []
      case Cons(_, first, second) => first.Text() + second.Text()
    }

    function Height(): nat {
      match this
      case Cons(_, first, second) => 1 + if first.Height() < second.Height() then second.Height() else first.Height()
      case _ => 0
    }
  }

  // A string object of type t and length len.
  ghost predicate HasHeader(core: Core, addr: nat, t: Byte, len: nat) {
    t in core.k.stringTypes && HasType(core, addr, t) && HasSmi(core, addr + core.k.offStringLength, len)
  }

  // Characters as they are stored: one byte each, or two in little-endian order.
  ghost predicate HasChars(core: Core, base: int, oneByte: bool, chars: seq<Code>) {
    forall i | 0 <= i < |chars| ::
      if oneByte then chars[i] < 256 && HasByte(core, base + i, chars[i])
      else HasByte(core, base + 2 * i, chars[i] % 256) && HasByte(core, base + 2 * i + 1, chars[i] / 256)
  }

  ghost predicate IsSequential(core: Core, s: Stored, t: Byte)
    requires s.Sequential?
  {
    && HasHeader(core, s.addr, t, |s.chars|) && t in core.k.seqTypes && (t in core.k.oneByteTypes <==> s.oneByte)
    && var chars := s.addr + if s.oneByte then core.k.offSeqAsciiChars else core.k.offSeqTwoByteChars;
       HasChars(core, chars, s.oneByte, s.chars)
  }

  // Node's external strings, with text that the check of the first byte accepts.
  ghost predicate IsExternal(core: Core, s: Stored, t: Byte)
    requires s.External?
  {
    && HasHeader(core, s.addr, t, |s.chars|) && t in core.k.extTypes && t in core.k.oneByteTypes
    && t !in core.k.seqTypes && t !in core.k.consTypes && t !in core.k.slicedTypes
    && HasWord(core, s.addr + core.k.offExtResource, s.resource)
    && HasWord(core, s.resource + 8, s.data)       // behind the vtable pointer
    && HasChars(core, s.data, true, s.chars)
    && (s.chars != [] ==> s.chars[0] < 128)
  }

  // A slice refers to a sequential string of the same width.
  ghost predicate IsSlice(core: Core, s: Stored, t: Byte)
    requires s.Slice?
  {
    && HasHeader(core, s.addr, t, s.len) && t in core.k.slicedTypes
    && t !in core.k.seqTypes && t !in core.k.consTypes
    && s.parent.Sequential? && (t in core.k.oneByteTypes <==> s.parent.oneByte)
    && HasWord(core, s.addr + core.k.offSlicedParent, s.parent.addr)
    && HasSmi(core, s.addr + core.k.offSlicedOffset, s.from)
    && s.from + s.len <= |s.parent.chars|
  }

  ghost predicate IsCons(core: Core, s: Stored, t: Byte)
    requires s.Cons?
  {
    && HasHeader(core, s.addr, t, |s.Text()|) && t in core.k.consTypes && t !in core.k.seqTypes
    && HasWord(core, s.addr + core.k.offConsFirst, s.first.addr)
    && HasWord(core, s.addr + core.k.offConsSecond, s.second.addr)
  }

  // The memory image holds the string.
  ghost predicate Holds(core: Core, s: Stored) {
    match s
    case Sequential(_, _, _) => exists t :: IsSequential(core, s, t)
    case External(_, _, _, _) => exists t :: IsExternal(core, s, t)
    case Slice(_, parent, _, _) => (exists t :: IsSlice(core, s, t)) && Holds(core, parent)
    case Cons(_, first, second) => (exists t :: IsCons(core, s, t)) && Holds(core, first) && Holds(core, second)
  }

  // What the characters are read as: bytes above 127 are sign-extended.
  function Widened(oneByte: bool, chars: seq<Code>): seq<Code> {
    seq(|chars|, i requires 0 <= i < |chars| =>
      if oneByte && chars[i] < 256 then SignExtended(chars[i]) else chars[i])
  }

  function ReadText(s: Stored): seq<Code> {
    match s
    case Sequential(_, oneByte, chars) => Widened(oneByte, chars)
    case External(_, _, _, chars) => Widened(true, chars)
    case Slice(_, parent, _, _) => Widened(parent.Sequential? && parent.oneByte, s.Text())
    case Cons(_, first, second) => ReadText(first) + ReadText(second)
  }

  // Sign extension makes no difference to what is printed.
  lemma {:induction false} WideningIsInvisible(oneByte: bool, chars: seq<Code>, flags: AppendFlags)
    ensures Encode(Widened(oneByte, chars), flags) == Encode(chars, flags)
    ensures TotalCost(Widened(oneByte, chars), flags) == TotalCost(chars, flags)
  {
    if chars != [] {
      var wide := Widened(oneByte, chars);
      assert wide[1..] == Widened(oneByte, chars[1..]);
      WideningIsInvisible(oneByte, chars[1..], flags);
      if oneByte && chars[0] < 256 {
        SignIsInvisible(chars[0], flags);
      }
    }
  }

  lemma SignIsInvisible(b: Byte, flags: AppendFlags)
    ensures Emit(SignExtended(b), flags) == Emit(b, flags) && Cost(SignExtended(b), flags) == Cost(b, flags)
  {
  }

  lemma {:induction false} ReadTextPrintsTheSame(s: Stored, flags: AppendFlags)
    ensures Encode(ReadText(s), flags) == Encode(s.Text(), flags)
    ensures TotalCost(ReadText(s), flags) == TotalCost(s.Text(), flags)
  {
    match s
    case Sequential(_, oneByte, chars) => WideningIsInvisible(oneByte, chars, flags);
    case External(_, _, _, chars) => WideningIsInvisible(true, chars, flags);
    case Slice(_, parent, _, _) => WideningIsInvisible(parent.Sequential? && parent.oneByte, s.Text(), flags);
    case Cons(_, first, second) =>
      ReadTextPrintsTheSame(first, flags);
      ReadTextPrintsTheSame(second, flags);
      EncodeConcat(ReadText(first), ReadText(second), flags);
      EncodeConcat(first.Text(), second.Text(), flags);
      TotalCostConcat(ReadText(first), ReadText(second), flags);
      TotalCostConcat(first.Text(), second.Text(), flags);
  }

  lemma CharsAreRead(core: Core, base: int, oneByte: bool, chars: seq<Code>)
    requires HasChars(core, base, oneByte, chars)
    ensures core.Readable(base, Scale(oneByte, |chars|))
    ensures CharsAt(core, base, oneByte, |chars|) == Widened(oneByte, chars)
  {
    forall a | base <= a < base + Scale(oneByte, |chars|) ensures a in core.bytes {
      var i := if oneByte then a - base else (a - base) / 2;
      assert 0 <= i < |chars| && (a == base + Scale(oneByte, i) || a == base + Scale(oneByte, i) + 1);
      assert if oneByte then HasByte(core, base + i, chars[i])
             else HasByte(core, base + 2 * i, chars[i] % 256) && HasByte(core, base + 2 * i + 1, chars[i] / 256);
    }
    forall i | 0 <= i < |chars| ensures CharAt(core, base + Scale(oneByte, i), oneByte) == Widened(oneByte, chars)[i] {
    }
  }

  lemma HeaderIsRead(core: Core, addr: nat, t: Byte, len: nat)
    requires HasHeader(core, addr, t, len)
    ensures core.ReadTypeByte(addr) == Some(t) && core.ReadHeapSmi(addr, core.k.offStringLength) == Some(len)
  {
    TypeIsRead(core, addr, t);
    SmiIsRead(core, addr, core.k.offStringLength, len);
  }

  // The header that v8string_load() makes of each kind of string.
  ghost function Loaded(core: Core, s: Stored): V8String {
    match s
    case Sequential(addr, oneByte, chars) => V8String(addr, |chars|, oneByte, SeqRep)
    case External(addr, _, data, chars) => V8String(addr, |chars|, true, ExtRep(data))
    case Slice(addr, parent, from, len) =>
      V8String(addr, len, parent.Sequential? && parent.oneByte, SlicedRep(parent.addr, from))
    case Cons(addr, first, second) =>
      var oneByte := Load(core, addr).Some? && Load(core, addr).value.oneByte;
      V8String(addr, |s.Text()|, oneByte, ConsRep(first.addr, second.addr))
  }

  lemma SequentialLoads(core: Core, s: Stored, t: Byte)
    requires s.Sequential? && IsSequential(core, s, t)
    ensures Load(core, s.addr) == Some(Loaded(core, s))
  {
    HeaderIsRead(core, s.addr, t, |s.chars|);
  }

  lemma ExternalLoads(core: Core, s: Stored, t: Byte)
    requires s.External? && IsExternal(core, s, t)
    ensures Load(core, s.addr) == Some(Loaded(core, s))
  {
    HeaderIsRead(core, s.addr, t, |s.chars|);
    assert LoadRep(core, s.addr, t) == Some(ExtRep(s.data));
  }

  lemma SliceLoads(core: Core, s: Stored, t: Byte)
    requires s.Slice? && IsSlice(core, s, t)
    ensures Load(core, s.addr) == Some(Loaded(core, s))
  {
    HeaderIsRead(core, s.addr, t, s.len);
    SmiIsRead(core, s.addr, core.k.offSlicedOffset, s.from);
    assert LoadRep(core, s.addr, t) == Some(SlicedRep(s.parent.addr, s.from));
  }

  lemma ConsLoads(core: Core, s: Stored, t: Byte)
    requires s.Cons? && IsCons(core, s, t)
    ensures Load(core, s.addr) == Some(Loaded(core, s))
  {
    HeaderIsRead(core, s.addr, t, |s.Text()|);
    assert LoadRep(core, s.addr, t) == Some(ConsRep(s.first.addr, s.second.addr));
  }

  lemma StoredLoads(core: Core, s: Stored)
    requires Holds(core, s)
    ensures Load(core, s.addr) == Some(Loaded(core, s))
  {
    match s
    case Sequential(_, _, _) => var t :| IsSequential(core, s, t); SequentialLoads(core, s, t);
    case External(_, _, _, _) => var t :| IsExternal(core, s, t); ExternalLoads(core, s, t);
    case Slice(_, _, _, _) => var t :| IsSlice(core, s, t); SliceLoads(core, s, t);
    case Cons(_, _, _) => var t :| IsCons(core, s, t); ConsLoads(core, s, t);
  }

  // Strings that are not cons cells are leaves with their text.
  lemma SequentialIsText(core: Core, s: Stored)
    requires Holds(core, s) && s.Sequential?
    ensures PartOf(core, Loaded(core, s)) == Leaf(Text(ReadText(s)))
  {
    var run := SliceRun(core, Loaded(core, s), s.oneByte, 0, -1);
    CharsAreRead(core, run.base, s.oneByte, s.chars);
  }

  lemma ExternalIsText(core: Core, s: Stored)
    requires Holds(core, s) && s.External?
    ensures PartOf(core, Loaded(core, s)) == Leaf(Text(ReadText(s)))
  {
    CharsAreRead(core, s.data, true, s.chars);
    if s.chars != [] {
      assert HasByte(core, s.data + 0, s.chars[0]);
    }
  }

  lemma WidenedSlice(oneByte: bool, chars: seq<Code>, from: nat, len: nat)
    requires from + len <= |chars|
    ensures Widened(oneByte, chars)[from..from + len] == Widened(oneByte, chars[from..from + len])
  {
  }

  // The part of its parent that a slice refers to.
  lemma SliceOfText(core: Core, parent: Stored, from: nat, len: nat)
    requires Holds(core, parent) && parent.Sequential? && from + len <= |parent.chars|
    ensures var run := SliceRun(core, Loaded(core, parent), parent.oneByte, from, len);
            run.Readable(core) && run.Text(core) == Widened(parent.oneByte, parent.chars[from..from + len])
  {
    var p := Loaded(core, parent);
    CharsAreRead(core, LeafRun(core, p).value.base, parent.oneByte, parent.chars);
    SliceIsSubstring(core, p, from, len);
    WidenedSlice(parent.oneByte, parent.chars, from, len);
  }

  lemma SliceIsText(core: Core, s: Stored)
    requires Holds(core, s) && s.Slice?
    ensures PartOf(core, Loaded(core, s)) == Leaf(Text(ReadText(s)))
  {
    StoredLoads(core, s.parent);
    SliceOfText(core, s.parent, s.from, s.len);
    assert s.Text() == s.parent.chars[s.from..s.from + s.len];
    var parent := Loaded(core, s.parent);
    assert LeafRun(core, Loaded(core, s)) == Some(SliceRun(core, parent, s.parent.oneByte, s.from, s.len));
  }

  // How a stored string is seen by the writer, part by part.
  ghost predicate Reads(core: Core, parts: V8String -> Part<V8String>, s: Stored) {
    match s
    case Cons(_, first, second) =>
      && parts(Loaded(core, s)) == Cell(Loaded(core, first), Loaded(core, second))
      && Reads(core, parts, first) && Reads(core, parts, second)
    case _ => parts(Loaded(core, s)) == Leaf(Text(ReadText(s)))
  }

  lemma {:induction false} StoredReads(core: Core, s: Stored)
    requires Holds(core, s)
    ensures Reads(core, Parts(core), s)
  {
    match s
    case Sequential(_, _, _) => SequentialIsText(core, s);
    case External(_, _, _, _) => ExternalIsText(core, s);
    case Slice(_, _, _, _) => SliceIsText(core, s);
    case Cons(_, first, second) =>
      StoredLoads(core, first);
      StoredLoads(core, second);
      StoredReads(core, first);
      StoredReads(core, second);
  }

  // Unfolding a stored string yields the rope of its text.
  lemma {:induction false} StoredUnfolds(core: Core, parts: V8String -> Part<V8String>, s: Stored, n: nat)
    requires Reads(core, parts, s) && s.Height() < n
    ensures Flatten(Unfold(parts, Loaded(core, s), n)) == Some(ReadText(s))
    decreases s
  {
    match s
    case Cons(_, first, second) =>
      StoredUnfolds(core, parts, first, n - 1);
      StoredUnfolds(core, parts, second, n - 1);
    case _ =>
  }

  // The buffer after a whole text, with or without quotes.
  function Complete(b: Buf, t: seq<Code>, flags: AppendFlags, quoted: bool): Buf {
    b.(text := if quoted then b.text + "\"" + Encode(t, flags) + "\"" else b.text + Encode(t, flags))
  }

  // What the recursive writer makes of a string, in terms of the rope that it unfolds to.
  function Result(r: Rope, b: Buf, flags: AppendFlags, quoted: bool): Buf {
    if quoted then Closed(b, Printed(r, Opened(b), flags)) else Printed(r, b, flags)
  }

  lemma StoredPrints(core: Core, s: Stored, b: Buf, flags: AppendFlags, quoted: bool, n: nat)
    requires Holds(core, s) && s.Height() < n
    requires TotalCost(s.Text(), flags) + QuoteCost(quoted) <= b.Left()
    ensures Load(core, s.addr) == Some(Loaded(core, s))
    ensures var r := Unfold(Parts(core), Loaded(core, s), n);
            !Fails(r) && AllReadable(r) && Result(r, b, flags, quoted) == Complete(b, s.Text(), flags, quoted)
  {
    StoredLoads(core, s);
    StoredReads(core, s);
    StoredUnfolds(core, Parts(core), s, n);
    ReadTextPrintsTheSame(s, flags);
    RopePrintsItsFlattening(Unfold(Parts(core), Loaded(core, s), n), b, flags);
    RopePrintsText(Unfold(Parts(core), Loaded(core, s), n), b, flags, quoted);
  }

  // v8string_write() in terms of the unfolded rope alone.
  method WriteLoaded(core: Core, v: V8String, ghost r: Rope, strb: Strbuf, flags: AppendFlags, quoted: bool,
                     depth: nat, chunksz: nat)
    returns (err: int)
    requires depth <= MAX_DEPTH && r == Unfold(Parts(core), v, Budget(depth)) && AllReadable(r) && !Fails(r)
    requires strb.Valid() && chunksz >= 14 && chunksz % 2 == 0
    modifies strb, strb.buf
    ensures err == 0 && strb.Valid() && strb.Abs() == Result(r, old(strb.Abs()), flags, quoted)
  {
    ghost var b := strb.Abs();
    err := Write(core, v, strb, flags, quoted, depth, chunksz);
    if quoted {
      ghost var body :| IsPrinted(r, Opened(b), body, flags) && strb.Abs() == Closed(b, body);
      ReadableIsPrinted(r, Opened(b), body, flags);
    } else {
      ReadableIsPrinted(r, b, strb.Abs(), flags);
    }
  }

  // A string literal that a reader of JSON takes for the given text, as far as it can be shown;
  // nothing is promised of texts with quotes.
  ghost predicate IsLiteral(s: string, t: seq<Code>) {
    s != "" && s[0] == '"' && (QUOTE !in t ==> ReadLiteral(s[1..]) == Some(Literal(Shown(t), "")))
  }

  lemma PrintedLiteral(b: Buf, t: seq<Code>)
    ensures IsLiteral(Complete(b, t, Json, true).text[|b.text|..], t)
  {
    var s := Complete(b, t, Json, true).text[|b.text|..];
    assert s == "\"" + Encode(t, Json) + "\"";
    assert s[1..] == Encode(t, Json) + "\"";
    JsonReadsBackIff(t);
  }

  // The round trip: a stored string that fits is loaded, and printed as exactly the text it was
  // stored with, without error, unless its cons cells are nested too deep (256 from depth 0).  What
  // is printed in JSON mode can be read back.
  method WriteStored(core: Core, ghost s: Stored, addr: int, strb: Strbuf, flags: AppendFlags, quoted: bool,
                     depth: nat, chunksz: nat)
    returns (err: int)
    requires Holds(core, s) && addr == s.addr && depth <= MAX_DEPTH && s.Height() < Budget(depth)
    requires strb.Valid() && chunksz >= 14 && chunksz % 2 == 0
    requires TotalCost(s.Text(), flags) + QuoteCost(quoted) <= strb.Abs().Left()
    modifies strb, strb.buf
    ensures err == 0 && strb.Valid() && strb.Abs() == Complete(old(strb.Abs()), s.Text(), flags, quoted)
    ensures flags.Json? && quoted ==> IsLiteral(strb.Abs().text[|old(strb.Abs()).text|..], s.Text())
  {
    StoredPrints(core, s, strb.Abs(), flags, quoted, Budget(depth));
    PrintedLiteral(strb.Abs(), s.Text());
    var loaded := Load(core, addr).value;
    ghost var r := Unfold(Parts(core), loaded, Budget(depth));
    err := WriteLoaded(core, loaded, r, strb, flags, quoted, depth, chunksz);
  }
}
