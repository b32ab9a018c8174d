// JavaScript strings in the debugged heap: loading their headers and writing them to a
// string buffer, through ropes, slices and external data (src/mdb_v8_string.c:24-228, 279-384,
// 559-697).

module JSString {
  import opened Helpers
  import opened Wrappers
  import opened StringBuffer
  import opened CoreFile
  import opened Truncation
  import opened SequentialString
  import opened Ropes

  const MAX_DEPTH := 512          // JSSTR_MAXDEPTH
  const EXTSTR_DATA := PS         // NODE_OFF_EXTSTR_DATA

  const BAD_CONS := "<string (failed to read cons ptrs)>"
  const NO_PARENT := "<sliced string (failed to load parent)>"
  const PARENT_NOT_SEQ := "<sliced string (parent is not a sequential string)>"
  const EXTERNAL_TWO_BYTE := "<external two-byte string>"

  datatype Rep =
    | SeqRep
    | ConsRep(first: int, second: int)
    | SlicedRep(parent: int, offset: nat)
    | ExtRep(nodedata: int)

  datatype V8String = V8String(addr: int, len: nat, oneByte: bool, rep: Rep)

  // v8string_load()
  function Load(core: Core, addr: int): Option<V8String>
  {
    match core.ReadTypeByte(addr)
    case None => None
    case Some(t) =>
      if t !in core.k.stringTypes then None
      else match core.ReadHeapSmi(addr, core.k.offStringLength)
           case None => None
           case Some(len) =>
             match LoadRep(core, addr, t)
             case None => None
             case Some(rep) => Some(V8String(addr, len, t in core.k.oneByteTypes, rep))
  }

  function LoadRep(core: Core, addr: int, t: Byte): Option<Rep>
  {
    if t in core.k.seqTypes then Some(SeqRep)
    else if t in core.k.consTypes then
      match (core.ReadHeapPtr(addr, core.k.offConsFirst), core.ReadHeapPtr(addr, core.k.offConsSecond))
      case (Some(p1), Some(p2)) => Some(ConsRep(p1, p2))
      case _ => None
    else if t in core.k.slicedTypes then
      match (core.ReadHeapPtr(addr, core.k.offSlicedParent), core.ReadHeapSmi(addr, core.k.offSlicedOffset))
      case (Some(parent), Some(offset)) => Some(SlicedRep(parent, offset))
      case _ => None
    else if t in core.k.extTypes then
      match core.ReadHeapPtr(addr, core.k.offExtResource)
      case None => None
      case Some(resource) =>
        match core.ReadHeapPtr(resource, EXTSTR_DATA)
        case None => None
        case Some(data) => Some(ExtRep(data))
    else None
  }

  // A run of stored characters.
  datatype Run = Run(base: int, oneByte: bool, n: nat) {
    function Text(core: Core): seq<Code> {
      CharsAt(core, base, oneByte, n)
    }

    predicate Readable(core: Core) {
      core.Readable(base, Scale(oneByte, n))
    }

    // How many of its characters come before the first that cannot be read.
    function ReadableLength(core: Core): nat {
      ReadableChars(core, base, oneByte, n)
    }
  }

  // The requested slice, clipped to a string of n characters.  A length of -1 asks for
  // everything from the offset on; other negative lengths are huge as a size_t.
  function SliceOffset(n: nat, uoffset: nat): nat {
    if uoffset > n then n else uoffset
  }

  function SliceLength(n: nat, uoffset: nat, ulength: int): (len: nat)
    ensures SliceOffset(n, uoffset) + len <= n
  {
    var rest := n - SliceOffset(n, uoffset);
    if ulength < 0 || ulength > rest then rest else ulength
  }

  function CharsStart(core: Core, s: V8String, oneByte: bool): int {
    s.addr + if oneByte then core.k.offSeqAsciiChars else core.k.offSeqTwoByteChars
  }

  function SliceRun(core: Core, s: V8String, oneByte: bool, uoffset: nat, ulength: int): Run {
    Run(CharsStart(core, s, oneByte) + Scale(oneByte, SliceOffset(s.len, uoffset)), oneByte,
        SliceLength(s.len, uoffset, ulength))
  }

  // Where the characters of a string that is not a cons are stored.
  function LeafRun(core: Core, s: V8String): Option<Run>
  {
    match s.rep
    case SeqRep => Some(SliceRun(core, s, s.oneByte, 0, -1))
    case SlicedRep(parent, offset) =>
      (match Load(core, parent)
       case Some(p) => if p.rep.SeqRep? then Some(SliceRun(core, p, s.oneByte, offset, s.len)) else None
       case None => None)
    case ExtRep(data) => if s.oneByte then Some(Run(data, true, s.len)) else None
    case ConsRep(_, _) => None
  }

  predicate LooksInvalid(core: Core, s: V8String) {
    s.rep.ExtRep? && s.oneByte && s.len > 0 && FirstByteInvalid(core, s.rep.nodedata)
  }

  // Nothing but a string is loaded, and what is loaded is what memory holds.
  lemma LoadedIsThere(core: Core, addr: int)
    requires Load(core, addr).Some?
    ensures var s := Load(core, addr).value;
            && s.addr == addr
            && core.ReadHeapSmi(addr, core.k.offStringLength) == Some(s.len)
            && exists t: Byte :: HasType(core, addr, t) && t in core.k.stringTypes
                              && (s.oneByte <==> t in core.k.oneByteTypes) && IsRep(core, addr, t, s.rep)
  {
    var s, t := Load(core, addr).value, core.ReadTypeByte(addr).value;
    TypeIsRead(core, addr, t);
    if s.rep.ExtRep? {
      assert HasData(core, addr, core.words[addr + core.k.offExtResource], s.rep.nodedata);
    }
    assert IsRep(core, addr, t, s.rep);
  }

  // The representation is that of the type, with the words that belong to it.
  ghost predicate IsRep(core: Core, addr: int, t: Byte, rep: Rep) {
    match rep
    case SeqRep => t in core.k.seqTypes
    case ConsRep(first, second) =>
      && t in core.k.consTypes && first >= 0 && second >= 0
      && HasWord(core, addr + core.k.offConsFirst, first) && HasWord(core, addr + core.k.offConsSecond, second)
    case SlicedRep(parent, offset) =>
      && t in core.k.slicedTypes && parent >= 0 && HasWord(core, addr + core.k.offSlicedParent, parent)
      && core.ReadHeapSmi(addr, core.k.offSlicedOffset) == Some(offset)
    case ExtRep(data) =>
      t in core.k.extTypes && data >= 0 && exists resource: nat :: HasData(core, addr, resource, data)
  }

  // The data of an external string, behind the vtable pointer of its resource.
  ghost predicate HasData(core: Core, addr: int, resource: nat, data: nat) {
    HasWord(core, addr + core.k.offExtResource, resource) && HasWord(core, resource + 8, data)
  }

  // The two halves of a cons cell, if both can be loaded.
  function Halves(core: Core, s: V8String): Option<(V8String, V8String)>
    requires s.rep.ConsRep?
  {
    var l1, l2 := Load(core, s.rep.first), Load(core, s.rep.second);
    if l1.None? || l2.None? then None else Some((l1.value, l2.value))
  }

  function LeafRope(core: Core, s: V8String): Rope
    requires !s.rep.ConsRep?
  {
    match LeafRun(core, s)
    case Some(run) =>
      var whole := if LooksInvalid(core, s) then Note(LOOKS_INVALID) else Text(run.Text(core));
      if run.Readable(core) then whole else Unreadable(run.Text(core), run.ReadableLength(core), whole)
    case None =>
      if s.rep.ExtRep? then Note(EXTERNAL_TWO_BYTE)
      else Note(if Load(core, s.rep.parent).None? then NO_PARENT else PARENT_NOT_SEQ)
  }

  function PartOf(core: Core, s: V8String): Part<V8String>
  {
    if !s.rep.ConsRep? then Leaf(LeafRope(core, s))
    else match Halves(core, s)
         case None => Leaf(Note(BAD_CONS))
         case Some((s1, s2)) => Cell(s1, s2)
  }

  // A slice is read with its own width, from the place that its parent's characters would have with
  // that width.
  lemma SliceHasItsOwnWidth(core: Core, s: V8String, p: V8String)
    requires s.rep.SlicedRep? && Load(core, s.rep.parent) == Some(p) && p.rep.SeqRep?
    ensures var from := Min(s.rep.offset, p.len);
            LeafRun(core, s) ==
              Some(Run(if s.oneByte then p.addr + core.k.offSeqAsciiChars + from
                       else p.addr + core.k.offSeqTwoByteChars + 2 * from, s.oneByte, Min(s.len, p.len - from)))
  {
  }

  // What is printed for strings that cannot be taken apart.
  lemma DamageIsReported(core: Core, s: V8String)
    ensures s.rep.ConsRep? && (Load(core, s.rep.first).None? || Load(core, s.rep.second).None?) ==>
              PartOf(core, s) == Leaf(Note("<string (failed to read cons ptrs)>"))
    ensures s.rep.SlicedRep? && Load(core, s.rep.parent).None? ==>
              PartOf(core, s) == Leaf(Note("<sliced string (failed to load parent)>"))
    ensures s.rep.SlicedRep? && Load(core, s.rep.parent).Some? && !Load(core, s.rep.parent).value.rep.SeqRep? ==>
              PartOf(core, s) == Leaf(Note("<sliced string (parent is not a sequential string)>"))
    ensures s.rep.ExtRep? && !s.oneByte ==> PartOf(core, s) == Leaf(Note("<external two-byte string>"))
    ensures s.rep.ExtRep? && s.oneByte && s.len > 0 && core.Readable(s.rep.nodedata, s.len)
            && core.ByteAt(s.rep.nodedata) >= 128 ==>
              PartOf(core, s) == Leaf(Note("<string (contents looks invalid)>"))
  {
  }

  // How the strings of a heap are made of other strings.
  function Parts(core: Core): V8String -> Part<V8String>
  {
    s => PartOf(core, s)
  }

  // Cons levels that may still be entered at a given JSSTR_DEPTH; each level adds 2 to it.
  function Budget(depth: nat): nat {
    if depth > MAX_DEPTH then 0 else (MAX_DEPTH - depth) / 2 + 1
  }

  lemma BudgetStep(depth: nat)
    requires 1 <= depth <= MAX_DEPTH + 1
    ensures Budget(depth + 1) == Budget(depth - 1) - 1
  {
  }

  // What writing a run comes to.
  ghost predicate RunIsWritten(core: Core, run: Run, b: Buf, b': Buf, flags: AppendFlags) {
    DataIsWritten(core, run.base, run.oneByte, run.Text(core), WriteChars(b, run.Text(core), flags), b, b', flags)
  }

  // v8string_write_seq()
  method WriteSeq(core: Core, s: V8String, strb: Strbuf, flags: AppendFlags, oneByte: bool,
                  usliceoffset: nat, uslicelen: int, chunksz: nat)
    requires strb.Valid()
    requires chunksz >= 14 && chunksz % 2 == 0
    modifies strb, strb.buf
    ensures strb.Valid() && Grown(old(strb.Abs()), strb.Abs())
    ensures RunIsWritten(core, SliceRun(core, s, oneByte, usliceoffset, uslicelen), old(strb.Abs()), strb.Abs(), flags)
  {
    var sliceoffset, slicelen := ClipSlice(s.len, usliceoffset, uslicelen);
    var charsp := CharsStart(core, s, oneByte);
    assert SliceRun(core, s, oneByte, usliceoffset, uslicelen)
        == Run(charsp + Scale(oneByte, sliceoffset), oneByte, slicelen);
    WriteData(core, strb, flags, oneByte, charsp, sliceoffset, slicelen, chunksz);
  }

  method WriteData(core: Core, strb: Strbuf, flags: AppendFlags, oneByte: bool, charsp: int,
                   sliceoffset: nat, slicelen: nat, chunksz: nat)
    requires strb.Valid()
    requires chunksz >= 14 && chunksz % 2 == 0
    modifies strb, strb.buf
    ensures strb.Valid() && Grown(old(strb.Abs()), strb.Abs())
    ensures var run := Run(charsp + Scale(oneByte, sliceoffset), oneByte, slicelen);
            RunIsWritten(core, run, old(strb.Abs()), strb.Abs(), flags)
  {
    WriteRun(core, strb, flags, oneByte, charsp, sliceoffset, slicelen, chunksz, false);
  }

  // The part of the string that v8string_write_seq() is to write.
  method ClipSlice(nstrchrs: nat, usliceoffset: nat, uslicelen: int) returns (sliceoffset: nat, slicelen: nat)
    ensures sliceoffset == SliceOffset(nstrchrs, usliceoffset)
    ensures slicelen == SliceLength(nstrchrs, usliceoffset, uslicelen)
  {
    sliceoffset := if usliceoffset > nstrchrs then nstrchrs else usliceoffset;
    if uslicelen == -1 {
      slicelen := nstrchrs - sliceoffset;
    } else if uslicelen < 0 || uslicelen > nstrchrs - sliceoffset {
      slicelen := nstrchrs - sliceoffset;
    } else {
      slicelen := uslicelen;
    }
  }

  // v8string_write_sliced()
  method WriteSliced(core: Core, s: V8String, strb: Strbuf, flags: AppendFlags, chunksz: nat)
    requires strb.Valid() && s.rep.SlicedRep?
    requires chunksz >= 14 && chunksz % 2 == 0
    modifies strb, strb.buf
    ensures strb.Valid() && Grown(old(strb.Abs()), strb.Abs())
    ensures IsPrinted(LeafRope(core, s), old(strb.Abs()), strb.Abs(), flags)
  {
    var parent := Load(core, s.rep.parent);
    if parent.None? {
      strb.Sprintf(NO_PARENT);
    } else if !parent.value.rep.SeqRep? {
      strb.Sprintf(PARENT_NOT_SEQ);
    } else {
      ghost var b := strb.Abs();
      WriteSeq(core, parent.value, strb, flags, s.oneByte, s.rep.offset, s.len, chunksz);
      SliceIsPrinted(core, s, b, strb.Abs(), flags);
    }
  }

  lemma SliceIsPrinted(core: Core, s: V8String, b: Buf, b': Buf, flags: AppendFlags)
    requires s.rep.SlicedRep? && LeafRun(core, s).Some? && RunIsWritten(core, LeafRun(core, s).value, b, b', flags)
    ensures IsPrinted(LeafRope(core, s), b, b', flags)
  {
    RunIsPrinted(core, LeafRun(core, s).value, b, b', flags);
    assert LeafRope(core, s) == RunRope(core, LeafRun(core, s).value);
  }

  // v8string_write_ext()
  method WriteExt(core: Core, s: V8String, strb: Strbuf, flags: AppendFlags, chunksz: nat)
    requires strb.Valid() && s.rep.ExtRep?
    requires chunksz >= 14 && chunksz % 2 == 0
    modifies strb, strb.buf
    ensures strb.Valid() && Grown(old(strb.Abs()), strb.Abs())
    ensures IsPrinted(LeafRope(core, s), old(strb.Abs()), strb.Abs(), flags)
  {
    if !s.oneByte {
      strb.Sprintf(EXTERNAL_TWO_BYTE);
      return;
    }
    ghost var b := strb.Abs();
    WriteRun(core, strb, flags, true, s.rep.nodedata, 0, s.len, chunksz, true);
    ExtIsPrinted(core, s, b, strb.Abs(), flags);
  }

  lemma ExtIsPrinted(core: Core, s: V8String, b: Buf, b': Buf, flags: AppendFlags)
    requires s.rep.ExtRep? && s.oneByte
    requires DataIsWritten(core, s.rep.nodedata, true, CharsAt(core, s.rep.nodedata, true, s.len),
                           Expected(core, s.rep.nodedata, true, s.len, true, b, flags), b, b', flags)
    ensures IsPrinted(LeafRope(core, s), b, b', flags)
  {
  }

  // The ropes of all strings, as far as they are unfolded n deep.
  ghost predicate AreRopes(core: Core, n: nat, ropes: V8String -> Rope) {
    forall s {:trigger Unfold(Parts(core), s, n)} :: Unfold(Parts(core), s, n) == ropes(s)
  }

  function RopesOf(core: Core, n: nat): (ropes: V8String -> Rope)
    ensures AreRopes(core, n, ropes)
  {
    s => Unfold(Parts(core), s, n)
  }

  // The rope of a cons cell, given what loading its halves comes to and the ropes of strings.
  function CellRope(l1: Option<V8String>, l2: Option<V8String>, ropes: V8String -> Rope): Rope {
    if l1.None? || l2.None? then Note(BAD_CONS) else Pair(ropes(l1.value), ropes(l2.value))
  }

  // A cons cell unfolds into its halves.
  lemma ConsUnfolds(core: Core, s: V8String, n: nat)
    requires s.rep.ConsRep? && n > 0
    ensures Unfold(Parts(core), s, n)
         == CellRope(Load(core, s.rep.first), Load(core, s.rep.second), RopesOf(core, n - 1))
  {
  }

  // v8string_write_cons()
  method WriteCons(core: Core, s: V8String, strb: Strbuf, flags: AppendFlags, depth: nat, chunksz: nat)
    returns (err: int)
    requires strb.Valid() && s.rep.ConsRep? && 1 <= depth <= MAX_DEPTH + 1
    requires chunksz >= 14 && chunksz % 2 == 0
    modifies strb, strb.buf
    ensures strb.Valid() && Grown(old(strb.Abs()), strb.Abs())
    ensures var r := Unfold(Parts(core), s, Budget(depth - 1));
            && err == (if Fails(r) then -1 else 0)
            && IsPrinted(r, old(strb.Abs()), strb.Abs(), flags)
    decreases Budget(depth - 1), 0, 2
  {
    BudgetStep(depth);
    ConsUnfolds(core, s, Budget(depth - 1));
    err := WriteCell(core, s, RopesOf(core, Budget(depth + 1)), strb, flags, depth, chunksz);
  }

  method WriteCell(core: Core, s: V8String, ghost ropes: V8String -> Rope, strb: Strbuf, flags: AppendFlags,
                   depth: nat, chunksz: nat)
    returns (err: int)
    requires strb.Valid() && s.rep.ConsRep? && 1 <= depth <= MAX_DEPTH + 1
    requires AreRopes(core, Budget(depth + 1), ropes)
    requires chunksz >= 14 && chunksz % 2 == 0
    modifies strb, strb.buf
    ensures strb.Valid() && Grown(old(strb.Abs()), strb.Abs())
    ensures var r := CellRope(Load(core, s.rep.first), Load(core, s.rep.second), ropes);
            && err == (if Fails(r) then -1 else 0)
            && IsPrinted(r, old(strb.Abs()), strb.Abs(), flags)
    decreases Budget(depth - 1), 0, 1
  {
    err := 0;
    var str1 := Load(core, s.rep.first);
    var str2 := Load(core, s.rep.second);
    if str1.None? || str2.None? {
      strb.Sprintf(BAD_CONS);
    } else {
      err := WriteHalves(core, str1.value, str2.value, ropes, strb, flags, depth, chunksz);
    }
  }

  // One half after the other, unless the first one fails.
  method WriteHalves(core: Core, s1: V8String, s2: V8String, ghost ropes: V8String -> Rope, strb: Strbuf,
                     flags: AppendFlags, depth: nat, chunksz: nat)
    returns (err: int)
    requires strb.Valid() && 1 <= depth <= MAX_DEPTH + 1
    requires AreRopes(core, Budget(depth + 1), ropes)
    requires chunksz >= 14 && chunksz % 2 == 0
    modifies strb, strb.buf
    ensures strb.Valid() && Grown(old(strb.Abs()), strb.Abs())
    ensures var r := Pair(ropes(s1), ropes(s2));
            && err == (if Fails(r) then -1 else 0)
            && IsPrinted(r, old(strb.Abs()), strb.Abs(), flags)
    decreases Budget(depth - 1), 0, 0
  {
    BudgetStep(depth);
    ghost var b := strb.Abs();
    err := WriteBare(core, s1, ropes, strb, flags, depth + 1, chunksz);
    ghost var mid := strb.Abs();
    if err == 0 {
      err := WriteBare(core, s2, ropes, strb, flags, depth + 1, chunksz);
    }
    HalvesArePrinted(ropes(s1), ropes(s2), b, mid, strb.Abs(), flags);
  }

  method WriteBare(core: Core, s: V8String, ghost ropes: V8String -> Rope, strb: Strbuf, flags: AppendFlags,
                   depth: nat, chunksz: nat)
    returns (err: int)
    requires strb.Valid() && AreRopes(core, Budget(depth), ropes)
    requires chunksz >= 14 && chunksz % 2 == 0
    modifies strb, strb.buf
    ensures strb.Valid() && Grown(old(strb.Abs()), strb.Abs())
    ensures err == (if Fails(ropes(s)) then -1 else 0) && IsPrinted(ropes(s), old(strb.Abs()), strb.Abs(), flags)
    decreases Budget(depth), 4
  {
    err := Write(core, s, strb, flags, false, depth, chunksz);
  }

  // A string that is not a cons.
  method WriteLeaf(core: Core, s: V8String, strb: Strbuf, flags: AppendFlags, chunksz: nat)
    requires strb.Valid() && !s.rep.ConsRep?
    requires chunksz >= 14 && chunksz % 2 == 0
    modifies strb, strb.buf
    ensures strb.Valid() && Grown(old(strb.Abs()), strb.Abs())
    ensures IsPrinted(LeafRope(core, s), old(strb.Abs()), strb.Abs(), flags)
  {
    match s.rep
    case SeqRep =>
      ghost var b := strb.Abs();
      WriteSeq(core, s, strb, flags, s.oneByte, 0, -1, chunksz);
      SeqIsPrinted(core, s, b, strb.Abs(), flags);
    case ExtRep(_) => WriteExt(core, s, strb, flags, chunksz);
    case SlicedRep(_, _) => WriteSliced(core, s, strb, flags, chunksz);
  }

  lemma SeqIsPrinted(core: Core, s: V8String, b: Buf, b': Buf, flags: AppendFlags)
    requires s.rep.SeqRep? && RunIsWritten(core, SliceRun(core, s, s.oneByte, 0, -1), b, b', flags)
    ensures IsPrinted(LeafRope(core, s), b, b', flags)
  {
    var run := SliceRun(core, s, s.oneByte, 0, -1);
    RunIsPrinted(core, run, b, b', flags);
    assert LeafRope(core, s) == RunRope(core, run);
  }

  // The rope of a run of characters that is text as far as it can be read.
  function RunRope(core: Core, run: Run): Rope {
    if run.Readable(core) then Text(run.Text(core))
    else Unreadable(run.Text(core), run.ReadableLength(core), Text(run.Text(core)))
  }

  lemma RunIsPrinted(core: Core, run: Run, b: Buf, b': Buf, flags: AppendFlags)
    requires RunIsWritten(core, run, b, b', flags)
    ensures IsPrinted(RunRope(core, run), b, b', flags)
  {
  }

  lemma LeafUnfolds(core: Core, s: V8String, n: nat, ropes: V8String -> Rope)
    requires !s.rep.ConsRep? && n > 0 && AreRopes(core, n, ropes)
    ensures ropes(s) == LeafRope(core, s) && !Fails(ropes(s))
  {
    LeafIsSound(core, s);
    UnfoldLeaf(Parts(core), s, n);
    assert Unfold(Parts(core), s, n) == ropes(s);
  }

  lemma LeafIsSound(core: Core, s: V8String)
    requires !s.rep.ConsRep?
    ensures Parts(core)(s) == Leaf(LeafRope(core, s)) && !Fails(LeafRope(core, s))
  {
  }

  // The dispatch on the representation in v8string_write().
  method WriteRep(core: Core, s: V8String, ghost ropes: V8String -> Rope, strb: Strbuf, flags: AppendFlags,
                  depth: nat, chunksz: nat)
    returns (err: int)
    requires strb.Valid() && depth <= MAX_DEPTH && AreRopes(core, Budget(depth), ropes)
    requires chunksz >= 14 && chunksz % 2 == 0
    modifies strb, strb.buf
    ensures strb.Valid() && Grown(old(strb.Abs()), strb.Abs())
    ensures err == (if Fails(ropes(s)) then -1 else 0) && IsPrinted(ropes(s), old(strb.Abs()), strb.Abs(), flags)
    decreases Budget(depth), 1
  {
    if s.rep.ConsRep? {
      err := WriteCons(core, s, strb, flags, depth + 1, chunksz);
    } else {
      err := 0;
      LeafUnfolds(core, s, Budget(depth), ropes);
      WriteLeaf(core, s, strb, flags, chunksz);
    }
  }

  // v8string_write(), with the JSSTR_DEPTH part of its flags as `depth`.
  method Write(core: Core, s: V8String, strb: Strbuf, flags: AppendFlags, quoted: bool, depth: nat, chunksz: nat)
    returns (err: int)
    requires strb.Valid()
    requires chunksz >= 14 && chunksz % 2 == 0
    modifies strb, strb.buf
    ensures strb.Valid() && Grown(old(strb.Abs()), strb.Abs())
    ensures var r := Unfold(Parts(core), s, Budget(depth));
            && err == (if Fails(r) then -1 else 0)
            && IsWritten(r, old(strb.Abs()), strb.Abs(), flags, quoted && depth <= MAX_DEPTH)
    ensures quoted && depth <= MAX_DEPTH && old(strb.Abs()).Left() >= 2 ==>
              InQuotes(old(strb.Abs()), strb.Abs())
    decreases Budget(depth), 3
  {
    if depth > MAX_DEPTH {
      strb.Sprintf(TOO_DEEP);
      return -1;
    }
    ghost var ropes := RopesOf(core, Budget(depth));
    if quoted {
      err := WriteQuoted(core, s, ropes, strb, flags, depth, chunksz);
    } else {
      err := WriteRep(core, s, ropes, strb, flags, depth, chunksz);
    }
  }

  // v8string_write() with JSSTR_QUOTED: one byte is reserved for the closing quote.
  method WriteQuoted(core: Core, s: V8String, ghost ropes: V8String -> Rope, strb: Strbuf, flags: AppendFlags,
                     depth: nat, chunksz: nat)
    returns (err: int)
    requires strb.Valid() && depth <= MAX_DEPTH && AreRopes(core, Budget(depth), ropes)
    requires chunksz >= 14 && chunksz % 2 == 0
    modifies strb, strb.buf
    ensures strb.Valid() && Grown(old(strb.Abs()), strb.Abs())
    ensures err == (if Fails(ropes(s)) then -1 else 0) && IsWritten(ropes(s), old(strb.Abs()), strb.Abs(), flags, true)
    ensures old(strb.Abs()).Left() >= 2 ==> InQuotes(old(strb.Abs()), strb.Abs())
    decreases Budget(depth), 2
  {
    ghost var b := strb.Abs();
    strb.AppendC(QUOTE, flags);
    strb.Reserve(1);
    assert strb.Abs() == Opened(b);
    err := WriteRep(core, s, ropes, strb, flags, depth, chunksz);
    ghost var body := strb.Abs();
    CloseQuote(b, body);
    strb.Reserve(-1);
    strb.AppendC(QUOTE, flags);
    assert strb.Abs() == Closed(b, body);
    QuotedIsWritten(ropes(s), b, body, flags);
  }

  // b' is b followed by a quoted text.
  ghost predicate InQuotes(b: Buf, b': Buf) {
    |b'.text| >= |b.text| + 2 && b.text + "\"" <= b'.text && b'.text[|b'.text| - 1] == '"'
  }

  // Whatever a body did between the quotes, the reserved byte is still there for the second one.
  lemma CloseQuote(b: Buf, body: Buf)
    requires Grown(Opened(b), body)
    ensures Grown(b, Closed(b, body))
    ensures b.Left() >= 2 ==> InQuotes(b, Closed(b, body))
  {
    PutGrows(b, "\"");
    PutGrows(body.(reserved := b.reserved), "\"");
  }

  lemma PartsAreSound(core: Core)
    ensures SoundParts(Parts(core))
  {
  }

  // The depth limit allows 256 nested cons cells: from the top (depth 0), a string whose text
  // fits is printed as that text, with or without quotes, exactly when no chain of 257 cons
  // cells starts at it.
  lemma HeapStringPrintsItsText(core: Core, s: V8String, b: Buf, flags: AppendFlags, quoted: bool,
                                tall: nat, n: nat)
    requires n == Budget(0)
    requires Flatten(Unfold(Parts(core), s, tall)).Some?
    requires TotalCost(Flatten(Unfold(Parts(core), s, tall)).value, flags) + QuoteCost(quoted) <= b.Left()
    ensures n == 257
    ensures Fails(Unfold(Parts(core), s, n)) <==> HasChain(Parts(core), s, n)
    ensures !Fails(Unfold(Parts(core), s, n)) ==>
              PrintsText(Unfold(Parts(core), s, n), b, flags, quoted, Flatten(Unfold(Parts(core), s, tall)).value)
  {
    PartsAreSound(core);
    StringPrintsItsText(Parts(core), s, b, flags, quoted, tall, n);
  }

  // A slice of a sequential string reads as that part of the parent's text, as far as there is one;
  // a negative length is no limit.
  lemma SliceIsSubstring(core: Core, parent: V8String, uoffset: nat, ulength: int)
    requires parent.rep.SeqRep?
    ensures var whole := LeafRun(core, parent).value;
            var from := Min(uoffset, parent.len);
            var to := if ulength < 0 then parent.len else Min(uoffset + ulength, parent.len);
            && |whole.Text(core)| == parent.len
            && SliceRun(core, parent, parent.oneByte, uoffset, ulength).Text(core) == whole.Text(core)[from..to]
            && (whole.Readable(core) ==> SliceRun(core, parent, parent.oneByte, uoffset, ulength).Readable(core))
  {
  }
}
