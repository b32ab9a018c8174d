// v8whatis(): find the heap object that contains an address by walking backwards to the nearest
// header (src/mdb_v8_whatis.c:32-130), and v8contains() (src/mdb_v8_subr.c:169-253).

module WhatIs {
  import opened Wrappers
  import opened StringBuffer
  import opened CoreFile
  import opened JSString

  datatype Error = Ok | NotFound | DoesntContain

  // v8whatis_t.  The code stores the caller's address in v8w_origaddr and the adjusted one in
  // v8w_addr.
  datatype Answer = Answer(addr: int, origaddr: int, baseaddr: int, basetype: Byte)

  // The word that contains an address, as a tagged pointer.
  function TaggedWord(addr: int): int {
    addr - addr % PS + 1
  }

  // The word at `a` refers to a Map, and the type of the object that this makes can be read.
  predicate LooksLikeObject(core: Core, a: int) {
    && core.ReadHeapPtr(a, core.k.offMap).Some?
    && core.ReadTypeByte(core.ReadHeapPtr(a, core.k.offMap).value) == Some(core.k.typeMap)
    && core.ReadTypeByte(a).Some?
  }

  // How far behind its tagged address v8contains() takes an object to reach.
  function Extent(core: Core, a: int, t: Byte): Option<int>
  {
    if t in core.k.stringTypes && t in core.k.seqTypes then
      match Load(core, a)
      case None => None
      case Some(s) =>
        Some(if t in core.k.oneByteTypes then core.k.offSeqAsciiChars + s.len
             else core.k.offSeqTwoByteChars + 2 * s.len)
    else if t == core.k.typeFixedArray then
      match FixedArrayLength(core, a)
      case None => None
      case Some(n) => Some(core.k.offFixedArrayData + n * PS)
    else match core.ReadSize(a)
         case None => None
         case Some(size) =>
           if t != core.k.typeJSObject then Some(size)
           else match InobjectProperties(core, a)
                case None => None
                case Some(n) => Some(size + n * PS)
  }

  // v8fixedarray_load(), followed by v8fixedarray_length().
  function FixedArrayLength(core: Core, a: int): Option<nat>
  {
    if !IsHeapObject(a) || core.ReadTypeByte(a) != Some(core.k.typeFixedArray) then None
    else core.ReadHeapSmi(a, core.k.offFixedArrayLength)
  }

  function InobjectProperties(core: Core, a: int): Option<nat> {
    match core.ReadHeapPtr(a, core.k.offMap)
    case None => None
    case Some(map_) => core.ReadHeapByte(map_, core.k.offInobjectProperties)
  }

  // v8contains(): None if it cannot tell.
  function Contains(core: Core, a: int, t: Byte, target: int): Option<bool>
  {
    match Extent(core, a, t)
    case None => None
    case Some(size) => Some(target < a + size)
  }

  // The distance to the nearest header at or before `addr`, from `off` on.
  function NearestHeader(core: Core, addr: int, off: nat, maxoffset: nat): Option<nat>
    decreases maxoffset - off
  {
    if off >= maxoffset then None
    else if LooksLikeObject(core, addr - off) then Some(off)
    else NearestHeader(core, addr, off + PS, maxoffset)
  }

  // What v8whatis() answers: the object found, if it is taken to contain the address.
  function Lookup(core: Core, addr: int, maxoffset: nat): (Error, Option<(int, Byte)>)
  {
    var word := TaggedWord(addr);
    match NearestHeader(core, word, 0, maxoffset)
    case None => (NotFound, None)
    case Some(off) =>
      var base := word - off;
      NearestIsHeader(core, word, 0, maxoffset);
      var t := core.ReadTypeByte(base).value;
      (if Contains(core, base, t, word) == Some(false) then DoesntContain else Ok, Some((base, t)))
  }

  lemma {:induction false} NearestIsHeader(core: Core, addr: int, off: nat, maxoffset: nat)
    ensures match NearestHeader(core, addr, off, maxoffset)
            case None => true
            case Some(d) => off <= d < maxoffset && LooksLikeObject(core, addr - d)
    decreases maxoffset - off
  {
    if off < maxoffset && !LooksLikeObject(core, addr - off) {
      NearestIsHeader(core, addr, off + PS, maxoffset);
    }
  }

  // None of the first n words stepped over from distance `off` on is a header.
  ghost predicate NoHeader(core: Core, addr: int, off: nat, n: nat) {
    forall j: nat | j < n :: !LooksLikeObject(core, addr - (off + PS * j))
  }

  lemma NoHeaderStep(core: Core, addr: int, off: nat, n: nat)
    requires n > 0
    ensures NoHeader(core, addr, off, n) <==>
              !LooksLikeObject(core, addr - off) && NoHeader(core, addr, off + PS, n - 1)
  {
    if NoHeader(core, addr, off, n) {
      assert !LooksLikeObject(core, addr - (off + PS * 0));
      forall j: nat | j < n - 1 ensures !LooksLikeObject(core, addr - (off + PS + PS * j)) {
        assert !LooksLikeObject(core, addr - (off + PS * (j + 1)));
      }
    }
    if !LooksLikeObject(core, addr - off) && NoHeader(core, addr, off + PS, n - 1) {
      forall j: nat | j < n ensures !LooksLikeObject(core, addr - (off + PS * j)) {
        if j > 0 {
          assert !LooksLikeObject(core, addr - (off + PS + PS * (j - 1)));
        }
      }
    }
  }

  // The header found is the first one met, stepping back a word at a time within range.
  lemma {:induction false} NearestIsNearest(core: Core, addr: int, off: nat, maxoffset: nat, n: nat)
    ensures NearestHeader(core, addr, off, maxoffset) == Some(off + PS * n) <==>
              && off + PS * n < maxoffset
              && LooksLikeObject(core, addr - (off + PS * n))
              && NoHeader(core, addr, off, n)
    decreases n
  {
    if n > 0 {
      NoHeaderStep(core, addr, off, n);
      NearestIsNearest(core, addr, off + PS, maxoffset, n - 1);
    } else {
      NearestIsHeader(core, addr, off + PS, maxoffset);
    }
  }

  // No object is found exactly if none of the n words within the limit looks like a header.
  lemma {:induction false} NotFoundIff(core: Core, addr: int, off: nat, maxoffset: nat, n: nat)
    requires if n == 0 then maxoffset <= off else off + PS * (n - 1) < maxoffset <= off + PS * n
    ensures NearestHeader(core, addr, off, maxoffset).None? <==> NoHeader(core, addr, off, n)
    decreases n
  {
    if n > 0 {
      NoHeaderStep(core, addr, off, n);
      NotFoundIff(core, addr, off + PS, maxoffset, n - 1);
    }
  }

  // An object whose size cannot be read is taken to contain the address.
  lemma UnknownSizeIsOk(core: Core, addr: int, maxoffset: nat, off: nat, t: Byte)
    requires NearestHeader(core, TaggedWord(addr), 0, maxoffset) == Some(off)
    requires core.ReadTypeByte(TaggedWord(addr) - off) == Some(t) && Extent(core, TaggedWord(addr) - off, t).None?
    ensures Lookup(core, addr, maxoffset).0 == Ok
  {
  }

  // v8whatis(), filling in as much of *whatisp as it can.
  method V8WhatIs(core: Core, addr: int, maxoffset: nat, before: Answer) returns (err: Error, whatis: Answer)
    ensures err == Lookup(core, addr, maxoffset).0
    ensures whatis.origaddr == addr && whatis.addr == TaggedWord(addr)
    ensures match Lookup(core, addr, maxoffset).1
            case None => whatis.baseaddr == before.baseaddr && whatis.basetype == before.basetype
            case Some((base, t)) => whatis.baseaddr == base && whatis.basetype == t
  {
    var origaddr := addr;
    whatis := before.(origaddr := origaddr);
    var word := addr - addr % PS;
    assert word <= origaddr && origaddr - word < PS;
    word := word + 1;
    whatis := whatis.(addr := word);

    var curoffset, typebyte := FindHeader(core, word, maxoffset);
    if curoffset >= maxoffset {
      return NotFound, whatis;
    }
    var curaddr := word - curoffset;
    whatis := whatis.(baseaddr := curaddr, basetype := typebyte);
    if Contains(core, curaddr, typebyte, word) == Some(false) {
      return DoesntContain, whatis;
    }
    return Ok, whatis;
  }

  // The loop of v8whatis(), from a tagged word backwards.
  method FindHeader(core: Core, word: int, maxoffset: nat) returns (curoffset: nat, typebyte: Byte)
    requires IsHeapObject(word)
    ensures match NearestHeader(core, word, 0, maxoffset)
            case None => curoffset >= maxoffset
            case Some(d) => curoffset == d < maxoffset && core.ReadTypeByte(word - d) == Some(typebyte)
  {
    curoffset, typebyte := 0, 0;
    while curoffset < maxoffset
      invariant NearestHeader(core, word, 0, maxoffset) == NearestHeader(core, word, curoffset, maxoffset)
      invariant curoffset % PS == 0
      decreases maxoffset - curoffset
    {
      StillTagged(word, curoffset);
      var objtype := ReadHeader(core, word - curoffset);
      if objtype.Some? {
        NearestIsHeader(core, word, curoffset, maxoffset);
        return curoffset, objtype.value;
      }
      curoffset := curoffset + PS;
    }
  }

  lemma StillTagged(word: int, offset: int)
    requires IsHeapObject(word) && offset % PS == 0
    ensures IsHeapObject(word - offset)
  {
  }

  // The checks on one word: its type if it looks like an object.
  method ReadHeader(core: Core, curaddr: int) returns (objtype: Option<Byte>)
    requires IsHeapObject(curaddr)
    ensures objtype == if LooksLikeObject(core, curaddr) then core.ReadTypeByte(curaddr) else None
    ensures objtype.Some? <==> LooksLikeObject(core, curaddr)
  {
    var curvalue := core.ReadHeapPtr(curaddr, core.k.offMap);
    if curvalue.None? {
      return None;
    }
    var maptype := core.ReadTypeByte(curvalue.value);
    if maptype != Some(core.k.typeMap) {
      return None;
    }
    return core.ReadTypeByte(curaddr);
  }

  // The number of bytes an object really has, from its header on, if that can be read: the header,
  // which is where the data starts, counted from the untagged address, and the data.
  function TrueSize(core: Core, a: int, t: Byte): Option<int>
  {
    if t in core.k.stringTypes && t in core.k.seqTypes then
      match core.ReadHeapSmi(a, core.k.offStringLength)
      case None => None
      case Some(n) =>
        Some(if t in core.k.oneByteTypes then 1 + core.k.offSeqAsciiChars + n
             else 1 + core.k.offSeqTwoByteChars + n + n)
    else if t == core.k.typeFixedArray then
      match core.ReadHeapSmi(a, core.k.offFixedArrayLength)
      case None => None
      case Some(n) => Some(1 + core.k.offFixedArrayData + 8 * n)
    else core.ReadSize(a)
  }

  // What a Map says about the size of its objects, in words and in bytes.
  lemma MapGivesSizes(core: Core, a: int, map_: nat, words: Byte, ninprops: Byte)
    requires HasWord(core, a + core.k.offMap, map_) && IsHeapObject(map_)
    requires HasByte(core, map_ + core.k.offInstanceSize, words)
    requires HasByte(core, map_ + core.k.offInobjectProperties, ninprops)
    ensures core.ReadSize(a) == Some(8 * words) && InobjectProperties(core, a) == Some(ninprops)
  {
  }

  // In terms of memory: a word refers to a Map whose own Map says so, and gives the object a type.
  lemma LooksLikeObjectIff(core: Core, a: int)
    ensures LooksLikeObject(core, a) <==>
              exists map_: nat, t: Byte ::
                HasWord(core, a + core.k.offMap, map_) && HasType(core, map_, core.k.typeMap) && HasType(core, a, t)
  {
    if LooksLikeObject(core, a) {
      var map_, t := core.words[a + core.k.offMap], core.ReadTypeByte(a).value;
      TypeIsRead(core, map_, core.k.typeMap);
      TypeIsRead(core, a, t);
      assert HasWord(core, a + core.k.offMap, map_);
    }
    if map_: nat, t: Byte :|
      HasWord(core, a + core.k.offMap, map_) && HasType(core, map_, core.k.typeMap) && HasType(core, a, t)
    {
      TypeIsRead(core, map_, core.k.typeMap);
      TypeIsRead(core, a, t);
    }
  }

  predicate IsVariable(core: Core, t: Byte) {
    (t in core.k.stringTypes && t in core.k.seqTypes) || t == core.k.typeFixedArray
  }

  // How many words further than it should v8contains() takes a JSObject to reach: it adds the
  // in-object properties to an instance size that includes them already.
  function Excess(core: Core, a: int, t: Byte): nat {
    if t == core.k.typeJSObject && !IsVariable(core, t) then
      match InobjectProperties(core, a) case None => 0 case Some(n) => n
    else 0
  }

  // Word n of an object is judged correctly, except for the words just after a JSObject and for
  // a last word that holds a single byte of a sequential string.
  lemma ContainsIsExactExcept(core: Core, a: int, t: Byte, n: nat)
    requires Extent(core, a, t).Some? && TrueSize(core, a, t).Some?
    ensures var size := TrueSize(core, a, t).value;
            Contains(core, a, t, a + PS * n) == Some(PS * n < size) <==>
              && !(IsVariable(core, t) && PS * n == size - 1)
              && !(size <= PS * n < size + PS * Excess(core, a, t))
  {
  }

  // The layout of a FixedArray makes the second exception impossible.
  lemma FixedArrayWordsAreExact(core: Core, a: int, n: nat)
    requires core.k.typeFixedArray !in core.k.stringTypes
    requires FixedArrayLength(core, a).Some? && (core.k.offFixedArrayData + 1) % PS == 0
    ensures TrueSize(core, a, core.k.typeFixedArray)
         == Some(core.k.offFixedArrayData + 1 + PS * FixedArrayLength(core, a).value)
    ensures Contains(core, a, core.k.typeFixedArray, a + PS * n)
         == Some(PS * n < core.k.offFixedArrayData + 1 + PS * FixedArrayLength(core, a).value)
  {
  }

  // An object, and the number of bytes that it takes up.
  datatype HeapObject = HeapObject(base: int, t: Byte, size: int)

  // Objects start at words that look like objects, and no other word inside them does.
  ghost predicate LaidOut(core: Core, o: HeapObject)
  {
    && o.base % PS == 1
    && LooksLikeObject(core, o.base) && core.ReadTypeByte(o.base) == Some(o.t)
    && TrueSize(core, o.base, o.t) == Some(o.size) && Extent(core, o.base, o.t).Some?
    && forall n: nat | 0 < PS * n < o.size :: !LooksLikeObject(core, o.base + PS * n)
  }

  // The address is in word n of an object.
  lemma TaggedWordIs(addr: int, base: int, n: nat)
    requires base % PS == 1 && base - 1 + PS * n <= addr < base - 1 + PS * (n + 1)
    ensures TaggedWord(addr) == base + PS * n
  {
    assert (base - 1 + PS * n) % PS == 0;
  }

  // On a heap laid out like that, any address inside an object and in range of its header finds
  // the object, and v8whatis() says so unless only one byte of a string is in that word.
  lemma OwnerIsFound(core: Core, o: HeapObject, addr: int, maxoffset: nat, n: nat)
    requires LaidOut(core, o)
    requires o.base - 1 + PS * n <= addr < o.base - 1 + PS * (n + 1) && PS * n < o.size && PS * n < maxoffset
    ensures Lookup(core, addr, maxoffset).1 == Some((o.base, o.t))
    ensures Lookup(core, addr, maxoffset).0 == Ok <==> !(IsVariable(core, o.t) && PS * n == o.size - 1)
  {
    TaggedWordIs(addr, o.base, n);
    var word := TaggedWord(addr);
    forall j: nat | j < n ensures !LooksLikeObject(core, word - (0 + PS * j)) {
      assert word - (0 + PS * j) == o.base + PS * (n - j);
      assert !LooksLikeObject(core, o.base + PS * (n - j));
    }
    NearestIsNearest(core, word, 0, maxoffset, n);
    ContainsIsExactExcept(core, o.base, o.t, n);
  }

  // An address past the end of the nearest object is not taken to be inside it, unless it is
  // among the words wrongly added to a JSObject.
  lemma GapIsNotOwned(core: Core, o: HeapObject, addr: int, maxoffset: nat, n: nat)
    requires LaidOut(core, o)
    requires o.base - 1 + PS * n <= addr < o.base - 1 + PS * (n + 1) && o.size <= PS * n
    requires NoHeader(core, o.base + PS * n, 0, n) && PS * n < maxoffset
    ensures Lookup(core, addr, maxoffset).0 == DoesntContain <==> !(PS * n < o.size + PS * Excess(core, o.base, o.t))
  {
    TaggedWordIs(addr, o.base, n);
    NearestIsNearest(core, TaggedWord(addr), 0, maxoffset, n);
    ContainsIsExactExcept(core, o.base, o.t, n);
  }

  // A small memory image: at 16 a JSObject of 24 bytes with one in-object property, at 64 a
  // one-byte sequential string of length 1, and their Maps.
  function SampleCore(): Core {
    var k := Constants(
      typeFixedArray := 2, typeMap := 1, typeJSObject := 3, typeJSFunction := 4,
      typeJSArray := 5, typeJSTypedArray := 6,
      stringTypes := {8}, oneByteTypes := {8}, seqTypes := {8}, consTypes := {}, slicedTypes := {}, extTypes := {},
      offMap := -1, offInstanceAttributes := 11, offInstanceSize := 7, offInobjectProperties := 8,
      offFixedArrayLength := 7, offFixedArrayData := 15,
      offJSArrayLength := 23, offJSObjectElements := 15,
      offStringLength := 7, offSeqAsciiChars := 23, offSeqTwoByteChars := 23,
      offConsFirst := 23, offConsSecond := 31, offSlicedParent := 23, offSlicedOffset := 31,
      offExtResource := 23);
    Core(map[16 := 201, 64 := 301, 72 := 0x1_0000_0000, 200 := 401, 300 := 401, 400 := 401],
         map[212 := 3, 208 := 3, 209 := 1, 312 := 8, 308 := 4, 412 := 1],
         k)
  }

  // From the word with the given number of words before it, only the object's header looks like one.
  lemma SampleHeader(base: int)
    requires base in {17, 65}
    ensures LooksLikeObject(SampleCore(), base)
    ensures forall n | 0 < n <= 3 :: !LooksLikeObject(SampleCore(), base + PS * n)
  {
    var core := SampleCore();
    assert !LooksLikeObject(core, base + 8) && !LooksLikeObject(core, base + 16) && !LooksLikeObject(core, base + 24);
  }

  lemma SampleNearest(base: int)
    requires base in {17, 65}
    ensures NearestHeader(SampleCore(), base + 24, 0, 64) == Some(24)
  {
    SampleHeader(base);
    NearestIsNearest(SampleCore(), base + 24, 0, 64, 3);
    forall k: nat | k < 3 ensures !LooksLikeObject(SampleCore(), base + 24 - (0 + PS * k)) {
      assert base + 24 - (0 + PS * k) == base + PS * (3 - k);
    }
  }

  // The word after the JSObject is taken to be part of it.
  lemma WordAfterObjectIsClaimed()
    ensures TrueSize(SampleCore(), 17, 3) == Some(24)
    ensures Lookup(SampleCore(), 40, 64) == (Ok, Some((17, 3)))
  {
    SampleNearest(17);
  }

  // The only character of the string is in a word that is not taken to be part of the string.
  lemma LastCharacterIsDisowned()
    ensures TrueSize(SampleCore(), 65, 8) == Some(25)
    ensures Lookup(SampleCore(), 88, 64) == (DoesntContain, Some((65, 8)))
  {
    SampleNearest(65);
  }
}
