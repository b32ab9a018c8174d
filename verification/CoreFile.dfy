// The debugged program's memory and the low-level readers built on mdb_vread()
// (src/mdb_v8.c:1633-1823, src/v8dbg.h:20-52).

module CoreFile {
  import opened StringBuffer
  import opened Wrappers

  const PS := 8   // sizeof (uintptr_t) in a 64-bit program

  // The values the module reads from the program's v8dbg_* symbols.  Offsets have the heap
  // object tag subtracted already, as heap_offset() does.  The mask-and-tag tests of
  // src/v8dbg.h on a type byte are given by the bytes that pass them; the four string
  // representations are different tags under one mask, so at most one applies.
  datatype Constants = Constants(
    typeFixedArray: Byte, typeMap: Byte, typeJSObject: Byte, typeJSFunction: Byte,
    typeJSArray: Byte, typeJSTypedArray: Byte,
    stringTypes: set<Byte>, oneByteTypes: set<Byte>,
    seqTypes: set<Byte>, consTypes: set<Byte>, slicedTypes: set<Byte>, extTypes: set<Byte>,
    offMap: int, offInstanceAttributes: int, offInstanceSize: int, offInobjectProperties: int,
    offFixedArrayLength: int, offFixedArrayData: int,
    offJSArrayLength: int, offJSObjectElements: int,
    offStringLength: int, offSeqAsciiChars: int, offSeqTwoByteChars: int,
    offConsFirst: int, offConsSecond: int, offSlicedParent: int, offSlicedOffset: int,
    offExtResource: int
  )

  // V8_HeapObjectTag is 1 under mask 3; V8_SmiTag is 0 under mask 1.
  predicate IsHeapObject(p: int) {
    p % 4 == 1
  }

  predicate IsSmi(p: int) {
    p % 2 == 0
  }

  // V8_SMI_VALUE(): in 64-bit programs V8_SmiValueShift + V8_SmiShiftSize is 32.
  function SmiValue(w: nat): nat {
    w / 0x1_0000_0000
  }

  // V8_VALUE_SMI()
  function ToSmi(value: nat): nat {
    value * 0x1_0000_0000
  }

  lemma SmiRoundTrip(v: nat)
    ensures IsSmi(ToSmi(v)) && SmiValue(ToSmi(v)) == v
  {
  }

  // The readable memory.  Words and bytes are separate maps, with no consistency assumed
  // between them: every real memory image is one instance.
  datatype Core = Core(words: map<int, nat>, bytes: map<int, Byte>, k: Constants) {

    predicate Readable(base: int, n: nat) {
      forall a | base <= a < base + n :: a in bytes
    }

    function ByteAt(a: int): Byte {
      if a in bytes then bytes[a] else 0
    }

    function ReadHeapPtr(addr: int, off: int): Option<nat> {
      if addr + off in words then Some(words[addr + off]) else None
    }

    function ReadHeapSmi(addr: int, off: int): Option<nat>
    {
      match ReadHeapPtr(addr, off)
      case None => None
      case Some(w) => if IsSmi(w) then Some(SmiValue(w)) else None
    }

    function ReadHeapByte(addr: int, off: int): Option<Byte> {
      if addr + off in bytes then Some(bytes[addr + off]) else None
    }

    // read_typebyte(): the instance type stored in the object's Map.
    function ReadTypeByte(addr: int): Option<Byte> {
      match ReadHeapPtr(addr, k.offMap)
      case None => None
      case Some(map_) =>
        if !IsHeapObject(map_) then None
        else match ReadHeapByte(map_, k.offInstanceAttributes)
             case None => None
             case Some(b) => Some(b)
    }

    // read_size(): the instance size stored in the object's Map, in bytes.
    function ReadSize(addr: int): Option<nat> {
      match ReadHeapPtr(addr, k.offMap)
      case None => None
      case Some(map_) =>
        if !IsHeapObject(map_) then None
        else match ReadHeapByte(map_, k.offInstanceSize)
             case None => None
             case Some(b) => Some(b * PS)
    }
  }

  // What memory holds: words, bytes, SMIs, and objects of a type, which their Map gives.
  ghost predicate HasWord(core: Core, a: int, w: nat) {
    a in core.words && core.words[a] == w
  }

  ghost predicate HasByte(core: Core, a: int, b: int) {
    a in core.bytes && core.bytes[a] == b
  }

  ghost predicate HasSmi(core: Core, a: int, value: nat) {
    HasWord(core, a, value * 0x1_0000_0000)
  }

  ghost predicate HasType(core: Core, addr: int, t: Byte) {
    exists map_: nat :: HasWord(core, addr + core.k.offMap, map_) && IsHeapObject(map_)
                     && HasByte(core, map_ + core.k.offInstanceAttributes, t)
  }

  lemma SmiIsRead(core: Core, addr: int, off: int, value: nat)
    requires HasSmi(core, addr + off, value)
    ensures core.ReadHeapSmi(addr, off) == Some(value)
  {
    SmiRoundTrip(value);
  }

  lemma TypeIsRead(core: Core, addr: int, t: Byte)
    ensures HasType(core, addr, t) <==> core.ReadTypeByte(addr) == Some(t)
  {
    if core.ReadTypeByte(addr) == Some(t) {
      assert HasWord(core, addr + core.k.offMap, core.words[addr + core.k.offMap]);
    }
  }

  // A heap object is one byte further than an aligned address, and is never an SMI.
  lemma AddressIsTagged(k: int)
    ensures IsHeapObject(4 * k + 1) && !IsHeapObject(4 * k)
  {
  }

  lemma TagsTellApart(p: int)
    requires IsHeapObject(p)
    ensures !IsSmi(p) && IsSmi(2 * p)
  {
  }
}
