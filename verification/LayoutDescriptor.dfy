// Layout descriptors: which fields of an object are unboxed doubles?
// (src/mdb_v8.c:668-695, 2965-3194)

module LayoutDescriptor {
  import opened Wrappers
  import opened Bits
  import opened CoreFile

  const MAX_BITVECS := 8        // JL_MAXBITVECS
  const WORD_BITS := 32
  const WORD_SIZE := 0x1_0000_0000

  // What a Map's layout descriptor field holds, if the Map has one.
  datatype Descriptor =
    | Absent                                    // this V8 has no layout descriptors
    | Unreadable
    | Smi(value: nat)                           // V8_SMI_VALUE() of the field
    | Words(length: nat, words: seq<nat>)       // a FixedTypedArray, and its readable words

  // jsobj_layout_t
  datatype Layout = Layout(hasLayout: bool, allTagged: bool, isArray: bool, length: nat, bitvecs: seq<nat>)

  function NoLayout(): Layout {
    Layout(false, false, false, 0, seq(MAX_BITVECS, _ => 0))
  }

  // What jsobj_layout_load() depends on: the offset of Map's layout_descriptor and that of
  // FixedTypedArrayBase's base_pointer, if they are known, and whether V8 is older than 4.6.85.23.
  datatype LayoutOffsets = LayoutOffsets(descriptor: Option<int>, basePointer: Option<int>, older: bool)

  // Where the words of the array at p start: double-aligned, behind the base pointer and, in newer
  // versions, one more pointer.
  function WordsAddr(o: LayoutOffsets, p: int): int
    requires o.basePointer.Some?
  {
    var off := o.basePointer.value + PS + (if o.older then 0 else PS) + (PS - 1);
    p + (off - off % PS) - 1
  }

  // In an aligned object this is the first aligned address behind the pointers, and nothing is left
  // free if the base pointer is aligned itself.
  lemma WordsFollowPointers(o: LayoutOffsets, p: int)
    requires o.basePointer.Some? && p % 8 == 1
    ensures var end := p + o.basePointer.value + 8 + (if o.older then 0 else 8);
            && WordsAddr(o, p) % 8 == 0 && end - 1 <= WordsAddr(o, p) < end + 7
            && (end % 8 == 0 ==> WordsAddr(o, p) == end)
  {
  }

  // A little-endian uint32_t.
  function Word32At(core: Core, a: int): nat {
    core.ByteAt(a) + 0x100 * core.ByteAt(a + 1) + 0x1_0000 * core.ByteAt(a + 2) + 0x100_0000 * core.ByteAt(a + 3)
  }

  function WordsAt(core: Core, a: int, n: nat): seq<nat> {
    seq(n, i requires 0 <= i < n => Word32At(core, a + 4 * i))
  }

  // The descriptor of a Map in memory.
  function DescriptorOf(core: Core, o: LayoutOffsets, map_: int): Descriptor {
    if o.descriptor.None? then Absent
    else match core.ReadHeapPtr(map_, o.descriptor.value)
         case None => Unreadable
         case Some(p) => if IsSmi(p) then Smi(SmiValue(p)) else ArrayDescriptor(core, o, p)
  }

  function ArrayDescriptor(core: Core, o: LayoutOffsets, p: int): Descriptor {
    if o.basePointer.None? then Unreadable
    else match core.ReadHeapSmi(p, core.k.offFixedArrayLength)
         case None => Unreadable
         case Some(length) =>
           var a := WordsAddr(o, p);
           Words(length, if core.Readable(a, 4 * length) then WordsAt(core, a, length) else [])
  }

  predicate Usable(descriptor: Descriptor) {
    match descriptor
    case Unreadable => false
    case Words(length, words) => length <= MAX_BITVECS && length <= |words|
    case _ => true
  }

  // jsobj_layout_load()
  method LayoutLoad(core: Core, o: LayoutOffsets, map_: int) returns (rv: int, layout: Layout)
    ensures rv == (if Usable(DescriptorOf(core, o, map_)) then 0 else -1)
    ensures if rv == 0 then layout == Loaded(DescriptorOf(core, o, map_)) else !layout.hasLayout
  {
    layout := NoLayout();
    if o.descriptor.None? {
      return 0, layout;
    }
    var descriptor := core.ReadHeapPtr(map_, o.descriptor.value);
    if descriptor.None? {
      return -1, layout;
    }
    if IsSmi(descriptor.value) {
      layout := layout.(hasLayout := true, length := 1);
      layout := layout.(bitvecs := layout.bitvecs[0 := SmiValue(descriptor.value) % WORD_SIZE]);
      if layout.bitvecs[0] == 0 {
        layout := layout.(allTagged := true);
      }
      return 0, layout;
    }
    rv, layout := LoadWords(core, o, descriptor.value);
  }

  method LoadWords(core: Core, o: LayoutOffsets, p: int) returns (rv: int, layout: Layout)
    ensures rv == (if Usable(ArrayDescriptor(core, o, p)) then 0 else -1)
    ensures if rv == 0 then layout == Loaded(ArrayDescriptor(core, o, p)) else !layout.hasLayout
  {
    layout := NoLayout();
    if o.basePointer.None? {
      return -1, layout;
    }
    var length := core.ReadHeapSmi(p, core.k.offFixedArrayLength);
    if length.None? {
      return -1, layout;
    }
    layout := layout.(length := length.value);
    if layout.length > MAX_BITVECS || !core.Readable(WordsAddr(o, p), 4 * layout.length) {
      return -1, layout;
    }
    var words := WordsAt(core, WordsAddr(o, p), layout.length);
    layout := layout.(bitvecs := words + layout.bitvecs[layout.length..]);
    layout := layout.(hasLayout := true, isArray := true);
    rv := 0;
  }

  // Words stored in memory, least significant byte first.
  ghost predicate HasWords(core: Core, a: int, words: seq<nat>) {
    forall i | 0 <= i < |words| :: words[i] < WORD_SIZE && HasWord32(core, a + 4 * i, words[i])
  }

  ghost predicate HasWord32(core: Core, a: int, w: nat) {
    && core.Readable(a, 4)
    && core.ByteAt(a) == w % 0x100 && core.ByteAt(a + 1) == w / 0x100 % 0x100
    && core.ByteAt(a + 2) == w / 0x100 / 0x100 % 0x100 && core.ByteAt(a + 3) == w / 0x100 / 0x100 / 0x100
  }

  lemma Word32IsRead(core: Core, a: int, w: nat)
    requires HasWord32(core, a, w)
    ensures Word32At(core, a) == w
  {
    Digits(w);
    Digits(w / 0x100);
    Digits(w / 0x100 / 0x100);
  }

  lemma Digits(w: nat)
    ensures w == w % 0x100 + 0x100 * (w / 0x100)
  {
  }

  // An array of words laid out in memory is the descriptor made of these words.
  lemma StoredWordsAreLoaded(core: Core, o: LayoutOffsets, p: nat, words: seq<nat>)
    requires o.basePointer.Some? && !IsSmi(p)
    requires core.ReadHeapPtr(p, core.k.offFixedArrayLength) == Some(ToSmi(|words|))
    requires HasWords(core, WordsAddr(o, p), words)
    ensures ArrayDescriptor(core, o, p) == Words(|words|, words)
    ensures Usable(ArrayDescriptor(core, o, p)) <==> |words| <= 8
  {
    var a := WordsAddr(o, p);
    SmiRoundTrip(|words|);
    forall i | 0 <= i < |words| ensures Word32At(core, a + 4 * i) == words[i] {
      Word32IsRead(core, a + 4 * i, words[i]);
    }
    forall b | a <= b < a + 4 * |words| ensures b in core.bytes {
      assert HasWord32(core, a + 4 * ((b - a) / 4), words[(b - a) / 4]);
    }
  }

  // The layout that a usable descriptor stands for.
  ghost function Loaded(descriptor: Descriptor): Layout
    requires Usable(descriptor)
  {
    match descriptor
    case Absent => NoLayout()
    case Smi(value) =>
      Layout(true, value % WORD_SIZE == 0, false, 1, [value % WORD_SIZE] + seq(MAX_BITVECS - 1, _ => 0))
    case Words(length, words) =>
      Layout(true, false, true, length, words[..length] + seq(MAX_BITVECS - length, _ => 0))
  }

  // jsobj_layout_untagged()
  function Untagged(layout: Layout, propidx: nat): bool
    requires layout.length <= |layout.bitvecs|
  {
    if !layout.hasLayout || layout.allTagged then false
    else
      var whichword, whichbit := propidx / WORD_BITS, propidx % WORD_BITS;
      if whichword >= layout.length then false else Bit(layout.bitvecs[whichword], whichbit)
  }

  // The bit vector of n fields from `first` on: bit b is set if field first + b is untagged.
  function EncodeWord(untagged: set<nat>, first: nat, n: nat): nat
    decreases n
  {
    if n == 0 then 0 else (if first in untagged then 1 else 0) + 2 * EncodeWord(untagged, first + 1, n - 1)
  }

  function EncodeWords(untagged: set<nat>, length: nat): (words: seq<nat>)
    ensures |words| == length
  {
    seq(length, i requires 0 <= i < length => EncodeWord(untagged, WORD_BITS * i, WORD_BITS))
  }

  lemma {:induction false} EncodedBits(untagged: set<nat>, first: nat, n: nat, b: nat)
    ensures Bit(EncodeWord(untagged, first, n), b) <==> b < n && first + b in untagged
    decreases b
  {
    if n == 0 {
      ZeroHasNoBits(b);
    } else if b > 0 {
      EncodedBits(untagged, first + 1, n - 1, b - 1);
    }
  }

  lemma WordSizeIsPow2()
    ensures Pow2(WORD_BITS) == WORD_SIZE
  {
    assert Pow2(4) == 2 * Pow2(3) == 4 * Pow2(2) == 16;
    Pow2Sum(4, 4);
    Pow2Sum(8, 8);
    Pow2Sum(16, 16);
  }

  lemma {:induction false} EncodedWordIsBounded(untagged: set<nat>, first: nat, n: nat)
    ensures EncodeWord(untagged, first, n) < Pow2(n)
    decreases n
  {
    if n > 0 {
      EncodedWordIsBounded(untagged, first + 1, n - 1);
    }
  }

  // A set of untagged fields that fits in one word survives the SMI encoding: exactly these
  // fields are untagged, and every field beyond them is tagged.
  lemma SmiDecodesToTheSet(untagged: set<nat>, propidx: nat)
    requires forall p | p in untagged :: p < WORD_BITS
    ensures Untagged(Loaded(Smi(EncodeWord(untagged, 0, WORD_BITS))), propidx) <==> propidx in untagged
  {
    var value := EncodeWord(untagged, 0, WORD_BITS);
    EncodedWordIsBounded(untagged, 0, WORD_BITS);
    WordSizeIsPow2();
    EncodedBits(untagged, 0, WORD_BITS, propidx);
    OneWordDecodes(untagged, value, propidx);
  }

  lemma OneWordDecodes(untagged: set<nat>, value: nat, propidx: nat)
    requires forall p | p in untagged :: p < WORD_BITS
    requires value < WORD_SIZE && (Bit(value, propidx) <==> propidx in untagged)
    ensures Untagged(Loaded(Smi(value)), propidx) <==> propidx in untagged
  {
    Small(value);
    var layout := Loaded(Smi(value));
    assert layout.hasLayout && layout.length == 1 && (layout.allTagged <==> value == 0) && layout.bitvecs[0] == value;
    if value == 0 {
      ZeroHasNoBits(propidx);
    }
    if propidx < WORD_BITS {
      InFirstWord(propidx);
    }
  }

  lemma Small(value: nat)
    requires value < WORD_SIZE
    ensures value % WORD_SIZE == value
  {
  }

  lemma InFirstWord(propidx: nat)
    requires propidx < WORD_BITS
    ensures propidx / WORD_BITS == 0 && propidx % WORD_BITS == propidx
  {
  }

  // Likewise for up to 8 words, however many of the trailing words without untagged fields are
  // left out.
  lemma WordsDecodeToTheSet(untagged: set<nat>, length: nat, propidx: nat)
    requires length <= 8 && forall p | p in untagged :: p < WORD_BITS * length
    ensures Untagged(Loaded(Words(length, EncodeWords(untagged, length))), propidx) <==> propidx in untagged
  {
    var whichword, whichbit := propidx / WORD_BITS, propidx % WORD_BITS;
    assert propidx == WORD_BITS * whichword + whichbit;
    EncodedBits(untagged, WORD_BITS * whichword, WORD_BITS, whichbit);
  }

  // The ways to describe a set of untagged fields.
  ghost predicate Encodes(descriptor: Descriptor, untagged: set<nat>) {
    match descriptor
    case Absent => untagged == {}
    case Unreadable => false
    case Smi(value) => value == EncodeWord(untagged, 0, WORD_BITS) && forall p | p in untagged :: p < WORD_BITS
    case Words(length, words) =>
      && length <= 8 && words == EncodeWords(untagged, length)
      && forall p | p in untagged :: p < WORD_BITS * length
  }

  // Whichever way is taken, exactly the fields of the set are untagged.
  lemma LayoutDecodes(descriptor: Descriptor, untagged: set<nat>, propidx: nat)
    requires Encodes(descriptor, untagged)
    ensures Untagged(Loaded(descriptor), propidx) <==> propidx in untagged
  {
    match descriptor
    case Absent =>
    case Smi(value) => SmiDecodesToTheSet(untagged, propidx);
    case Words(length, words) => WordsDecodeToTheSet(untagged, length, propidx);
  }
}
