// How V8 lays out the properties of an object in fast mode, given as an encoding of a list of
// properties, and the theorem that decoding inverts it (src/mdb_v8.c:2717-2963, src/v8dbg.h:82-86).

module PropertyLayouts {
  import opened Wrappers
  import opened Bits
  import opened CoreFile
  import opened PropCalls
  import opened LayoutDescriptor
  import opened Properties

  // A property list, item by item: a field with its index, and its name and the word in its slot if
  // memory holds them; in older versions, a field whose index is not even an SMI; or something that
  // is not a field.  What else a descriptor holds is up to V8: `attrs` and `high` are the other bits
  // of the details, and `spare` is the part of the field index or the value that the version does
  // not use.
  datatype Item =
    | Field(key: nat, name: Option<string>, index: nat, word: Option<nat>, attrs: nat, high: nat, spare: nat)
    | Unindexed(key: nat, name: Option<string>, value: nat, attrs: nat, high: nat, spare: nat)
    | Other(key: nat, kind: nat, attrs: nat, high: nat, spare: nat)

  // A details word with the given bit fields.
  function DetailsWord(f: DetailsFields, kind: nat, attrs: nat, index: nat, high: nat): nat
    requires f.typeBits <= f.indexShift
  {
    ToSmi(Join(kind, f.typeBits, Join(attrs, f.indexShift - f.typeBits, Join(index, f.indexBits, high))))
  }

  // Decoding takes the type and the index out of it.
  lemma DetailsDecode(r: Rules, kind: nat, attrs: nat, index: nat, high: nat)
    requires r.Valid() && kind < Pow2(r.fields.typeBits)
    ensures var w := DetailsWord(r.fields, kind, attrs, index, high);
            && (r.IsField(w) <==> kind == r.fields.typeField)
            && (index < Pow2(r.fields.indexBits) ==> r.FieldIndex(w) == index)
  {
    var f := r.fields;
    var rest := Join(index, f.indexBits, high);
    var v := Join(kind, f.typeBits, Join(attrs, f.indexShift - f.typeBits, rest));
    SmiRoundTrip(v);
    LowFieldOfJoin(kind, f.typeBits, Join(attrs, f.indexShift - f.typeBits, rest));
    HighFieldOfJoin(kind, f.typeBits, Join(attrs, f.indexShift - f.typeBits, rest));
    HighFieldOfJoin(attrs, f.indexShift - f.typeBits, rest);
    ShrTwice(v, f.typeBits, f.indexShift - f.typeBits);
    MaskThenShift(v, LowMask(f.indexBits), f.indexShift);
    if index < Pow2(f.indexBits) {
      LowFieldOfJoin(index, f.indexBits, high);
    }
  }

  // The three words of a descriptor.
  datatype Entry = Entry(key: nat, details: nat, value: nat)

  // The descriptor of an item: the field index is in the details or in the value.
  function EntryOf(r: Rules, item: Item): Entry
    requires r.fields.typeBits <= r.fields.indexShift
  {
    match item
    case Field(key, _, index, _, attrs, high, spare) =>
      if r.indexInDetails then Entry(key, DetailsWord(r.fields, r.fields.typeField, attrs, index, high), spare)
      else Entry(key, DetailsWord(r.fields, r.fields.typeField, attrs, spare, high), ToSmi(index))
    case Unindexed(key, _, value, attrs, high, spare) =>
      Entry(key, DetailsWord(r.fields, r.fields.typeField, attrs, spare, high), value)
    case Other(key, kind, attrs, high, spare) => Entry(key, DetailsWord(r.fields, kind, attrs, spare, high), spare)
  }

  function EntriesOf(r: Rules, items: seq<Item>): seq<Entry>
    requires r.fields.typeBits <= r.fields.indexShift
  {
    seq(|items|, i requires 0 <= i < |items| => EntryOf(r, items[i]))
  }

  function Part(r: Rules, e: Entry, j: nat): nat {
    if j == r.key then e.key else if j == r.details then e.details else e.value
  }

  // The descriptors array that the entries are laid out as.
  function EncodeDescs(r: Rules, header: seq<nat>, entries: seq<Entry>): seq<nat>
    requires r.Valid()
  {
    if entries == [] then header
    else
      var n := |entries| - 1;
      var e := entries[n];
      EncodeDescs(r, header, entries[..n])
      + if r.separateContent then [e.key] else [Part(r, e, 0), Part(r, e, 1), Part(r, e, 2)]
  }

  // The separate content array of older versions.
  function EncodeContent(entries: seq<Entry>): seq<nat> {
    if entries == [] then []
    else
      var n := |entries| - 1;
      EncodeContent(entries[..n]) + [entries[n].value, entries[n].details]
  }

  lemma {:induction false} DescsHoldEntry(r: Rules, header: seq<nat>, entries: seq<Entry>, ii: nat)
    requires r.Valid() && |header| == r.first && ii < |entries|
    ensures |EncodeDescs(r, header, entries)| == r.first + (if r.separateContent then |entries| else 3 * |entries|)
    ensures r.separateContent ==> EncodeDescs(r, header, entries)[r.first + ii] == entries[ii].key
    ensures !r.separateContent ==> forall j: nat | j < 3 ::
              EncodeDescs(r, header, entries)[r.first + 3 * ii + j] == Part(r, entries[ii], j)
    decreases |entries|
  {
    var n := |entries| - 1;
    if n > 0 {
      DescsHoldEntry(r, header, entries[..n], if ii < n then ii else 0);
    } else {
      assert EncodeDescs(r, header, entries[..0]) == header;
    }
  }

  lemma {:induction false} ContentHoldsEntries(entries: seq<Entry>)
    ensures |EncodeContent(entries)| == 2 * |entries|
    ensures forall ii: nat | ii < |entries| ::
              && EncodeContent(entries)[2 * ii] == entries[ii].value
              && EncodeContent(entries)[2 * ii + 1] == entries[ii].details
  {
    if entries != [] {
      ContentHoldsEntries(entries[..|entries| - 1]);
    }
  }

  // The arrays of an object are those that the entries are laid out as; a content array of its own
  // may be cut off after the first `known` entries.
  ghost predicate HasEntries(r: Rules, obj: FastObject, header: seq<nat>, entries: seq<Entry>, known: nat) {
    && r.Valid() && |header| == r.first && known <= |entries|
    && obj.descs == EncodeDescs(r, header, entries)
    && (if r.separateContent then
          EncodeContent(entries[..known]) <= obj.content && (known < |entries| ==> |obj.content| <= 2 * known + 1)
        else obj.content == obj.descs && known == |entries|)
  }

  lemma EntryIsThere(r: Rules, obj: FastObject, header: seq<nat>, entries: seq<Entry>, known: nat, ii: nat)
    requires HasEntries(r, obj, header, entries, known) && ii < |entries|
    ensures KeyIdx(r, ii) < |obj.descs| && obj.descs[KeyIdx(r, ii)] == entries[ii].key
    ensures DetIdx(r, ii) < |obj.content| <==> ii < known
    ensures ii < known ==> obj.content[DetIdx(r, ii)] == entries[ii].details
    ensures ii < known ==> ValIdx(r, ii) < |obj.content| && obj.content[ValIdx(r, ii)] == entries[ii].value
  {
    DescsHoldEntry(r, header, entries, ii);
    if r.separateContent {
      ContentHoldsEntries(entries[..known]);
    } else {
      var e := entries[ii];
      assert Part(r, e, r.key) == e.key && Part(r, e, r.details) == e.details && Part(r, e, ValueOffset(r)) == e.value;
    }
  }

  lemma EntriesAreCounted(r: Rules, obj: FastObject, header: seq<nat>, entries: seq<Entry>, known: nat)
    requires HasEntries(r, obj, header, entries, known)
    ensures DescriptorCount(r, obj) == |entries|
  {
    if entries != [] {
      DescsHoldEntry(r, header, entries, 0);
    }
  }

  // The word in the slot with the given field index, if it can be read.
  function SlotWord(env: Env, obj: FastObject, index: nat): Option<nat> {
    if index < obj.ninprops then env.word(SlotAddr(obj, index))
    else if index - obj.ninprops < |obj.props| then Some(obj.props[index - obj.ninprops])
    else None
  }

  // An item fits its descriptor, and memory holds what it says.
  ghost predicate Fits(r: Rules, env: Env, obj: FastObject, item: Item) {
    match item
    case Field(key, name, index, word, _, _, _) =>
      && env.name(key) == name && SlotWord(env, obj, index) == word
      && (index < obj.ninprops ==> SlotAddr(obj, index) != 0)
      && (r.indexInDetails ==> index < Pow2(r.fields.indexBits))
    case Unindexed(key, name, value, _, _, _) => env.name(key) == name && !r.indexInDetails && !IsSmi(value)
    case Other(_, kind, _, _, _) => kind != r.fields.typeField && kind < Pow2(r.fields.typeBits)
  }

  // A property list as V8 stores it, with the set of its fields that are unboxed doubles, and the
  // entries whose details are cut off.  Versions that keep the field index in the value have no
  // layout descriptors.
  datatype PropertyList = PropertyList(
    header: seq<nat>, items: seq<Item>, lost: seq<Entry>, descriptor: Descriptor, untagged: set<nat>
  )

  ghost predicate LaidOut(r: Rules, env: Env, obj: FastObject, p: PropertyList) {
    && obj.ninprops < 256 && r.Valid()
    && HasEntries(r, obj, p.header, EntriesOf(r, p.items) + p.lost, |p.items|)
    && Encodes(p.descriptor, p.untagged) && obj.layout == Loaded(p.descriptor)
    && (!r.indexInDetails ==> p.descriptor.Absent?)
    && forall ii | 0 <= ii < |p.items| :: Fits(r, env, obj, p.items[ii])
  }

  // A field is delivered if its name and its value can be read.
  predicate IsDelivered(item: Item) {
    item.Field? && item.name.Some? && item.word.Some?
  }

  // The callbacks that a property list calls for: one for each field delivered, in order, with its
  // name and its value, which is an unboxed double exactly if the field is in the set.
  function Expected(items: seq<Item>, untagged: set<nat>): seq<PropCall> {
    if items == [] then []
    else
      var n := |items| - 1;
      Expected(items[..n], untagged) + if IsDelivered(items[n]) then [ExpectedCall(items[n], untagged)] else []
  }

  function ExpectedCall(item: Item, untagged: set<nat>): PropCall
    requires IsDelivered(item)
  {
    var w := item.word.value;
    PropCall(item.name, Some(if item.index in untagged then UnboxedDouble(w) else Tagged(w)))
  }

  // A field that would be behind the last slot, so far behind that the loop gives up: the limit is
  // the number of descriptors, to which older versions do not count the in-object fields.
  predicate IsBeyond(r: Rules, ninprops: nat, count: nat, item: Item) {
    && item.Field? && item.name.Some? && item.word.None? && item.index >= ninprops
    && count <= if r.indexInDetails then item.index else item.index - ninprops
  }

  // The number of items before the first at which the loop gives up.
  function Reached(r: Rules, ninprops: nat, count: nat, items: seq<Item>): (n: nat)
    ensures n <= |items| && (forall i | 0 <= i < n :: !IsBeyond(r, ninprops, count, items[i]))
    ensures n < |items| ==> IsBeyond(r, ninprops, count, items[n])
  {
    if items == [] || IsBeyond(r, ninprops, count, items[0]) then 0
    else 1 + Reached(r, ninprops, count, items[1..])
  }

  // Why jsobj_properties() reports what it does about an object: fields in the object, fields
  // outside it, a value that looks like garbage, an undefined name, and what had to be skipped
  // because a name, an index or a word in the object could not be read.
  predicate IsReason(env: Env, ninprops: nat, untagged: set<nat>, item: Item, flag: Flag) {
    match flag
    case InObject => IsDelivered(item) && item.index < ninprops
    case Props => IsDelivered(item) && item.index >= ninprops
    case BadProps => IsDelivered(item) && item.index !in untagged && env.maybeGarbage(item.word.value)
    case UndefPropName => !item.Other? && item.name.None? && env.isUndefined(item.key)
    case Skipped =>
      match item
      case Field(key, None, _, _, _, _, _) => !env.isUndefined(key)
      case Field(_, Some(_), index, word, _, _, _) => word.None? && index < ninprops
      case Unindexed(key, name, _, _, _, _) => name.Some? || !env.isUndefined(key)
      case Other(_, _, _, _, _) => false
  }

  ghost predicate HasReason(env: Env, ninprops: nat, untagged: set<nat>, items: seq<Item>, flag: Flag) {
    exists i :: 0 <= i < |items| && IsReason(env, ninprops, untagged, items[i], flag)
  }

  lemma ReadableWhenLaidOut(r: Rules, env: Env, obj: FastObject, p: PropertyList)
    requires LaidOut(r, env, obj, p)
    ensures Readable(r, obj) && DescriptorCount(r, obj) == |p.items| + |p.lost|
  {
    EntriesAreCounted(r, obj, p.header, EntriesOf(r, p.items) + p.lost, |p.items|);
  }

  // What a turn must come to for an item, when there are `count` descriptors.
  ghost predicate Delivers(r: Rules, env: Env, ninprops: nat, untagged: set<nat>, count: nat, turn: Outcome,
                           item: Item)
  {
    if IsBeyond(r, ninprops, count, item) then turn.Fatal?
    else
      && !turn.Fatal?
      && (turn.Call? <==> IsDelivered(item))
      && (turn.Call? ==> turn.call == ExpectedCall(item, untagged))
      && forall flag :: flag in turn.flags <==> IsReason(env, ninprops, untagged, item, flag)
  }

  // Fetching a field finds the word that the object holds for it, if any.
  lemma FieldIsFetched(r: Rules, env: Env, obj: FastObject, untagged: set<nat>, count: nat, item: Item, place: Place)
    requires Readable(r, obj) && DescriptorCount(r, obj) == count
    requires item.Field? && item.name.Some? && SlotWord(env, obj, item.index) == item.word
    requires item.index < obj.ninprops ==> SlotAddr(obj, item.index) != 0
    requires if r.indexInDetails then place == NewRulePlace(obj, item.index)
             else place == OldRulePlace(obj, item.index) && !obj.layout.hasLayout
    requires Untagged(obj.layout, item.index) <==> item.index in untagged
    ensures Delivers(r, env, obj.ninprops, untagged, count, Fetch(r, env, obj, item.name.value, place), item)
  {
    RulesAgree(obj, item.index);
  }

  // One turn of the loop delivers one item.
  lemma DescriptorDecodes(r: Rules, env: Env, obj: FastObject, p: PropertyList, ii: nat)
    requires LaidOut(r, env, obj, p) && Readable(r, obj) && ii < |p.items| <= DescriptorCount(r, obj)
    ensures Delivers(r, env, obj.ninprops, p.untagged, DescriptorCount(r, obj), Turn(r, env, obj, ii), p.items[ii])
  {
    var item := p.items[ii];
    var entries := EntriesOf(r, p.items) + p.lost;
    EntryIsThere(r, obj, p.header, entries, |p.items|, ii);
    assert entries[ii] == EntryOf(r, item) && Fits(r, env, obj, item);
    match item
    case Other(_, kind, attrs, high, spare) =>
      DetailsDecode(r, kind, attrs, spare, high);
    case Unindexed(_, _, _, attrs, high, spare) =>
      DetailsDecode(r, r.fields.typeField, attrs, spare, high);
    case Field(_, _, _, _, _, _, _) =>
      FieldDecodes(r, env, obj, p, ii);
  }

  lemma FieldDecodes(r: Rules, env: Env, obj: FastObject, p: PropertyList, ii: nat)
    requires LaidOut(r, env, obj, p) && Readable(r, obj) && ii < |p.items| <= DescriptorCount(r, obj)
    requires p.items[ii].Field?
    requires DetIdx(r, ii) < |obj.content| && KeyIdx(r, ii) < |obj.descs| && ValIdx(r, ii) < |obj.content|
    requires Entry(obj.descs[KeyIdx(r, ii)], obj.content[DetIdx(r, ii)], obj.content[ValIdx(r, ii)])
          == EntryOf(r, p.items[ii])
    ensures Delivers(r, env, obj.ninprops, p.untagged, DescriptorCount(r, obj), Turn(r, env, obj, ii), p.items[ii])
  {
    var item := p.items[ii];
    var index := item.index;
    DetailsDecode(r, r.fields.typeField, item.attrs, if r.indexInDetails then index else item.spare, item.high);
    SmiRoundTrip(index);
    LayoutDecodes(p.descriptor, p.untagged, index);
    assert Fits(r, env, obj, item);
    if item.name.Some? {
      var place := if r.indexInDetails then NewRulePlace(obj, index) else OldRulePlace(obj, index);
      FieldIsFetched(r, env, obj, p.untagged, DescriptorCount(r, obj), item, place);
    }
  }

  // The turns for the items, and for the entries that are cut off.
  ghost predicate AllDeliver(r: Rules, env: Env, ninprops: nat, p: PropertyList, turns: nat -> Outcome) {
    && (forall ii: nat | ii < |p.items| ::
          Delivers(r, env, ninprops, p.untagged, |p.items| + |p.lost|, turns(ii), p.items[ii]))
    && (forall ii: nat | |p.items| <= ii < |p.items| + |p.lost| :: turns(ii) == Ignore({Skipped}))
  }

  lemma TurnsDeliver(r: Rules, env: Env, obj: FastObject, p: PropertyList)
    requires LaidOut(r, env, obj, p)
    ensures TurnCount(r, obj) == |p.items| + |p.lost|
    ensures AllDeliver(r, env, obj.ninprops, p, TurnsOf(r, env, obj))
  {
    ReadableWhenLaidOut(r, env, obj, p);
    forall ii: nat | ii < |p.items| + |p.lost|
      ensures ii < |p.items| ==>
                Delivers(r, env, obj.ninprops, p.untagged, |p.items| + |p.lost|, TurnsOf(r, env, obj)(ii), p.items[ii])
      ensures ii >= |p.items| ==> TurnsOf(r, env, obj)(ii) == Ignore({Skipped})
    {
      if ii < |p.items| {
        DescriptorDecodes(r, env, obj, p, ii);
      } else {
        EntryIsThere(r, obj, p.header, EntriesOf(r, p.items) + p.lost, |p.items|, ii);
      }
    }
  }

  // What n turns have delivered, of which none was fatal.
  ghost predicate SoFar(env: Env, ninprops: nat, p: PropertyList, n: nat, all: Delivery)
    requires n <= |p.items| + |p.lost|
  {
    var items := if n <= |p.items| then p.items[..n] else p.items;
    && !all.fatal && all.calls == Expected(items, p.untagged)
    && forall flag :: flag in all.flags <==>
         HasReason(env, ninprops, p.untagged, items, flag) || (flag == Skipped && n > |p.items|)
  }

  // Decoding inverts the layout: the first n turns deliver exactly the first n items.
  lemma {:induction false} DecodingInvertsLayout(r: Rules, env: Env, ninprops: nat, p: PropertyList,
                                                 turns: nat -> Outcome, n: nat)
    requires n <= |p.items| + |p.lost| && AllDeliver(r, env, ninprops, p, turns)
    requires forall i | 0 <= i < n && i < |p.items| :: !IsBeyond(r, ninprops, |p.items| + |p.lost|, p.items[i])
    ensures SoFar(env, ninprops, p, n, FirstTurns(turns, n))
  {
    if n > 0 {
      DecodingInvertsLayout(r, env, ninprops, p, turns, n - 1);
      assert p.items[..|p.items|] == p.items;
      if n <= |p.items| {
        var was, items := p.items[..n - 1], p.items[..n];
        assert items[..n - 1] == was;
        ReasonsGrow(env, ninprops, p.untagged, was, items[n - 1]);
        assert was + [items[n - 1]] == items;
      }
    }
  }

  lemma ReasonsGrow(env: Env, ninprops: nat, untagged: set<nat>, items: seq<Item>, item: Item)
    ensures forall flag :: HasReason(env, ninprops, untagged, items + [item], flag)
                      <==> HasReason(env, ninprops, untagged, items, flag)
                           || IsReason(env, ninprops, untagged, item, flag)
  {
    forall flag
      ensures HasReason(env, ninprops, untagged, items + [item], flag)
         <==> HasReason(env, ninprops, untagged, items, flag) || IsReason(env, ninprops, untagged, item, flag)
    {
      var more := items + [item];
      assert more[|items|] == item;
      if HasReason(env, ninprops, untagged, items, flag) {
        var i :| 0 <= i < |items| && IsReason(env, ninprops, untagged, items[i], flag);
        assert more[i] == items[i];
      }
    }
  }

  // What all turns together come to.
  ghost predicate IsOutcome(r: Rules, env: Env, ninprops: nat, p: PropertyList, all: Delivery) {
    var n := Reached(r, ninprops, |p.items| + |p.lost|, p.items);
    && all.calls == Expected(p.items[..n], p.untagged)
    && (all.fatal <==> n < |p.items|)
    && (!all.fatal ==> forall flag :: flag in all.flags <==> IsReported(env, ninprops, p, flag))
  }

  ghost predicate IsReported(env: Env, ninprops: nat, p: PropertyList, flag: Flag) {
    HasReason(env, ninprops, p.untagged, p.items, flag) || (flag == Skipped && p.lost != [])
  }

  lemma TurnsComeTo(r: Rules, env: Env, ninprops: nat, p: PropertyList, turns: nat -> Outcome, count: nat)
    requires AllDeliver(r, env, ninprops, p, turns) && count == |p.items| + |p.lost|
    ensures IsOutcome(r, env, ninprops, p, FirstTurns(turns, count))
  {
    var n := Reached(r, ninprops, count, p.items);
    if n < |p.items| {
      TurnsGiveUp(r, env, ninprops, p, turns, count, n);
    } else {
      DecodingInvertsLayout(r, env, ninprops, p, turns, count);
      assert p.items[..n] == p.items;
    }
  }

  lemma TurnsGiveUp(r: Rules, env: Env, ninprops: nat, p: PropertyList, turns: nat -> Outcome, count: nat, n: nat)
    requires AllDeliver(r, env, ninprops, p, turns) && count == |p.items| + |p.lost|
    requires n == Reached(r, ninprops, count, p.items) < |p.items|
    ensures FirstTurns(turns, count).fatal && FirstTurns(turns, count).calls == Expected(p.items[..n], p.untagged)
  {
    DecodingInvertsLayout(r, env, ninprops, p, turns, n);
    assert Delivers(r, env, ninprops, p.untagged, count, turns(n), p.items[n]);
    FatalStays(turns, n + 1, count);
  }

  lemma LaidOutDelivers(r: Rules, env: Env, obj: FastObject, p: PropertyList)
    requires LaidOut(r, env, obj, p)
    ensures IsOutcome(r, env, obj.ninprops, p, FirstTurns(TurnsOf(r, env, obj), TurnCount(r, obj)))
  {
    var turns := TurnsOf(r, env, obj);
    TurnsDeliver(r, env, obj, p);
    TurnsComeTo(r, env, obj.ninprops, p, turns, TurnCount(r, obj));
  }

  // What decoding a property list with a callback comes to.
  ghost predicate IsDecoded<S(!new)>(r: Rules, env: Env, ninprops: nat, p: PropertyList,
                                     func: (PropCall, S) -> (S, int), s0: S, s: S, rv: int, flags: set<Flag>)
  {
    var n := Reached(r, ninprops, |p.items| + |p.lost|, p.items);
    var (s', stopped) := Notify(func, result => result != 0, Expected(p.items[..n], p.untagged), s0);
    && s == s' && rv == (if stopped || n < |p.items| then -1 else 0)
    && (rv == 0 ==> forall flag :: flag in flags <==> IsReported(env, ninprops, p, flag))
  }

  // The whole loop, on an object in fast mode, with any callback: it is called once for each field
  // whose name and value can be read, in order, with the name and the value that were laid out,
  // until it asks to stop or a field is too far behind the last slot, which are the two ways to
  // fail.  On success, what is reported about the object has its reason in the property list.
  method DecodeLaidOut<S(!new)>(r: Rules, env: Env, obj: FastObject, ghost p: PropertyList,
                                func: (PropCall, S) -> (S, int), s0: S)
    returns (s: S, rv: int, flags: set<Flag>)
    requires LaidOut(r, env, obj, p)
    ensures IsDecoded(r, env, obj.ninprops, p, func, s0, s, rv, flags)
  {
    ReadableWhenLaidOut(r, env, obj, p);
    LaidOutDelivers(r, env, obj, p);
    s, rv, flags := FastProperties(r, env, obj, func, s0);
    OutcomeIsDecoded(r, env, obj.ninprops, p, FirstTurns(TurnsOf(r, env, obj), TurnCount(r, obj)), func, s0, s, rv,
                     flags);
  }

  lemma OutcomeIsDecoded<S(!new)>(r: Rules, env: Env, ninprops: nat, p: PropertyList, all: Delivery,
                                  func: (PropCall, S) -> (S, int), s0: S, s: S, rv: int, flags: set<Flag>)
    requires IsOutcome(r, env, ninprops, p, all)
    requires var (s', stopped) := Notify(func, result => result != 0, all.calls, s0);
             s == s' && rv == (if stopped || all.fatal then -1 else 0) && (rv == 0 ==> flags == all.flags)
    ensures IsDecoded(r, env, ninprops, p, func, s0, s, rv, flags)
  {
  }
}
