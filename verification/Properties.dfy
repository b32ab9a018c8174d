// Decoding the properties of JavaScript objects: the descriptor loop of jsobj_properties()
// (src/mdb_v8.c:2717-2963, src/v8dbg.h:82-86).

module Properties {
  import opened Wrappers
  import opened Bits
  import opened CoreFile
  import opened PropCalls
  import opened LayoutDescriptor

  // The bit fields of a details word: the type of the property in the low bits, and the field index
  // in a field of its own.  The masks in the program's symbols are derived from them.
  datatype DetailsFields = DetailsFields(
    typeBits: nat,
    typeField: nat,                 // V8_PROP_TYPE_FIELD
    indexShift: nat,                // V8_PROPINDEX_SHIFT
    indexBits: nat
  ) {
    predicate Valid() {
      typeField < Pow2(typeBits) && typeBits <= indexShift
    }

    // V8_PROP_TYPE_MASK and V8_PROPINDEX_MASK
    function TypeMask(): nat {
      LowMask(typeBits)
    }

    function IndexMask(): nat {
      Shl(LowMask(indexBits), indexShift)
    }
  }

  // What differs between V8 versions.
  datatype Rules = Rules(
    first: nat,                     // V8_PROP_IDX_FIRST
    key: nat, details: nat,         // V8_PROP_DESC_KEY and _DETAILS; _VALUE is the third of 0, 1, 2
    separateContent: bool,          // V8_PROP_IDX_CONTENT != -1: details and values have their own array
    indexInDetails: bool,           // V8 3.26 and later keep the field index in the details
    fields: DetailsFields
  ) {
    predicate Valid() {
      key < 3 && details < 3 && key != details && fields.Valid()
    }

    // V8_DESC_ISFIELD() and V8_PROP_FIELDINDEX() of a details word
    predicate IsField(w: nat) {
      And(SmiValue(w), fields.TypeMask()) == fields.typeField
    }

    function FieldIndex(w: nat): nat {
      Shr(And(SmiValue(w), fields.IndexMask()), fields.indexShift)
    }
  }

  // The routines that look at single words.
  datatype Env = Env(
    word: int -> Option<nat>,           // mdb_vread() of a word
    name: nat -> Option<string>,        // jsstr_print()
    isUndefined: nat -> bool,           // jsobj_is_undefined()
    isHole: nat -> bool,                // jsobj_is_hole()
    isString: nat -> Option<bool>,      // read_typebyte() and V8_TYPE_STRING()
    maybeGarbage: nat -> bool,          // jsobj_maybe_garbage()
    decimal: nat -> string              // "%" PRIdPTR
  )

  // The pieces of an object that have been read when the loop starts.
  datatype FastObject = FastObject(
    addr: int, size: nat, ninprops: nat, props: seq<nat>, descs: seq<nat>, content: seq<nat>, layout: Layout
  )

  datatype Flag = InObject | Props | Skipped | BadProps | UndefPropName

  // Three words per descriptor: key, details and value in the order of this V8 version.
  function ValueOffset(r: Rules): int {
    3 - r.key - r.details
  }

  function KeyIdx(r: Rules, ii: nat): int {
    if r.separateContent then ii + r.first else r.first + 3 * ii + r.key
  }

  function DetIdx(r: Rules, ii: nat): int {
    if r.separateContent then 2 * ii + 1 else r.first + 3 * ii + r.details
  }

  function ValIdx(r: Rules, ii: nat): int {
    if r.separateContent then 2 * ii else r.first + 3 * ii + ValueOffset(r)
  }

  function DescriptorCount(r: Rules, obj: FastObject): int {
    if r.separateContent then |obj.descs| - r.first
    else if |obj.descs| > r.first then (|obj.descs| - r.first) / 3 else 0
  }

  // Where field `index` is stored according to the two rules: `propidx` is the index that the
  // layout descriptor is asked about.
  datatype Place = Place(propidx: int, propaddr: int, proparrayidx: int)

  function NewRulePlace(obj: FastObject, index: nat): Place {
    if index < obj.ninprops then Place(index, obj.addr + (obj.size - (obj.ninprops - index) * PS) - 1, -1)
    else Place(index, 0, index - obj.ninprops)
  }

  function OldRulePlace(obj: FastObject, index: nat): Place {
    var propidx := index - obj.ninprops;
    if propidx < 0 then Place(propidx, obj.addr + (obj.size + propidx * PS) - 1, -1)
    else Place(propidx, 0, propidx)
  }

  // A negative index passed as uintptr_t.
  function AsUnsigned(i: int): nat
    requires i >= -0x1_0000_0000_0000_0000
  {
    if i < 0 then i + 0x1_0000_0000_0000_0000 else i
  }

  predicate Readable(r: Rules, obj: FastObject) {
    && r.Valid()
    && obj.layout.length <= |obj.layout.bitvecs|
    && obj.ninprops < 256
    && (!r.separateContent ==> obj.content == obj.descs)
  }

  // The outcome of one turn of the loop.
  datatype Outcome = Ignore(flags: set<Flag>) | Call(call: PropCall, flags: set<Flag>) | Fatal

  // One turn of the loop over the descriptors.
  function Turn(r: Rules, env: Env, obj: FastObject, ii: nat): Outcome
    requires Readable(r, obj) && ii < DescriptorCount(r, obj)
  {
    var keyidx, validx, detidx := KeyIdx(r, ii), ValIdx(r, ii), DetIdx(r, ii);
    if detidx >= |obj.content| then Ignore({Skipped})
    else if !r.IsField(obj.content[detidx]) then Ignore({})
    else if keyidx >= |obj.descs| then Ignore({Skipped})
    else if env.name(obj.descs[keyidx]).None? then
      Ignore(if env.isUndefined(obj.descs[keyidx]) then {UndefPropName} else {Skipped})
    else
      var name := env.name(obj.descs[keyidx]).value;
      if r.indexInDetails then
        Fetch(r, env, obj, name, NewRulePlace(obj, r.FieldIndex(obj.content[detidx])))
      else if !IsSmi(obj.content[validx]) then Ignore({Skipped})
      else Fetch(r, env, obj, name, OldRulePlace(obj, SmiValue(obj.content[validx])))
  }

  // Read the value of a property whose place is known.
  function Fetch(r: Rules, env: Env, obj: FastObject, name: string, place: Place): Outcome
    requires obj.layout.length <= |obj.layout.bitvecs| && place.propidx >= -256
  {
    if place.propaddr != 0 then
      match env.word(place.propaddr)
      case None => Ignore({Skipped})
      case Some(w) => Value(env, obj, name, place.propidx, w, {InObject})
    else if 0 <= place.proparrayidx < |obj.props| then
      Value(env, obj, name, place.propidx, obj.props[place.proparrayidx], {Props})
    else if place.propidx < DescriptorCount(r, obj) then Ignore({})
    else Fatal
  }

  function Value(env: Env, obj: FastObject, name: string, propidx: int, w: nat, flags: set<Flag>): Outcome
    requires obj.layout.length <= |obj.layout.bitvecs| && propidx >= -256
  {
    if Untagged(obj.layout, AsUnsigned(propidx)) then Call(PropCall(Some(name), Some(UnboxedDouble(w))), flags)
    else Call(PropCall(Some(name), Some(Tagged(w))), flags + if env.maybeGarbage(w) then {BadProps} else {})
  }

  // What the first n turns deliver.
  datatype Delivery = Delivery(fatal: bool, calls: seq<PropCall>, flags: set<Flag>) {
    function Then(o: Outcome): Delivery {
      if fatal then this
      else match o
           case Fatal => this.(fatal := true)
           case Ignore(f) => this.(flags := flags + f)
           case Call(call, f) => this.(calls := calls + [call], flags := flags + f)
    }
  }

  function FirstTurns(turns: nat -> Outcome, n: nat): Delivery {
    if n == 0 then Delivery(false, [], {}) else FirstTurns(turns, n - 1).Then(turns(n - 1))
  }

  // The turns that an object calls for.
  function TurnsOf(r: Rules, env: Env, obj: FastObject): nat -> Outcome {
    (ii: nat) => if Readable(r, obj) && ii < DescriptorCount(r, obj) then Turn(r, env, obj, ii) else Ignore({})
  }

  function TurnCount(r: Rules, obj: FastObject): nat {
    if DescriptorCount(r, obj) < 0 then 0 else DescriptorCount(r, obj)
  }

  // The loop.  When it fails, jsobj_properties() does not report its flags.
  method FastProperties<S>(r: Rules, env: Env, obj: FastObject, func: (PropCall, S) -> (S, int), s0: S)
    returns (s: S, rv: int, flags: set<Flag>)
    requires Readable(r, obj)
    ensures var all := FirstTurns(TurnsOf(r, env, obj), TurnCount(r, obj));
            var (s', stopped) := Notify(func, result => result != 0, all.calls, s0);
            s == s' && rv == (if stopped || all.fatal then -1 else 0) && (rv == 0 ==> flags == all.flags)
  {
    s, rv, flags := RunTurns(TurnsOf(r, env, obj), TurnCount(r, obj), func, s0);
  }

  method RunTurns<S>(turns: nat -> Outcome, n: nat, func: (PropCall, S) -> (S, int), s0: S)
    returns (s: S, rv: int, flags: set<Flag>)
    ensures var all := FirstTurns(turns, n);
            var (s', stopped) := Notify(func, result => result != 0, all.calls, s0);
            s == s' && rv == (if stopped || all.fatal then -1 else 0) && (rv == 0 ==> flags == all.flags)
  {
    s, flags := s0, {};
    ghost var calls := [];
    var ii, err, stopped := 0, false, false;
    while ii < n && !err && !stopped
      invariant 0 <= ii <= n
      invariant FirstTurns(turns, ii) == Delivery(err, calls, flags)
      invariant Notify(func, result => result != 0, calls, s0) == (s, stopped)
    {
      s, err, stopped, calls, flags := TakeTurn(turns(ii), func, result => result != 0, s, calls, flags, s0);
      ii := ii + 1;
    }
    if stopped {
      CallsGrow(turns, ii, n);
      NotifyStops(func, result => result != 0, calls, FirstTurns(turns, n).calls, s0);
    }
    if err {
      FatalStays(turns, ii, n);
    }
    rv := if err || stopped then -1 else 0;
  }

  // What the body of either loop does with the outcome of one turn: `err` is a failure of its own,
  // and `stopped` one that the callback asks for.
  method TakeTurn<S>(turn: Outcome, func: (PropCall, S) -> (S, int), stops: int -> bool, s: S,
                     ghost calls: seq<PropCall>, flags: set<Flag>, ghost s0: S)
    returns (s': S, err: bool, stopped: bool, ghost calls': seq<PropCall>, flags': set<Flag>)
    requires Notify(func, stops, calls, s0) == (s, false)
    ensures Delivery(err, calls', flags') == Delivery(false, calls, flags).Then(turn)
    ensures Notify(func, stops, calls', s0) == (s', stopped)
  {
    s', err, stopped, calls', flags' := s, false, false, calls, flags;
    match turn {
      case Fatal =>
        err := true;
      case Ignore(f) =>
        flags' := flags + f;
      case Call(call, f) =>
        NotifyOne(func, stops, calls, call, s0);
        var (next, result) := func(call, s);
        s', stopped, calls', flags' := next, stops(result), calls + [call], flags + f;
    }
  }

  lemma ThenGrows(d: Delivery, o: Outcome)
    ensures d.calls <= d.Then(o).calls
    ensures d.fatal ==> d.Then(o) == d
  {
  }

  lemma {:induction false} CallsGrow(turns: nat -> Outcome, n: nat, m: nat)
    requires n <= m
    ensures FirstTurns(turns, n).calls <= FirstTurns(turns, m).calls
    decreases m
  {
    if n < m {
      CallsGrow(turns, n, m - 1);
      ThenGrows(FirstTurns(turns, m - 1), turns(m - 1));
    }
  }

  lemma {:induction false} FatalStays(turns: nat -> Outcome, n: nat, m: nat)
    requires n <= m && FirstTurns(turns, n).fatal
    ensures FirstTurns(turns, m) == FirstTurns(turns, n)
    decreases m
  {
    if n < m {
      FatalStays(turns, n, m - 1);
      ThenGrows(FirstTurns(turns, m - 1), turns(m - 1));
    }
  }

  // Both rules put a field in the same place.
  lemma RulesAgree(obj: FastObject, index: nat)
    ensures NewRulePlace(obj, index).propaddr == OldRulePlace(obj, index).propaddr
    ensures NewRulePlace(obj, index).proparrayidx == OldRulePlace(obj, index).proparrayidx
    ensures index < obj.ninprops ==> NewRulePlace(obj, index).propaddr == SlotAddr(obj, index)
  {
  }

  // In-object slots are the last words of the object.
  function SlotAddr(obj: FastObject, index: nat): int {
    obj.addr + obj.size - (obj.ninprops - index) * PS - 1
  }

  // Different fields are in different slots, and those in the object lie within it.
  lemma SlotsAreDistinct(obj: FastObject, i: nat, j: nat)
    requires i < j
    ensures NewRulePlace(obj, i) != NewRulePlace(obj, j)
    ensures j < obj.ninprops ==> SlotAddr(obj, i) + PS <= SlotAddr(obj, j)
    ensures j < obj.ninprops && obj.ninprops * PS <= obj.size ==>
              obj.addr - 1 <= SlotAddr(obj, j) <= obj.addr - 1 + obj.size - PS
  {
  }
}
