// Dictionary-mode properties: read_heap_dict() (src/mdb_v8.c:1825-1899).

module DictProperties {
  import opened Helpers
  import opened Wrappers
  import opened CoreFile
  import opened PropCalls
  import opened Properties

  // One turn of the loop, for the entry whose key is at position i.
  function DictTurn(env: Env, dict: seq<nat>, i: nat): Outcome
    requires i + 1 < |dict|
  {
    var key, value := dict[i], dict[i + 1];
    if env.isUndefined(key) then Ignore({})
    else if IsSmi(key) then DictCall(env, env.decimal(SmiValue(key)), value)
    else if env.isHole(key) then Ignore({})
    else if env.isString(key) != Some(true) then Fatal
    else match env.name(key)
         case None => Fatal
         case Some(name) => DictCall(env, name, value)
  }

  function DictCall(env: Env, name: string, value: nat): Outcome {
    Call(PropCall(Some(name), Some(Tagged(value))), if env.maybeGarbage(value) then {BadProps} else {})
  }

  function DictTurns(env: Env, dict: seq<nat>): nat -> Outcome {
    (i: nat) => if i + 1 < |dict| then DictTurn(env, dict, i) else Ignore({})
  }

  // What the turns from position i on, in an array of n words, add to what has been delivered.
  function Turns(turns: nat -> Outcome, n: nat, entrySize: nat, i: nat, before: Delivery): Delivery
    requires entrySize >= 2
    decreases n - i
  {
    if i + 1 >= n then before else Turns(turns, n, entrySize, i + entrySize, before.Then(turns(i)))
  }

  lemma {:induction false} FatalTurns(turns: nat -> Outcome, n: nat, entrySize: nat, i: nat, before: Delivery)
    requires entrySize >= 2 && before.fatal
    ensures Turns(turns, n, entrySize, i, before) == before
    decreases n - i
  {
    if i + 1 < n {
      FatalTurns(turns, n, entrySize, i + entrySize, before);
    }
  }

  lemma {:induction false} TurnsGrow(turns: nat -> Outcome, n: nat, entrySize: nat, i: nat, before: Delivery)
    requires entrySize >= 2
    ensures before.calls <= Turns(turns, n, entrySize, i, before).calls
    decreases n - i
  {
    if i + 1 < n {
      ThenGrows(before, turns(i));
      TurnsGrow(turns, n, entrySize, i + entrySize, before.Then(turns(i)));
    }
  }

  // read_heap_dict(); `dict` is None if the array cannot be read.
  method ReadHeapDict<S>(env: Env, dict: Option<seq<nat>>, start: nat, entrySize: int,
                         func: (PropCall, S) -> (S, int), s0: S)
    returns (s: S, rv: int, flags: set<Flag>)
    ensures dict.None? || entrySize < 2 ==> rv == -1 && s == s0
    ensures dict.Some? && entrySize >= 2 ==>
              var all := Turns(DictTurns(env, dict.value), |dict.value|, entrySize, start, Delivery(false, [], {}));
              var (s', stopped) := Notify(func, result => result == -1, all.calls, s0);
              s == s' && rv == (if stopped || all.fatal then -1 else 0) && (rv == 0 ==> flags == all.flags)
  {
    if dict.None? || entrySize < 2 {
      return s0, -1, {};
    }
    s, rv, flags := RunDict(DictTurns(env, dict.value), |dict.value|, start, entrySize, func, s0);
  }

  // The loop, on an array of n words.
  method RunDict<S>(turns: nat -> Outcome, n: nat, start: nat, entrySize: nat, func: (PropCall, S) -> (S, int), s0: S)
    returns (s: S, rv: int, flags: set<Flag>)
    requires entrySize >= 2
    ensures var all := Turns(turns, n, entrySize, start, Delivery(false, [], {}));
            var (s', stopped) := Notify(func, result => result == -1, all.calls, s0);
            s == s' && rv == (if stopped || all.fatal then -1 else 0) && (rv == 0 ==> flags == all.flags)
  {
    s, flags := s0, {};
    ghost var all := Turns(turns, n, entrySize, start, Delivery(false, [], {}));
    ghost var calls := [];
    var i, err, stopped := start, false, false;
    while i + 1 < n && !err && !stopped
      invariant Turns(turns, n, entrySize, i, Delivery(err, calls, flags)) == all
      invariant Notify(func, result => result == -1, calls, s0) == (s, stopped)
      decreases n - i
    {
      s, err, stopped, calls, flags := TakeTurn(turns(i), func, result => result == -1, s, calls, flags, s0);
      i := i + entrySize;
    }
    if stopped {
      TurnsGrow(turns, n, entrySize, i, Delivery(err, calls, flags));
      NotifyStops(func, result => result == -1, calls, all.calls, s0);
    }
    if err {
      FatalTurns(turns, n, entrySize, i, Delivery(err, calls, flags));
    }
    rv := if err || stopped then -1 else 0;
  }

  // An entry as it is to be stored: a property, or a place that is vacant or was deleted, or one with
  // a key that is no name.  The words after key and value are of no interest here.
  datatype DictItem =
    | Live(key: nat, name: string, value: nat, rest: seq<nat>)
    | Vacant(key: nat, value: nat, rest: seq<nat>)
    | Broken(key: nat, value: nat, rest: seq<nat>)

  predicate Stands(env: Env, item: DictItem, entrySize: nat) {
    && 2 + |item.rest| == entrySize
    && match item
       case Vacant(key, _, _) => env.isUndefined(key) || (!IsSmi(key) && env.isHole(key))
       case Live(key, name, _, _) =>
         && !env.isUndefined(key)
         && (if IsSmi(key) then name == env.decimal(SmiValue(key))
             else !env.isHole(key) && env.isString(key) == Some(true) && env.name(key) == Some(name))
       case Broken(key, _, _) =>
         && !env.isUndefined(key) && !IsSmi(key) && !env.isHole(key)
         && (env.isString(key) != Some(true) || env.name(key) == None)
  }

  predicate AllStand(env: Env, items: seq<DictItem>, entrySize: nat) {
    items == [] || (Stands(env, items[0], entrySize) && AllStand(env, items[1..], entrySize))
  }

  function EncodeDict(items: seq<DictItem>): seq<nat> {
    if items == [] then [] else [items[0].key, items[0].value] + items[0].rest + EncodeDict(items[1..])
  }

  function ItemCall(item: DictItem): PropCall
    requires item.Live?
  {
    PropCall(Some(item.name), Some(Tagged(item.value)))
  }

  // The callbacks that a dictionary calls for: one for each live entry, in order, up to the first
  // one that is broken.
  function LiveCalls(items: seq<DictItem>): seq<PropCall> {
    if items == [] || items[0].Broken? then []
    else (if items[0].Live? then [ItemCall(items[0])] else []) + LiveCalls(items[1..])
  }

  ghost predicate AnyBroken(items: seq<DictItem>) {
    exists i :: 0 <= i < |items| && items[i].Broken?
  }

  // A value that looks like garbage.
  predicate IsGarbage(env: Env, item: DictItem) {
    item.Live? && env.maybeGarbage(item.value)
  }

  ghost predicate AnyGarbage(env: Env, items: seq<DictItem>) {
    exists i :: 0 <= i < |items| && IsGarbage(env, items[i])
  }

  // What a turn must come to for an entry.
  ghost predicate Delivers(env: Env, turn: Outcome, item: DictItem) {
    match item
    case Live(_, _, _, _) => turn == Call(ItemCall(item), if IsGarbage(env, item) then {BadProps} else {})
    case Vacant(_, _, _) => turn == Ignore({})
    case Broken(_, _, _) => turn == Fatal
  }

  lemma ItemDecodes(env: Env, dict: seq<nat>, i: nat, item: DictItem, entrySize: nat)
    requires Stands(env, item, entrySize) && i + 1 < |dict| && dict[i] == item.key && dict[i + 1] == item.value
    ensures Delivers(env, DictTurn(env, dict, i), item)
  {
  }

  // The entries are what the turns from position i to the end come to.
  ghost predicate AreRead(env: Env, turns: nat -> Outcome, n: nat, entrySize: nat, i: nat, items: seq<DictItem>)
    decreases |items|
  {
    if items == [] then i <= n <= i + 1
    else
      && i + entrySize <= n && Delivers(env, turns(i), items[0])
      && AreRead(env, turns, n, entrySize, i + entrySize, items[1..])
  }

  // The first of the entries is read at position i, which leaves the others.
  lemma FirstIsRead(env: Env, dict: seq<nat>, i: nat, items: seq<DictItem>, stub: seq<nat>, entrySize: nat)
    requires items != [] && AllStand(env, items, entrySize) && entrySize >= 2
    requires i <= |dict| && dict[i..] == EncodeDict(items) + stub
    ensures i + entrySize <= |dict| && dict[i + entrySize..] == EncodeDict(items[1..]) + stub
    ensures Delivers(env, DictTurns(env, dict)(i), items[0]) && AllStand(env, items[1..], entrySize)
  {
    var words := [items[0].key, items[0].value] + items[0].rest;
    assert Stands(env, items[0], entrySize);
    Associative(words, EncodeDict(items[1..]), stub);
    assert dict[i..] == words + (EncodeDict(items[1..]) + stub);
    assert dict[i] == dict[i..][0] && dict[i + 1] == dict[i..][1];
    assert dict[i + entrySize..] == dict[i..][entrySize..];
    ItemDecodes(env, dict, i, items[0], entrySize);
  }

  lemma {:induction false} EntriesAreRead(env: Env, dict: seq<nat>, i: nat, items: seq<DictItem>, stub: seq<nat>,
                                          entrySize: nat)
    requires AllStand(env, items, entrySize) && entrySize >= 2 && |stub| <= 1
    requires i <= |dict| && dict[i..] == EncodeDict(items) + stub
    ensures AreRead(env, DictTurns(env, dict), |dict|, entrySize, i, items)
    decreases |items|
  {
    if items != [] {
      FirstIsRead(env, dict, i, items, stub, entrySize);
      EntriesAreRead(env, dict, i + entrySize, items[1..], stub, entrySize);
    }
  }

  // What the turns add to what has been delivered.
  ghost predicate IsOutcome(env: Env, before: Delivery, items: seq<DictItem>, all: Delivery) {
    && all.calls == before.calls + LiveCalls(items)
    && (all.fatal <==> AnyBroken(items))
    && (!all.fatal ==> all.flags == before.flags + if AnyGarbage(env, items) then {BadProps} else {})
  }

  // And these turns deliver exactly the live entries, in order, up to the first broken one.
  lemma {:induction false} TurnsDeliver(env: Env, turns: nat -> Outcome, n: nat, entrySize: nat, i: nat,
                                        items: seq<DictItem>, before: Delivery)
    requires entrySize >= 2 && !before.fatal && AreRead(env, turns, n, entrySize, i, items)
    ensures IsOutcome(env, before, items, Turns(turns, n, entrySize, i, before))
    decreases |items|
  {
    if items != [] {
      var after := before.Then(turns(i));
      if items[0].Broken? {
        FatalTurns(turns, n, entrySize, i + entrySize, after);
      } else {
        TurnsDeliver(env, turns, n, entrySize, i + entrySize, items[1..], after);
        OneMore(env, before, items, turns(i), Turns(turns, n, entrySize, i, before));
      }
    }
  }

  lemma OneMore(env: Env, before: Delivery, items: seq<DictItem>, turn: Outcome, all: Delivery)
    requires items != [] && !items[0].Broken? && !before.fatal && Delivers(env, turn, items[0])
    requires IsOutcome(env, before.Then(turn), items[1..], all)
    ensures IsOutcome(env, before, items, all)
  {
    Associative(before.calls, if items[0].Live? then [ItemCall(items[0])] else [], LiveCalls(items[1..]));
    assert items == [items[0]] + items[1..];
    assert AnyBroken(items) <==> AnyBroken(items[1..]);
    assert AnyGarbage(env, items) <==> IsGarbage(env, items[0]) || AnyGarbage(env, items[1..]);
  }

  // Decoding a dictionary delivers exactly its live entries, in the order of the table, up to the
  // first broken one.  A last word that is not a whole entry makes no difference.
  lemma DecodingInvertsDict(env: Env, dict: seq<nat>, start: nat, items: seq<DictItem>, stub: seq<nat>,
                            entrySize: nat)
    requires entrySize >= 2 && AllStand(env, items, entrySize) && |stub| <= 1
    requires start <= |dict| && dict[start..] == EncodeDict(items) + stub
    ensures IsOutcome(env, Delivery(false, [], {}), items,
                      Turns(DictTurns(env, dict), |dict|, entrySize, start, Delivery(false, [], {})))
  {
    EntriesAreRead(env, dict, start, items, stub, entrySize);
    TurnsDeliver(env, DictTurns(env, dict), |dict|, entrySize, start, items, Delivery(false, [], {}));
  }

  // read_heap_dict() on a dictionary, with any callback: it is called once for each live entry, until
  // it returns -1 or a broken entry is met, which are the two ways to fail.  On success, bad values
  // are reported exactly if there are any.
  method DecodeDict<S>(env: Env, dict: seq<nat>, start: nat, ghost items: seq<DictItem>, ghost stub: seq<nat>,
                       entrySize: nat, func: (PropCall, S) -> (S, int), s0: S)
    returns (s: S, rv: int, flags: set<Flag>)
    requires entrySize >= 2 && AllStand(env, items, entrySize) && |stub| <= 1
    requires start <= |dict| && dict[start..] == EncodeDict(items) + stub
    ensures var (s', stopped) := Notify(func, result => result == -1, LiveCalls(items), s0);
            s == s' && rv == (if stopped || AnyBroken(items) then -1 else 0)
    ensures rv == 0 ==> flags == if AnyGarbage(env, items) then {BadProps} else {}
  {
    DecodingInvertsDict(env, dict, start, items, stub, entrySize);
    assert [] + LiveCalls(items) == LiveCalls(items);
    s, rv, flags := ReadHeapDict(env, Some(dict), start, entrySize, func, s0);
  }
}
