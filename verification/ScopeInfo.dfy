// The variables of a ScopeInfo and their values in a Context
// (src/mdb_v8_function.c:143-149, 613-704, 795-847, 926-1048, src/mdb_v8.c:5877-5911).

module ScopeInfos {
  import opened Wrappers
  import opened CoreFile
  import opened Helpers

  datatype VarType = Params | StackLocals | ContextLocals

  // V8_SCOPEINFO_* and V8_CONTEXT_NCOMMON. A stack-locals offset of -1 means that the program's
  // version of V8 keeps no metadata before the stack locals.
  datatype Layout = Layout(idxParams: nat, idxStackLocals: nat, idxContextLocals: nat, firstVars: nat,
                           offStackLocals: int, ncommon: nat) {
    ghost predicate Valid() {
      && idxParams != idxStackLocals && idxStackLocals != idxContextLocals && idxParams != idxContextLocals
      && idxParams < firstVars && idxStackLocals < firstVars && idxContextLocals < firstVars
      && offStackLocals >= -1
    }

    // The words between the parameters and the stack locals.
    function Metadata(): nat
      requires offStackLocals >= -1
    {
      if offStackLocals == -1 then 0 else offStackLocals
    }

    function CountIndex(kind: VarType): nat {
      match kind
      case Params => idxParams
      case StackLocals => idxStackLocals
      case ContextLocals => idxContextLocals
    }
  }

  const VARTYPES := [Params, StackLocals, ContextLocals]

  datatype Var = Var(which: nat, realidx: nat)

  // v8scopeinfo_load()
  predicate Loads(k: Layout, elts: seq<nat>)
    requires k.Valid()
  {
    |elts| >= k.firstVars && forall kind: VarType :: IsSmi(elts[k.CountIndex(kind)])
  }

  // v8scopeinfo_vartype_nvars()
  function Count(k: Layout, elts: seq<nat>, kind: VarType): nat
    requires k.Valid() && Loads(k, elts)
  {
    SmiValue(elts[k.CountIndex(kind)])
  }

  // Where the names of each kind start.
  ghost function Start(k: Layout, elts: seq<nat>, kind: VarType): nat
    requires k.Valid() && Loads(k, elts)
  {
    match kind
    case Params => k.firstVars
    case StackLocals => k.firstVars + Count(k, elts, Params) + k.Metadata()
    case ContextLocals => k.firstVars + Count(k, elts, Params) + k.Metadata() + Count(k, elts, StackLocals)
  }

  // Calling back for the variables from number i on, until a callback returns non-zero or the array
  // turns out to be too short.
  function Visit<S>(elts: seq<nat>, start: nat, nvars: nat, func: (Var, S) -> (S, int), i: nat, s: S): (S, int)
    decreases nvars - i
  {
    if i >= nvars then (s, 0)
    else if start + i >= |elts| then (s, -1)
    else
      var (s', rv) := func(Var(i, start + i), s);
      if rv != 0 then (s', rv) else Visit(elts, start, nvars, func, i + 1, s')
  }

  // The first loop of v8scopeinfo_iter_vars().
  method Skip(k: Layout, elts: seq<nat>, kind: VarType) returns (nskip: nat)
    requires k.Valid() && Loads(k, elts)
    ensures nskip == Start(k, elts, kind)
  {
    nskip := k.firstVars;
    for i := 0 to |VARTYPES|
      invariant i == 0 ==> nskip == k.firstVars
      invariant i == 1 ==> kind != Params && nskip == k.firstVars + Count(k, elts, Params)
      invariant i == 2 ==> kind == ContextLocals && nskip == Start(k, elts, ContextLocals)
      invariant i < 3
    {
      if VARTYPES[i] == StackLocals && k.offStackLocals != -1 {
        nskip := nskip + k.offStackLocals;
      }
      if k.CountIndex(VARTYPES[i]) == k.CountIndex(kind) {
        break;
      }
      nskip := nskip + Count(k, elts, VARTYPES[i]);
    }
  }

  // v8scopeinfo_iter_vars()
  method IterVars<S>(k: Layout, elts: seq<nat>, kind: VarType, func: (Var, S) -> (S, int), s0: S)
    returns (s: S, rv: int)
    requires k.Valid() && Loads(k, elts)
    ensures (s, rv) == Visit(elts, Start(k, elts, kind), Count(k, elts, kind), func, 0, s0)
  {
    var nvars := Count(k, elts, kind);
    var nskip := Skip(k, elts, kind);
    s, rv := s0, 0;
    var i := 0;
    while i < nvars
      invariant i <= nvars && rv == 0
      invariant Visit(elts, nskip, nvars, func, 0, s0) == Visit(elts, nskip, nvars, func, i, s)
    {
      if nskip + i >= |elts| {
        return s, -1;
      }
      var (s', r) := func(Var(i, nskip + i), s);
      s, rv := s', r;
      if rv != 0 {
        return;
      }
      i := i + 1;
    }
  }

  // The regions do not overlap and come in the order of the table, whatever the array holds; only
  // the metadata of the stack locals is between them.
  lemma RegionsAreDisjointAndOrdered(k: Layout, elts: seq<nat>)
    requires k.Valid() && Loads(k, elts)
    ensures forall i, j | 0 <= i < j < |VARTYPES| ::
              Start(k, elts, VARTYPES[i]) + Count(k, elts, VARTYPES[i]) <= Start(k, elts, VARTYPES[j])
    ensures Start(k, elts, StackLocals) == Start(k, elts, Params) + Count(k, elts, Params) + k.Metadata()
    ensures Start(k, elts, ContextLocals) == Start(k, elts, StackLocals) + Count(k, elts, StackLocals)
  {
  }

  // The names of a function's variables, and the ScopeInfo V8 makes of them.
  datatype Variables = Variables(params: seq<nat>, stackLocals: seq<nat>, contextLocals: seq<nat>) {
    ghost function Of(kind: VarType): seq<nat> {
      match kind
      case Params => params
      case StackLocals => stackLocals
      case ContextLocals => contextLocals
    }
  }

  ghost function Encode(v: Variables, statics: seq<nat>, metadata: seq<nat>, rest: seq<nat>): seq<nat> {
    statics + v.params + metadata + v.stackLocals + v.contextLocals + rest
  }

  ghost predicate LaidOut(k: Layout, v: Variables, statics: seq<nat>, metadata: seq<nat>) {
    && k.Valid() && |statics| == k.firstVars && |metadata| == k.Metadata()
    && forall kind: VarType ::
         IsSmi(statics[k.CountIndex(kind)]) && SmiValue(statics[k.CountIndex(kind)]) == |v.Of(kind)|
  }

  // The callback that notes each variable's number and name; v8scopeinfo_var_name()'s assertion
  // holds for the variables that IterVars makes.
  function NoteName(elts: seq<nat>): ((Var, seq<(nat, nat)>) -> (seq<(nat, nat)>, int)) {
    (x: Var, seen: seq<(nat, nat)>) =>
      if x.realidx < |elts| then (seen + [(x.which, elts[x.realidx])], 0) else (seen, -2)
  }

  ghost function Numbered(names: seq<nat>): seq<(nat, nat)> {
    seq(|names|, i requires 0 <= i < |names| => (i, names[i]))
  }

  // On any array: the names of the region in order, as many as the array holds, and -1 if it is
  // too short for all of them.
  lemma {:induction false} NamesInOrder(elts: seq<nat>, start: nat, nvars: nat, i: nat, seen: seq<(nat, nat)>)
    requires i <= nvars && (i == 0 || start + i <= |elts|) && |seen| == i
    requires forall j | 0 <= j < i :: seen[j] == (j, elts[start + j])
    ensures var (names, rv) := Visit(elts, start, nvars, NoteName(elts), i, seen);
            && (rv == 0 <==> nvars == 0 || start + nvars <= |elts|)
            && rv in {0, -1}
            && |names| == (if rv == 0 then nvars else if start <= |elts| then |elts| - start else 0)
            && (|names| == 0 || start + |names| <= |elts|)
            && forall j | 0 <= j < |names| :: names[j] == (j, elts[start + j])
    decreases nvars - i
  {
    if i < nvars && start + i < |elts| {
      NamesInOrder(elts, start, nvars, i + 1, seen + [(i, elts[start + i])]);
    }
  }

  lemma RegionHolds(k: Layout, v: Variables, statics: seq<nat>, metadata: seq<nat>, rest: seq<nat>, kind: VarType)
    requires LaidOut(k, v, statics, metadata)
    ensures var elts := Encode(v, statics, metadata, rest);
            && Loads(k, elts)
            && Count(k, elts, kind) == |v.Of(kind)|
            && Start(k, elts, kind) + |v.Of(kind)| <= |elts|
            && elts[Start(k, elts, kind)..Start(k, elts, kind) + |v.Of(kind)|] == v.Of(kind)
  {
    var elts := Encode(v, statics, metadata, rest);
    assert forall kind: VarType :: elts[k.CountIndex(kind)] == statics[k.CountIndex(kind)];
  }

  // Iterating a kind gives back exactly its list of names, numbered from 0.
  lemma IterationInvertsLayout(k: Layout, v: Variables, statics: seq<nat>, metadata: seq<nat>, rest: seq<nat>,
                               kind: VarType)
    requires LaidOut(k, v, statics, metadata)
    ensures var elts := Encode(v, statics, metadata, rest);
            && Loads(k, elts)
            && Visit(elts, Start(k, elts, kind), Count(k, elts, kind), NoteName(elts), 0, [])
            == (Numbered(v.Of(kind)), 0)
  {
    var elts := Encode(v, statics, metadata, rest);
    RegionHolds(k, v, statics, metadata, rest, kind);
    NamesOfRegion(elts, Start(k, elts, kind), v.Of(kind));
  }

  lemma NamesOfRegion(elts: seq<nat>, start: nat, names: seq<nat>)
    requires start + |names| <= |elts| && elts[start..start + |names|] == names
    ensures Visit(elts, start, |names|, NoteName(elts), 0, []) == (Numbered(names), 0)
  {
    NamesInOrder(elts, start, |names|, 0, []);
    var found := Visit(elts, start, |names|, NoteName(elts), 0, []).0;
    forall j | 0 <= j < |names| ensures found[j] == (j, names[j]) {
      assert elts[start..start + |names|][j] == names[j];
    }
    assert found == Numbered(names);
  }

  const UINT: nat := 0x1_0000_0000

  // v8context_var_value(): i and the sum are unsigned ints.
  function VarValue(k: Layout, ctx: seq<nat>, i: nat): Option<nat> {
    var idx := (i + k.ncommon) % UINT;
    if idx >= |ctx| then None else Some(ctx[idx])
  }

  // A variable number gives the value of that variable's slot, or an error if the context has no
  // such slot, exactly when the sum does not wrap around; when it does, one of the context's fixed
  // slots is returned as if it were the variable's value.
  lemma VarValueIsExactIff(k: Layout, fixed: seq<nat>, values: seq<nat>, i: nat)
    requires |fixed| == k.ncommon > 0 && i < UINT && k.ncommon + |values| < UINT
    ensures VarValue(k, fixed + values, i) == (if i < |values| then Some(values[i]) else None)
       <==> i + k.ncommon < UINT
    ensures i + k.ncommon >= UINT ==> VarValue(k, fixed + values, i) == Some(fixed[i + k.ncommon - UINT])
  {
    if i + k.ncommon >= UINT {
      assert (i + k.ncommon) % UINT == i + k.ncommon - UINT;
    }
  }

  // An input that fails: in a context without variables, this variable has the value of slot 3.
  lemma WrappedIndexReadsFixedSlot()
    ensures VarValue(Layout(1, 2, 3, 4, -1, 4), [10, 11, 12, 13], 0xFFFF_FFFF) == Some(13)
  {
  }

  // jsclosure_iter_var(): the name and the value it prints for a context local.
  function Bind(k: Layout, elts: seq<nat>, ctx: seq<nat>): ((Var, seq<(nat, nat)>) -> (seq<(nat, nat)>, int)) {
    (x: Var, bound: seq<(nat, nat)>) =>
      if x.realidx >= |elts| then (bound, -2)
      else match VarValue(k, ctx, x.which % UINT)
           case None => (bound, -1)
           case Some(value) => (bound + [(elts[x.realidx], value)], 0)
  }

  ghost function Bindings(names: seq<nat>, values: seq<nat>): seq<(nat, nat)>
    requires |names| <= |values|
  {
    seq(|names|, i requires 0 <= i < |names| => (names[i], values[i]))
  }

  // One callback: the fixed slots are skipped.
  lemma BindsOne(k: Layout, elts: seq<nat>, fixed: seq<nat>, values: seq<nat>, x: Var, bound: seq<(nat, nat)>)
    requires |fixed| == k.ncommon && k.ncommon + |values| < UINT && k.ncommon + x.which < UINT
    requires x.realidx < |elts|
    ensures Bind(k, elts, fixed + values)(x, bound)
         == if x.which < |values| then (bound + [(elts[x.realidx], values[x.which])], 0) else (bound, -1)
  {
  }

  lemma {:induction false} BindsFrom(k: Layout, elts: seq<nat>, start: nat, names: seq<nat>, fixed: seq<nat>,
                                     values: seq<nat>, i: nat, bound: seq<(nat, nat)>)
    requires |fixed| == k.ncommon && k.ncommon + |values| < UINT && k.ncommon + |names| < UINT
    requires start + |names| <= |elts| && elts[start..start + |names|] == names
    requires i <= |names| && i <= |values| && bound == Bindings(names[..i], values)
    ensures Visit(elts, start, |names|, Bind(k, elts, fixed + values), i, bound)
         == (Bindings(names[..Min(|values|, |names|)], values), if |values| < |names| then -1 else 0)
    decreases |names| - i
  {
    if i < |names| {
      assert elts[start + i] == elts[start..start + |names|][i];
      BindsOne(k, elts, fixed, values, Var(i, start + i), bound);
      if i < |values| {
        assert bound + [(names[i], values[i])] == Bindings(names[..i + 1], values);
        BindsFrom(k, elts, start, names, fixed, values, i + 1, bound + [(names[i], values[i])]);
      }
    }
  }

  // A closure's variables print with their own values: context local number n is paired with the
  // context's slot ncommon + n. A context with too few slots is reported with -1, after the
  // variables that it does have.
  lemma ClosureBindings(k: Layout, v: Variables, statics: seq<nat>, metadata: seq<nat>, rest: seq<nat>,
                        fixed: seq<nat>, values: seq<nat>)
    requires LaidOut(k, v, statics, metadata)
    requires |fixed| == k.ncommon && k.ncommon + |values| < UINT && k.ncommon + |v.contextLocals| < UINT
    ensures var elts := Encode(v, statics, metadata, rest);
            var names := v.contextLocals;
            && Loads(k, elts)
            && Visit(elts, Start(k, elts, ContextLocals), Count(k, elts, ContextLocals),
                     Bind(k, elts, fixed + values), 0, [])
            == (Bindings(names[..Min(|values|, |names|)], values), if |values| < |names| then -1 else 0)
  {
    var elts := Encode(v, statics, metadata, rest);
    RegionHolds(k, v, statics, metadata, rest, ContextLocals);
    BindsFrom(k, elts, Start(k, elts, ContextLocals), v.contextLocals, fixed, values, 0, []);
  }
}
