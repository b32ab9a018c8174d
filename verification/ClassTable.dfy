// The table of V8 classes built from metadata symbols (src/mdb_v8.c:762-772, 1176-1323,
// 1388-1419).  Symbols arrive in any order; the table does not depend on it.

module ClassTable {
  import opened Wrappers
  import opened Signatures
  import opened CoreFile

  // What a field holds: v8f_isbyte, v8f_isstr or neither.
  datatype Kind = Word | Small | Chars

  datatype Field = Field(name: string, offset: nat, kind: Kind)

  // A v8_class_t; an `end` that has not been computed is (size_t)-1 there and None here.
  datatype Class = Class(name: string, fields: seq<Field>, parent: Option<string>, start: nat, end: Option<nat>)

  // "v8dbg_parent_X__Y" and "v8dbg_class_CLASS__FIELD__TYPE".
  datatype Symbol = Parent(child: string, parent: string) | FieldOf(class_: string, field: Field)

  // The kind of the field in "v8dbg_class_CLASS__FIELD__TYPE", under a given V8 version.  The metadata
  // of Map's bit_field3 is wrong in some versions.
  function KindOf(major: nat, minor: nat, class_: string, field: string, type_: string): Kind {
    var isBitField3 := class_ == "Map" && field == "bit_field3" && type_ == "SMI";
    if type_ == "int" || (isBitField3 && ((major == 3 && minor >= 28) || (major == 4 && minor <= 7))) then Small
    else if type_ == "char" then Chars
    else Word
  }

  // The version makes a difference for that field alone.
  lemma KindIsVersionFreeIff(class_: string, field: string, type_: string)
    ensures (forall major: nat, minor: nat, major': nat, minor': nat ::
               KindOf(major, minor, class_, field, type_) == KindOf(major', minor', class_, field, type_))
       <==> !(class_ == "Map" && field == "bit_field3" && type_ == "SMI")
    ensures forall major, minor :: KindOf(major, minor, class_, field, type_) == Chars <==> type_ == "char"
    ensures forall major, minor | type_ == "int" :: KindOf(major, minor, class_, field, type_) == Small
  {
    if class_ == "Map" && field == "bit_field3" && type_ == "SMI" {
      assert KindOf(3, 28, class_, field, type_) == Small && KindOf(3, 27, class_, field, type_) == Word;
    }
  }

  ghost predicate SortedByName(classes: seq<Class>) {
    forall i, j | 0 <= i < j < |classes| :: StrCmp(classes[i].name, classes[j].name) < 0
  }

  ghost predicate SortedByOffset(fields: seq<Field>) {
    forall i, j | 0 <= i < j < |fields| :: fields[i].offset < fields[j].offset
  }

  predicate Mentions(sym: Symbol, name: string) {
    match sym
    case Parent(child, parent) => name == child || name == parent
    case FieldOf(class_, _) => name == class_
  }

  ghost predicate Mentioned(symbols: set<Symbol>, name: string) {
    exists sym :: sym in symbols && Mentions(sym, name)
  }

  // No class has two parents, or two fields at one offset.
  ghost predicate Consistent(symbols: set<Symbol>) {
    && (forall s, t | s in symbols && t in symbols && s.Parent? && t.Parent? && s.child == t.child :: s == t)
    && (forall s, t | s in symbols && t in symbols && s.FieldOf? && t.FieldOf?
                      && s.class_ == t.class_ && s.field.offset == t.field.offset :: s == t)
  }

  // A class as some symbols describe it, before the offsets are computed.
  ghost predicate Described(c: Class, symbols: set<Symbol>) {
    && SortedByOffset(c.fields)
    && (forall f :: f in c.fields <==> FieldOf(c.name, f) in symbols)
    && (forall p :: c.parent == Some(p) <==> Parent(c.name, p) in symbols)
    && c.start == 0 && c.end == None
  }

  ghost predicate Has(classes: seq<Class>, name: string) {
    exists i :: 0 <= i < |classes| && classes[i].name == name
  }

  // The table that the symbols call for: each class they mention once, in order of the names.
  // In between, classes may have been created for a symbol that is still to be recorded.
  ghost predicate Canonical(classes: seq<Class>, symbols: set<Symbol>, created: set<string>) {
    && SortedByName(classes)
    && (forall i | 0 <= i < |classes| :: Described(classes[i], symbols))
    && (forall name :: Has(classes, name) <==> Mentioned(symbols, name) || name in created)
  }

  function Blank(name: string): Class {
    Class(name, [], None, 0, None)
  }

  function Symbols(syms: seq<Symbol>): set<Symbol> {
    set sym | sym in syms
  }

  function Insert<T>(s: seq<T>, i: nat, x: T): seq<T>
    requires i <= |s|
  {
    s[..i] + [x] + s[i..]
  }

  // A new field goes before the first one with a larger offset.
  function InsertField(fields: seq<Field>, f: Field): seq<Field> {
    if fields == [] || fields[0].offset > f.offset then [f] + fields
    else [fields[0]] + InsertField(fields[1..], f)
  }

  lemma {:induction false} InsertFieldIsInsert(fields: seq<Field>, n: nat, f: Field)
    requires n <= |fields| && forall j | 0 <= j < n :: fields[j].offset <= f.offset
    requires n < |fields| ==> fields[n].offset > f.offset
    ensures InsertField(fields, f) == Insert(fields, n, f)
  {
    if n > 0 {
      InsertFieldIsInsert(fields[1..], n - 1, f);
      assert Insert(fields, n, f) == [fields[0]] + Insert(fields[1..], n - 1, f);
    }
  }

  // Two fields may come in either order exactly if they are at different offsets: this is why the
  // table depends on the order of symbols that give one offset of a class to two fields.
  lemma InsertionsCommuteIff(fields: seq<Field>, f: Field, g: Field)
    ensures InsertField(InsertField(fields, f), g) == InsertField(InsertField(fields, g), f)
       <==> f.offset != g.offset || f == g
  {
    if f.offset == g.offset {
      var n := Place(fields, f.offset);
      EqualOffsetsKeepOrder(fields, f, g);
      EqualOffsetsKeepOrder(fields, g, f);
      assert (fields[..n] + [f, g] + fields[n..])[n] == f && (fields[..n] + [g, f] + fields[n..])[n] == g;
    } else if f.offset < g.offset {
      InsertionsCommute(fields, f, g);
    } else {
      InsertionsCommute(fields, g, f);
    }
  }

  // Of two fields at one offset, the one that comes first stays first.
  lemma EqualOffsetsKeepOrder(fields: seq<Field>, f: Field, g: Field)
    requires f.offset == g.offset
    ensures var n := Place(fields, f.offset);
            InsertField(InsertField(fields, f), g) == fields[..n] + [f, g] + fields[n..]
  {
    var n := Place(fields, f.offset);
    InsertFieldIsInsert(fields, n, f);
    var after := Insert(fields, n, f);
    InsertFieldIsInsert(after, n + 1, g);
    InsertTwice(fields, n, f, g);
  }

  lemma InsertTwice<T>(s: seq<T>, n: nat, x: T, y: T)
    requires n <= |s|
    ensures Insert(Insert(s, n, x), n + 1, y) == s[..n] + [x, y] + s[n..]
  {
  }

  // Where a field with this offset goes.
  function Place(fields: seq<Field>, offset: nat): (n: nat)
    ensures n <= |fields| && (n < |fields| ==> fields[n].offset > offset)
    ensures forall j | 0 <= j < n :: fields[j].offset <= offset
  {
    if fields == [] || fields[0].offset > offset then 0 else 1 + Place(fields[1..], offset)
  }

  lemma {:induction false} InsertionsCommute(fields: seq<Field>, f: Field, g: Field)
    requires f.offset < g.offset
    ensures InsertField(InsertField(fields, f), g) == InsertField(InsertField(fields, g), f)
  {
    if fields == [] || fields[0].offset > f.offset {
      assert ([f] + fields)[1..] == fields;
      assert InsertField(InsertField(fields, f), g) == [f] + InsertField(fields, g);
    } else {
      InsertionsCommute(fields[1..], f, g);
      assert ([fields[0]] + InsertField(fields[1..], f))[1..] == InsertField(fields[1..], f);
      assert ([fields[0]] + InsertField(fields[1..], g))[1..] == InsertField(fields[1..], g);
    }
  }

  // The parent relation is acyclic: ranks decrease from a class to its parent.
  ghost predicate Ranked(classes: seq<Class>, rank: map<string, nat>) {
    forall i | 0 <= i < |classes| ::
      && classes[i].name in rank && classes[i].end.None? && classes[i].start == 0
      && (classes[i].parent.Some? ==>
            && Has(classes, classes[i].parent.value) && classes[i].parent.value in rank
            && rank[classes[i].parent.value] < rank[classes[i].name])
  }

  ghost function IndexOf(classes: seq<Class>, name: string): (i: nat)
    requires Has(classes, name)
    ensures i < |classes| && classes[i].name == name
  {
    if classes[0].name == name then 0
    else
      assert Has(classes[1..], name) by {
        var j :| 0 <= j < |classes| && classes[j].name == name;
        assert classes[1..][j - 1].name == name;
      }
      1 + IndexOf(classes[1..], name)
  }

  lemma {:induction false} IndexIsFirst(classes: seq<Class>, name: string, p: nat)
    requires p < |classes| && classes[p].name == name && Has(classes, name)
    requires forall j | 0 <= j < p :: classes[j].name != name
    ensures IndexOf(classes, name) == p
  {
    if p > 0 {
      assert classes[0].name != name && classes[1..][p - 1].name == name;
      IndexIsFirst(classes[1..], name, p - 1);
    }
  }

  // Where the fields of a class start: where those of its parent end.
  ghost function Start(classes: seq<Class>, rank: map<string, nat>, i: nat): nat
    requires Ranked(classes, rank) && i < |classes|
    decreases rank[classes[i].name], 0
  {
    match classes[i].parent
    case None => 0
    case Some(p) => End(classes, rank, IndexOf(classes, p))
  }

  // And where they end: a word after the last one.
  ghost function End(classes: seq<Class>, rank: map<string, nat>, i: nat): nat
    requires Ranked(classes, rank) && i < |classes|
    decreases rank[classes[i].name], 1
  {
    var fields := classes[i].fields;
    if fields == [] then Start(classes, rank, i) else fields[|fields| - 1].offset + PS
  }

  ghost function Computed(classes: seq<Class>, rank: map<string, nat>, i: nat): Class
    requires Ranked(classes, rank) && i < |classes|
  {
    classes[i].(start := Start(classes, rank, i), end := Some(End(classes, rank, i)))
  }

  // Some classes have been given their offsets, the others are as they were.
  ghost predicate InProgress(orig: seq<Class>, rank: map<string, nat>, classes: seq<Class>)
    requires Ranked(orig, rank)
  {
    |classes| == |orig|
    && forall i | 0 <= i < |classes| :: classes[i] == orig[i] || classes[i] == Computed(orig, rank, i)
  }

  // In terms of the symbols: a class extends from its parent's end to a word after the largest
  // offset of its own fields.
  lemma EndIsAfterLargestOffset(classes: seq<Class>, symbols: set<Symbol>, rank: map<string, nat>, i: nat)
    requires Canonical(classes, symbols, {}) && Ranked(classes, rank) && i < |classes|
    ensures forall f | FieldOf(classes[i].name, f) in symbols :: f.offset + PS <= End(classes, rank, i)
    ensures if exists f :: FieldOf(classes[i].name, f) in symbols
            then exists f :: FieldOf(classes[i].name, f) in symbols && f.offset + PS == End(classes, rank, i)
            else End(classes, rank, i) == Start(classes, rank, i)
  {
    var c := classes[i];
    assert Described(c, symbols);
    if c.fields != [] {
      var last := c.fields[|c.fields| - 1];
      assert last in c.fields && FieldOf(c.name, last) in symbols;
    }
  }

  // The position of a list element after something may have been inserted at i.
  function Moved(m: nat, i: nat, inserted: bool): nat {
    if inserted && i <= m then m + 1 else m
  }

  class Table {
    var classes: seq<Class>       // v8_classes

    constructor ()
      ensures classes == []
    {
      classes := [];
    }

    // conf_class_findcreate()
    method FindCreate(name: string) returns (i: nat)
      requires SortedByName(classes)
      modifies this
      ensures SortedByName(classes)
      ensures i < |classes| && classes[i].name == name
      ensures if Has(old(classes), name) then classes == old(classes)
              else i <= |old(classes)| && classes == Insert(old(classes), i, Blank(name))
    {
      i := 0;
      while i < |classes|
        invariant classes == old(classes) && 0 <= i <= |classes|
        invariant forall j | 0 <= j < i :: StrCmp(classes[j].name, name) < 0
      {
        var cmp := StrCmp(classes[i].name, name);
        StrCmpSign(classes[i].name, name);
        if cmp == 0 {
          return;
        }
        if cmp > 0 {
          break;
        }
        i := i + 1;
      }
      InsertKeepsNames(classes, i, Blank(name));
      classes := Insert(classes, i, Blank(name));
    }

    // conf_field_create()
    method FieldCreate(i: nat, field: Field)
      requires i < |classes|
      modifies this
      ensures var c := old(classes)[i];
              classes == old(classes)[i := c.(fields := InsertField(c.fields, field))]
    {
      var fields := classes[i].fields;
      var n := 0;
      if !(fields == [] || fields[0].offset > field.offset) {
        n := 1;
        while n < |fields|
          invariant classes == old(classes) && 1 <= n <= |fields|
          invariant forall j | 0 <= j < n :: fields[j].offset <= field.offset
        {
          if fields[n].offset > field.offset {
            break;
          }
          n := n + 1;
        }
      }
      InsertFieldIsInsert(fields, n, field);
      classes := classes[i := classes[i].(fields := Insert(fields, n, field))];
    }

    // The class that a symbol names, created on demand.
    method ClassFor(name: string, ghost symbols: set<Symbol>, ghost created: set<string>) returns (i: nat)
      requires Canonical(classes, symbols, created)
      modifies this
      ensures Canonical(classes, symbols, created + {name}) && i < |classes| && classes[i].name == name
      ensures forall m: nat | m < |old(classes)| ::
                var m' := Moved(m, i, |classes| > |old(classes)|);
                m' < |classes| && classes[m'].name == old(classes)[m].name
    {
      i := FindCreate(name);
      CreatedIsCanonical(old(classes), symbols, created, name, i, classes);
    }

    // conf_update_field()
    method UpdateField(sym: Symbol, ghost symbols: set<Symbol>)
      requires sym.FieldOf? && sym !in symbols && Consistent(symbols + {sym}) && Canonical(classes, symbols, {})
      modifies this
      ensures Canonical(classes, symbols + {sym}, {})
    {
      var i := ClassFor(sym.class_, symbols, {});
      FieldIsNew(classes[i], symbols, sym);
      FieldIsRecorded(classes, symbols, i, sym);
      FieldCreate(i, sym.field);
    }

    // conf_update_parent()
    method UpdateParent(sym: Symbol, ghost symbols: set<Symbol>)
      requires sym.Parent? && sym !in symbols && Consistent(symbols + {sym}) && Canonical(classes, symbols, {})
      modifies this
      ensures Canonical(classes, symbols + {sym}, {})
    {
      var i := ClassFor(sym.child, symbols, {});
      var n := |classes|;
      var j := ClassFor(sym.parent, symbols, {sym.child});
      i := Moved(i, j, |classes| > n);      // in C the class found first keeps its address
      ParentIsRecorded(classes, symbols, i, sym);
      classes := classes[i := classes[i].(parent := Some(sym.parent))];
    }

    // conf_class_compute_offsets(), on the class at position i.
    method ComputeOffsets(i: nat, ghost orig: seq<Class>, ghost rank: map<string, nat>)
      requires Ranked(orig, rank) && InProgress(orig, rank, classes) && i < |classes| && classes[i].end.None?
      modifies this
      ensures InProgress(orig, rank, classes) && classes[i].end.Some?
      ensures forall j | 0 <= j < |classes| && old(classes)[j].end.Some? :: classes[j].end.Some?
      ensures forall j | 0 <= j < |classes| && rank[orig[j].name] > rank[orig[i].name] :: classes[j] == old(classes)[j]
      decreases rank[orig[i].name], 1
    {
      assert classes[i].start == 0;
      var start := 0;
      if classes[i].parent.Some? {
        start := ParentEnd(i, orig, rank);
      }
      var fields := classes[i].fields;
      var end := if fields == [] then start else fields[|fields| - 1].offset + PS;
      classes := classes[i := classes[i].(start := start, end := Some(end))];
    }

    // The end of a class's parent, which is computed first if need be.
    method ParentEnd(i: nat, ghost orig: seq<Class>, ghost rank: map<string, nat>) returns (end: nat)
      requires Ranked(orig, rank) && InProgress(orig, rank, classes) && i < |classes| && classes[i].parent.Some?
      modifies this
      ensures InProgress(orig, rank, classes) && end == Start(orig, rank, i)
      ensures forall j | 0 <= j < |classes| && old(classes)[j].end.Some? :: classes[j].end.Some?
      ensures forall j | 0 <= j < |classes| && rank[orig[j].name] >= rank[orig[i].name] :: classes[j] == old(classes)[j]
      decreases rank[orig[i].name], 0
    {
      var p := Lookup(classes[i].parent.value, orig);
      if classes[p].end.None? {
        ComputeOffsets(p, orig, rank);
      }
      end := classes[p].end.value;
    }

    // The position of the class that a parent pointer refers to.
    method Lookup(name: string, ghost orig: seq<Class>) returns (p: nat)
      requires Has(orig, name) && |orig| == |classes| && forall j | 0 <= j < |orig| :: orig[j].name == classes[j].name
      ensures p < |orig| && p == IndexOf(orig, name)
    {
      p := 0;
      while p < |classes|
        invariant p <= |classes| && forall j | 0 <= j < p :: orig[j].name != name
      {
        if classes[p].name == name {
          IndexIsFirst(orig, name, p);
          return;
        }
        p := p + 1;
      }
    }

    // The pass over all classes at the end of autoconfigure().
    method ComputeAllOffsets(ghost rank: map<string, nat>)
      requires Ranked(classes, rank) && forall i | 0 <= i < |classes| :: classes[i].start == 0 && classes[i].end == None
      modifies this
      ensures |classes| == |old(classes)|
      ensures forall i | 0 <= i < |classes| :: classes[i] == Computed(old(classes), rank, i)
    {
      ghost var orig := classes;
      for i := 0 to |classes|
        invariant InProgress(orig, rank, classes)
        invariant forall j | 0 <= j < i :: classes[j].end.Some?
      {
        if classes[i].end.None? {
          ComputeOffsets(i, orig, rank);
        }
      }
    }

    // The pass over all symbols, in whatever order they come.
    method Configure(syms: seq<Symbol>)
      requires classes == [] && (forall i, j | 0 <= i < j < |syms| :: syms[i] != syms[j])
      requires Consistent(Symbols(syms))
      modifies this
      ensures Canonical(classes, Symbols(syms), {})
    {
      ghost var done: set<Symbol> := {};
      for n := 0 to |syms|
        invariant done == Symbols(syms[..n])
        invariant Canonical(classes, done, {})
      {
        assert syms[n] !in syms[..n];
        assert done + {syms[n]} == Symbols(syms[..n + 1]);
        if syms[n].Parent? {
          UpdateParent(syms[n], done);
        } else {
          UpdateField(syms[n], done);
        }
        done := done + {syms[n]};
      }
      assert syms[..|syms|] == syms;
    }
  }

  // The offsets computed do not depend on the ranks, which only show that there are no cycles.
  lemma {:induction false} OffsetsAreRankFree(classes: seq<Class>, rank: map<string, nat>,
                                                rank': map<string, nat>, i: nat)
    requires Ranked(classes, rank) && Ranked(classes, rank') && i < |classes|
    ensures Start(classes, rank, i) == Start(classes, rank', i) && End(classes, rank, i) == End(classes, rank', i)
    decreases rank[classes[i].name]
  {
    if classes[i].parent.Some? {
      OffsetsAreRankFree(classes, rank, rank', IndexOf(classes, classes[i].parent.value));
    }
  }

  // No class is its own ancestor.
  ghost predicate Ranks(symbols: set<Symbol>, rank: map<string, nat>) {
    && (forall name: string | Mentioned(symbols, name) :: name in rank)
    && (forall s | s in symbols && s.Parent? :: s.child in rank && s.parent in rank && rank[s.parent] < rank[s.child])
  }

  ghost predicate Acyclic(symbols: set<Symbol>) {
    exists rank :: Ranks(symbols, rank)
  }

  lemma AcyclicIsRanked(classes: seq<Class>, symbols: set<Symbol>, rank: map<string, nat>)
    requires Canonical(classes, symbols, {}) && Ranks(symbols, rank)
    ensures Ranked(classes, rank)
  {
    forall i | 0 <= i < |classes|
      ensures classes[i].name in rank && classes[i].end.None? && classes[i].start == 0
      ensures classes[i].parent.Some? ==>
                && Has(classes, classes[i].parent.value) && classes[i].parent.value in rank
                && rank[classes[i].parent.value] < rank[classes[i].name]
    {
      assert Described(classes[i], symbols) && Has(classes, classes[i].name);
      if classes[i].parent.Some? {
        var s := Parent(classes[i].name, classes[i].parent.value);
        assert s in symbols && Mentions(s, classes[i].parent.value);
      }
    }
  }

  // The table after both passes.
  ghost predicate HasOffsets(final: seq<Class>, base: seq<Class>, rank: map<string, nat>) {
    && Ranked(base, rank) && |final| == |base|
    && forall i | 0 <= i < |final| :: final[i] == Computed(base, rank, i)
  }

  ghost predicate IsFinal(final: seq<Class>, symbols: set<Symbol>) {
    exists base, rank :: Canonical(base, symbols, {}) && HasOffsets(final, base, rank)
  }

  // The set of symbols determines the finished table, with the start and the end of every class.
  lemma FinalTableIsUnique(a: seq<Class>, b: seq<Class>, symbols: set<Symbol>)
    requires IsFinal(a, symbols) && IsFinal(b, symbols)
    ensures a == b
  {
    var base, rank :| Canonical(base, symbols, {}) && HasOffsets(a, base, rank);
    var base', rank' :| Canonical(base', symbols, {}) && HasOffsets(b, base', rank');
    TableIsUnique(base, base', symbols);
    forall i | 0 <= i < |a| ensures a[i] == b[i] {
      OffsetsAreRankFree(base, rank, rank', i);
    }
  }

  // In terms of the symbols: a class starts where its parent ends, or at 0, and ends a word after the
  // largest offset of its own fields, or where it starts.
  ghost predicate StartsAndEnds(table: seq<Class>, symbols: set<Symbol>, c: Class) {
    && c.end.Some?
    && (forall p | p in table && Parent(c.name, p.name) in symbols :: p.end == Some(c.start))
    && ((forall p: string :: Parent(c.name, p) !in symbols) ==> c.start == 0)
    && (forall f | FieldOf(c.name, f) in symbols :: f.offset + 8 <= c.end.value)
    && if exists f :: FieldOf(c.name, f) in symbols
       then exists f :: FieldOf(c.name, f) in symbols && f.offset + 8 == c.end.value
       else c.end == Some(c.start)
  }

  lemma FinalTableIsExact(final: seq<Class>, symbols: set<Symbol>)
    requires IsFinal(final, symbols)
    ensures forall c | c in final :: StartsAndEnds(final, symbols, c)
  {
    var base, rank :| Canonical(base, symbols, {}) && HasOffsets(final, base, rank);
    forall i | 0 <= i < |final| ensures StartsAndEnds(final, symbols, final[i]) {
      assert Described(base[i], symbols);
      EndIsAfterLargestOffset(base, symbols, rank, i);
      ParentEndsAtStart(final, base, symbols, rank, i);
    }
  }

  lemma ParentEndsAtStart(final: seq<Class>, base: seq<Class>, symbols: set<Symbol>, rank: map<string, nat>, i: nat)
    requires Canonical(base, symbols, {}) && HasOffsets(final, base, rank) && i < |final|
    ensures forall p | p in final && Parent(final[i].name, p.name) in symbols :: p.end == Some(final[i].start)
    ensures (forall p: string :: Parent(final[i].name, p) !in symbols) ==> final[i].start == 0
  {
    assert Described(base[i], symbols) && final[i] == Computed(base, rank, i);
    forall p | p in final && Parent(final[i].name, p.name) in symbols ensures p.end == Some(final[i].start) {
      var j :| 0 <= j < |final| && final[j] == p;
      assert base[i].parent == Some(p.name) && base[j].name == p.name;
      var k := IndexOf(base, p.name);
      if j != k {
        NamesDiffer(base, j, k);
      }
    }
  }

  // Both passes of autoconfigure(), for symbols in any order.
  method Autoconfigure(syms: seq<Symbol>) returns (table: Table)
    requires forall i, j | 0 <= i < j < |syms| :: syms[i] != syms[j]
    requires Consistent(Symbols(syms)) && Acyclic(Symbols(syms))
    ensures fresh(table) && IsFinal(table.classes, Symbols(syms))
  {
    table := new Table();
    table.Configure(syms);
    ghost var base := table.classes;
    ghost var rank :| Ranks(Symbols(syms), rank);
    AcyclicIsRanked(base, Symbols(syms), rank);
    assert forall i | 0 <= i < |base| :: Described(base[i], Symbols(syms));
    table.ComputeAllOffsets(rank);
    assert HasOffsets(table.classes, base, rank);
  }

  lemma InsertKeepsOffsets(fields: seq<Field>, n: nat, f: Field)
    requires SortedByOffset(fields) && n <= |fields| && forall g | g in fields :: g.offset != f.offset
    requires forall j | 0 <= j < n :: fields[j].offset <= f.offset
    requires n < |fields| ==> fields[n].offset > f.offset
    ensures SortedByOffset(Insert(fields, n, f))
  {
    assert forall j | 0 <= j < |fields| :: fields[j] in fields;
  }

  lemma HasAfterInsert(classes: seq<Class>, i: nat, c: Class, name: string)
    requires i <= |classes|
    ensures Has(Insert(classes, i, c), name) <==> Has(classes, name) || name == c.name
  {
    var after := Insert(classes, i, c);
    assert after[i] == c;
    if Has(classes, name) {
      var j :| 0 <= j < |classes| && classes[j].name == name;
      assert after[if j < i then j else j + 1] == classes[j];
    }
    if Has(after, name) {
      var j :| 0 <= j < |after| && after[j].name == name;
      assert j != i ==> classes[if j < i then j else j - 1] == after[j];
    }
  }

  // Creating a class on demand.
  lemma CreatedIsCanonical(classes: seq<Class>, symbols: set<Symbol>, created: set<string>, name: string, i: nat,
                           after: seq<Class>)
    requires Canonical(classes, symbols, created) && SortedByName(after)
    requires if Has(classes, name) then after == classes else i <= |classes| && after == Insert(classes, i, Blank(name))
    ensures Canonical(after, symbols, created + {name})
  {
    if !Has(classes, name) {
      forall n ensures Has(after, n) <==> Mentioned(symbols, n) || n in created + {name} {
        HasAfterInsert(classes, i, Blank(name), n);
      }
      BlankIsDescribed(symbols, name);
    }
  }

  lemma BlankIsDescribed(symbols: set<Symbol>, name: string)
    requires !Mentioned(symbols, name)
    ensures Described(Blank(name), symbols)
  {
    assert forall sym | sym in symbols :: !Mentions(sym, name);
  }

  lemma FieldIsNew(c: Class, symbols: set<Symbol>, sym: Symbol)
    requires Described(c, symbols) && sym.FieldOf? && sym.class_ == c.name
    requires sym !in symbols && Consistent(symbols + {sym})
    ensures forall f | f in c.fields :: f.offset != sym.field.offset
  {
    forall f | f in c.fields ensures f.offset != sym.field.offset {
      assert FieldOf(c.name, f) in symbols + {sym};
    }
  }

  lemma NamesDiffer(classes: seq<Class>, i: nat, j: nat)
    requires SortedByName(classes) && i < |classes| && j < |classes| && i != j
    ensures classes[i].name != classes[j].name
  {
    StrCmpSign(classes[i].name, classes[j].name);
    assert StrCmp(classes[if i < j then i else j].name, classes[if i < j then j else i].name) < 0;
  }

  lemma MentionedMore(symbols: set<Symbol>, sym: Symbol, name: string)
    ensures Mentioned(symbols + {sym}, name) <==> Mentioned(symbols, name) || Mentions(sym, name)
  {
  }

  lemma InsertedField(fields: seq<Field>, new_: Field)
    requires SortedByOffset(fields) && forall f | f in fields :: f.offset != new_.offset
    ensures SortedByOffset(InsertField(fields, new_))
    ensures forall f :: f in InsertField(fields, new_) <==> f in fields || f == new_
  {
    var k := Place(fields, new_.offset);
    InsertFieldIsInsert(fields, k, new_);
    InsertKeepsOffsets(fields, k, new_);
    assert fields == fields[..k] + fields[k..];
  }

  lemma FieldIsRecorded(classes: seq<Class>, symbols: set<Symbol>, i: nat, sym: Symbol)
    requires sym.FieldOf? && i < |classes| && classes[i].name == sym.class_
    requires Canonical(classes, symbols, {sym.class_})
    requires forall f | f in classes[i].fields :: f.offset != sym.field.offset
    ensures var fields := InsertField(classes[i].fields, sym.field);
            Canonical(classes[i := classes[i].(fields := fields)], symbols + {sym}, {})
  {
    InsertedField(classes[i].fields, sym.field);
    var c := classes[i].(fields := InsertField(classes[i].fields, sym.field));
    var after := classes[i := c];
    forall j | 0 <= j < |after| ensures Described(after[j], symbols + {sym}) {
      assert Described(classes[j], symbols);
      if j != i {
        NamesDiffer(classes, i, j);
      }
    }
    SameNames(classes, after, symbols, sym, {sym.class_});
  }

  lemma ParentIsRecorded(classes: seq<Class>, symbols: set<Symbol>, i: nat, sym: Symbol)
    requires sym.Parent? && sym !in symbols && Consistent(symbols + {sym})
    requires i < |classes| && classes[i].name == sym.child
    requires Canonical(classes, symbols, {sym.child} + {sym.parent})
    ensures Canonical(classes[i := classes[i].(parent := Some(sym.parent))], symbols + {sym}, {})
  {
    var after := classes[i := classes[i].(parent := Some(sym.parent))];
    forall j | 0 <= j < |after| ensures Described(after[j], symbols + {sym}) {
      assert Described(classes[j], symbols);
      if j != i {
        NamesDiffer(classes, i, j);
      } else {
        forall p | Parent(sym.child, p) in symbols + {sym} ensures p == sym.parent {
          assert sym in symbols + {sym};
        }
      }
    }
    SameNames(classes, after, symbols, sym, {sym.child} + {sym.parent});
  }

  // Recording a symbol in classes that have been created for it changes no names.
  lemma SameNames(classes: seq<Class>, after: seq<Class>, symbols: set<Symbol>, sym: Symbol, created: set<string>)
    requires Canonical(classes, symbols, created) && |after| == |classes|
    requires forall j | 0 <= j < |classes| :: after[j].name == classes[j].name
    requires forall name :: name in created <==> Mentions(sym, name)
    ensures SortedByName(after)
    ensures forall name :: Has(after, name) <==> Mentioned(symbols + {sym}, name) || name in {}
  {
    forall name ensures Has(after, name) <==> Mentioned(symbols + {sym}, name) {
      MentionedMore(symbols, sym, name);
      assert Has(after, name) <==> Has(classes, name) by {
        if Has(after, name) {
          var j :| 0 <= j < |after| && after[j].name == name;
          assert classes[j].name == name;
        }
        if Has(classes, name) {
          var j :| 0 <= j < |classes| && classes[j].name == name;
          assert after[j].name == name;
        }
      }
    }
  }

  ghost predicate StrictlySorted<T(!new)>(less: (T, T) -> bool, s: seq<T>) {
    forall i, j | 0 <= i < j < |s| :: less(s[i], s[j])
  }

  lemma Inhabited<T(!new)>(s: seq<T>)
    ensures s == [] || exists x :: x in s
  {
    assert s != [] ==> s[0] in s;
  }

  lemma HeadIsLeast<T(!new)>(less: (T, T) -> bool, s: seq<T>, x: T)
    requires StrictlySorted(less, s) && x in s
    ensures x == s[0] || less(s[0], x)
  {
    var i :| 0 <= i < |s| && s[i] == x;
  }

  // A strictly sorted list is determined by its elements.
  lemma {:induction false} SortedListIsUnique<T(!new)>(less: (T, T) -> bool, a: seq<T>, b: seq<T>)
    requires forall x, y :: less(x, y) ==> !less(y, x)
    requires StrictlySorted(less, a) && StrictlySorted(less, b) && forall x :: x in a <==> x in b
    ensures a == b
  {
    if a == [] {
      Inhabited(b);
    } else {
      assert a[0] in b && |b| > 0 && b[0] in a;
      HeadIsLeast(less, b, a[0]);
      HeadIsLeast(less, a, b[0]);
      forall x ensures x in a[1..] <==> x in b[1..] {
        if x in a[1..] {
          assert x in a;
        }
        if x in b[1..] {
          assert x in b;
        }
      }
      SortedListIsUnique(less, a[1..], b[1..]);
      assert a == [a[0]] + a[1..] && b == [b[0]] + b[1..];
    }
  }

  function Names(classes: seq<Class>): seq<string> {
    seq(|classes|, i requires 0 <= i < |classes| => classes[i].name)
  }

  // The table does not depend on the order of the symbols: their set determines it.
  lemma TableIsUnique(a: seq<Class>, b: seq<Class>, symbols: set<Symbol>)
    requires Canonical(a, symbols, {}) && Canonical(b, symbols, {})
    ensures a == b
  {
    NamesAreUnique(a, b, symbols);
    forall i | 0 <= i < |a| ensures a[i] == b[i] {
      assert Names(a)[i] == Names(b)[i];
      ClassIsUnique(a[i], b[i], symbols);
    }
  }

  lemma NamesAreUnique(a: seq<Class>, b: seq<Class>, symbols: set<Symbol>)
    requires Canonical(a, symbols, {}) && Canonical(b, symbols, {})
    ensures Names(a) == Names(b)
  {
    var less := (x: string, y: string) => StrCmp(x, y) < 0;
    forall x: string, y: string | less(x, y) ensures !less(y, x) {
      StrCmpSign(x, y);
    }
    forall name ensures name in Names(a) <==> name in Names(b) {
      InNames(a, name);
      InNames(b, name);
      assert Has(a, name) <==> Mentioned(symbols, name) || name in {};
    }
    SortedListIsUnique(less, Names(a), Names(b));
  }

  lemma InNames(classes: seq<Class>, name: string)
    ensures name in Names(classes) <==> Has(classes, name)
  {
    if Has(classes, name) {
      var i :| 0 <= i < |classes| && classes[i].name == name;
      assert Names(classes)[i] == name;
    }
  }

  lemma ClassIsUnique(a: Class, b: Class, symbols: set<Symbol>)
    requires Described(a, symbols) && Described(b, symbols) && a.name == b.name
    ensures a == b
  {
    SortedListIsUnique((f: Field, g: Field) => f.offset < g.offset, a.fields, b.fields);
    if a.parent.Some? {
      assert Parent(a.name, a.parent.value) in symbols;
    } else if b.parent.Some? {
      assert Parent(b.name, b.parent.value) in symbols;
    }
  }

  lemma InsertKeepsNames(classes: seq<Class>, i: nat, c: Class)
    requires SortedByName(classes) && i <= |classes|
    requires forall j | 0 <= j < i :: StrCmp(classes[j].name, c.name) < 0
    requires i < |classes| ==> StrCmp(classes[i].name, c.name) > 0
    ensures SortedByName(Insert(classes, i, c))
    ensures !Has(classes, c.name)
  {
    forall j | i <= j < |classes| ensures StrCmp(c.name, classes[j].name) < 0 {
      StrCmpSign(classes[i].name, c.name);
      if i < j {
        StrCmpTransitive(c.name, classes[i].name, classes[j].name);
      }
    }
    StrCmpSign(c.name, c.name);
  }
}
