// Iterating the elements of FixedArrays, a page at a time, and of JSArrays on top of that
// (src/mdb_v8_subr.c:67-119, src/mdb_v8_array.c:115-152).

module ArrayIteration {
  import opened CoreFile
  import opened Helpers

  const PAGE: nat := 1024

  // A v8fixedarray_t: its data starts at `data`, and `elements` is what is stored there.
  datatype FixedArray = FixedArray(data: int, elements: seq<nat>) {
    ghost predicate In(core: Core) {
      forall i | 0 <= i < |elements| && data + PS * i in core.words :: core.words[data + PS * i] == elements[i]
    }
  }

  // Calling back for each element from `index` on, until a callback returns non-zero.
  function Visit<S>(cb: (nat, nat, S) -> (S, int), elements: seq<nat>, index: nat, s: S): (S, int)
    decreases |elements| - index
  {
    if index >= |elements| then (s, 0)
    else
      var (s', rv) := cb(index, elements[index], s);
      if rv != 0 then (s', rv) else Visit(cb, elements, index + 1, s')
  }

  // Going over the first n elements, and then over the others.
  lemma {:induction false} VisitSplit<S>(cb: (nat, nat, S) -> (S, int), elements: seq<nat>, index: nat, n: nat, s: S)
    requires index <= n <= |elements|
    ensures var (s', rv) := Visit(cb, elements[..n], index, s);
            Visit(cb, elements, index, s) == if rv != 0 then (s', rv) else Visit(cb, elements, n, s')
    decreases n - index
  {
    if index < n {
      var (s', rv) := cb(index, elements[index], s);
      assert elements[..n][index] == elements[index];
      if rv == 0 {
        VisitSplit(cb, elements, index + 1, n, s');
      }
    }
  }

  predicate PageReadable(core: Core, fa: FixedArray, index: nat) {
    forall i | index <= i < index + PAGE && i < |fa.elements| :: fa.data + PS * i in core.words
  }

  // How many elements the loop gets to when no callback stops it: the loop test compares with
  // length - 1, so a page that would hold just the last element is not read.
  function Reached(length: nat): nat {
    if length > 1 && length % PAGE == 1 then length - 1 else length
  }

  // The number of elements that come before the first page that cannot be read.
  function ReadablePrefix(core: Core, fa: FixedArray, index: nat, n: nat): (k: nat)
    requires n <= |fa.elements|
    ensures k <= n && (index <= n ==> index <= k)
    decreases n - index
  {
    if index >= n then n
    else if PageReadable(core, fa, index) then ReadablePrefix(core, fa, index + PAGE, n)
    else index
  }

  // mdb_vread() of one page.
  method ReadPage(core: Core, fa: FixedArray, buf: array<nat>, index: nat, n: nat) returns (ok: bool)
    requires fa.In(core) && buf.Length == PAGE && index + n <= |fa.elements|
    requires n == if |fa.elements| - index < PAGE then |fa.elements| - index else PAGE
    modifies buf
    ensures ok <==> PageReadable(core, fa, index)
    ensures ok ==> forall i | 0 <= i < n :: buf[i] == fa.elements[index + i]
  {
    for i := 0 to n
      invariant forall k | index <= k < index + i :: fa.data + PS * k in core.words && buf[k - index] == fa.elements[k]
    {
      if fa.data + PS * (index + i) !in core.words {
        return false;
      }
      buf[i] := core.words[fa.data + PS * (index + i)];
    }
    return true;
  }

  // What the iteration does in all: it visits the elements it reaches, in order and once each,
  // unless a callback or an unreadable page stops it.
  function Iteration<S>(core: Core, fa: FixedArray, cb: (nat, nat, S) -> (S, int), s0: S): (S, int) {
    var n := Reached(|fa.elements|);
    var readable := ReadablePrefix(core, fa, 0, n);
    var (s, rv) := Visit(cb, fa.elements[..readable], 0, s0);
    (s, if rv == 0 && readable < n then -1 else rv)
  }

  // The callbacks for one page that has been read.
  method VisitPage<S>(fa: FixedArray, cb: (nat, nat, S) -> (S, int), buf: array<nat>, index: nat, n: nat, s0: S)
    returns (s: S, rv: int, i: nat)
    requires n <= buf.Length && index + n <= |fa.elements| && forall i | 0 <= i < n :: buf[i] == fa.elements[index + i]
    ensures (s, rv) == Visit(cb, fa.elements[..index + n], index, s0) && i <= n && (rv == 0 ==> i == n)
  {
    s, rv, i := s0, 0, 0;
    while i < n
      invariant i <= n && rv == 0
      invariant Visit(cb, fa.elements[..index + n], index, s0) == Visit(cb, fa.elements[..index + n], index + i, s)
    {
      var (s', r) := cb(index + i, buf[i], s);
      assert fa.elements[..index + n][index + i] == buf[i];
      s, rv := s', r;
      if rv != 0 {
        return;
      }
      i := i + 1;
    }
  }

  // One turn of the loop has called back for a page: if a callback stopped it, that is the result.
  lemma StopIsResult<S>(core: Core, fa: FixedArray, cb: (nat, nat, S) -> (S, int), index: nat, s0: S, s: S, rv: int)
    requires index <= ReadablePrefix(core, fa, 0, Reached(|fa.elements|))
    requires (s, rv) == Visit(cb, fa.elements[..index], 0, s0) && rv != 0
    ensures (s, rv) == Iteration(core, fa, cb, s0)
  {
    var readable := ReadablePrefix(core, fa, 0, Reached(|fa.elements|));
    assert fa.elements[..readable][..index] == fa.elements[..index];
    VisitSplit(cb, fa.elements[..readable], 0, index, s0);
  }

  // Going on after the first elements.
  lemma VisitOn<S>(cb: (nat, nat, S) -> (S, int), elements: seq<nat>, index: nat, m: nat, s0: S, s: S)
    requires index <= m <= |elements| && Visit(cb, elements[..index], 0, s0) == (s, 0)
    ensures Visit(cb, elements[..m], 0, s0) == Visit(cb, elements[..m], index, s)
  {
    assert elements[..m][..index] == elements[..index];
    VisitSplit(cb, elements[..m], 0, index, s0);
  }

  // One turn of the loop: a page is read and called back for, unless it cannot be read.
  method IterPage<S>(core: Core, fa: FixedArray, cb: (nat, nat, S) -> (S, int), buf: array<nat>, index: nat,
                     ghost s0: S, before: S)
    returns (s: S, rv: int, next: nat)
    requires fa.In(core) && buf.Length == PAGE && index % PAGE == 0 && index < Reached(|fa.elements|)
    requires Visit(cb, fa.elements[..index], 0, s0) == (before, 0)
    requires var n := Reached(|fa.elements|); ReadablePrefix(core, fa, 0, n) == ReadablePrefix(core, fa, index, n)
    modifies buf
    ensures rv != 0 ==> (s, rv) == Iteration(core, fa, cb, s0)
    ensures rv == 0 ==> next == Min(index + PAGE, |fa.elements|) && Visit(cb, fa.elements[..next], 0, s0) == (s, 0)
    ensures rv == 0 ==> PageReadable(core, fa, index)
  {
    var length := |fa.elements|;
    var count := Min(PAGE, length - index);
    var ok := ReadPage(core, fa, buf, index, count);
    if !ok {
      return before, -1, index;
    }
    VisitOn(cb, fa.elements, index, index + count, s0, before);
    var visited;
    s, rv, visited := VisitPage(fa, cb, buf, index, count, before);
    if rv != 0 {
      StopIsResult(core, fa, cb, index + count, s0, s, rv);
    }
    next := index + visited;
  }

  method IterElements<S>(core: Core, fa: FixedArray, cb: (nat, nat, S) -> (S, int), s0: S) returns (s: S, rv: int)
    requires fa.In(core)
    ensures (s, rv) == Iteration(core, fa, cb, s0)
  {
    var length := |fa.elements|;
    s, rv := s0, 0;
    if length == 0 {
      return;
    }
    ghost var n := Reached(length);
    var buf := new nat[PAGE];
    var index, more := 0, true;
    while more
      invariant 0 <= index <= length && (index % PAGE == 0 || index == length)
      invariant if more then index < n else index == n
      invariant Visit(cb, fa.elements[..index], 0, s0) == (s, 0)
      invariant ReadablePrefix(core, fa, 0, n) == ReadablePrefix(core, fa, index, n)
      decreases length - index, more
    {
      s, rv, index := IterPage(core, fa, cb, buf, index, s0, s);
      if rv != 0 {
        return;
      }
      more := index < length - 1;
    }
    assert ReadablePrefix(core, fa, 0, n) == n;
  }

  // The callback that notes what it is called with.
  function Note(index: nat, value: nat, seen: seq<(nat, nat)>): (seq<(nat, nat)>, int) {
    (seen + [(index, value)], 0)
  }

  ghost predicate AllReadable(core: Core, fa: FixedArray) {
    forall i | 0 <= i < |fa.elements| :: fa.data + PS * i in core.words
  }

  lemma {:induction false} NotesInOrder(elements: seq<nat>, index: nat, seen: seq<(nat, nat)>)
    requires index <= |elements|
    requires seen == seq(index, i requires 0 <= i < index => (i, elements[i]))
    ensures Visit(Note, elements, index, seen)
         == (seq(|elements|, i requires 0 <= i < |elements| => (i, elements[i])), 0)
    decreases |elements| - index
  {
    if index < |elements| {
      NotesInOrder(elements, index + 1, seen + [(index, elements[index])]);
    }
  }

  lemma {:induction false} ReadableToTheEnd(core: Core, fa: FixedArray, index: nat, n: nat)
    requires n <= |fa.elements| && AllReadable(core, fa)
    ensures ReadablePrefix(core, fa, index, n) == n
    decreases n - index
  {
    if index < n {
      ReadableToTheEnd(core, fa, index + PAGE, n);
    }
  }

  // On a readable array the elements are visited in order and once each, all of them but for the
  // last one of an array of 1025, 2049, ... elements: the iteration is complete exactly when the
  // length is not one of those.
  lemma CompleteIff(core: Core, fa: FixedArray)
    requires AllReadable(core, fa)
    ensures var (seen, rv) := Iteration(core, fa, Note, []);
            var length := |fa.elements|;
            && rv == 0
            && |seen| in {length, length - 1}
            && (forall i | 0 <= i < |seen| :: seen[i] == (i, fa.elements[i]))
            && (|seen| == length <==> !(length > 1 && length % PAGE == 1))
  {
    var n := Reached(|fa.elements|);
    ReadableToTheEnd(core, fa, 0, n);
    NotesInOrder(fa.elements[..n], 0, []);
  }

  // An input that fails: element 1024 of an array of 1025 elements is never visited.
  lemma LastElementIsMissed(core: Core, fa: FixedArray)
    requires AllReadable(core, fa) && |fa.elements| == 1025
    ensures |Iteration(core, fa, Note, []).0| == 1024
  {
    CompleteIff(core, fa);
  }

  // An unreadable page stops the iteration there, with an error, after all the elements before it.
  lemma UnreadablePageStops(core: Core, fa: FixedArray, page: nat)
    requires page * PAGE < Reached(|fa.elements|) && !PageReadable(core, fa, page * PAGE)
    requires forall p: nat | p < page :: PageReadable(core, fa, p * PAGE)
    ensures var (seen, rv) := Iteration(core, fa, Note, []);
            && rv == -1
            && |seen| == page * PAGE
            && forall i | 0 <= i < |seen| :: seen[i] == (i, fa.elements[i])
  {
    PrefixEndsAt(core, fa, 0, page);
    NotesInOrder(fa.elements[..page * PAGE], 0, []);
  }

  lemma {:induction false} PrefixEndsAt(core: Core, fa: FixedArray, from: nat, page: nat)
    requires from <= page && page * PAGE < Reached(|fa.elements|) && !PageReadable(core, fa, page * PAGE)
    requires forall p: nat | p < page :: PageReadable(core, fa, p * PAGE)
    ensures ReadablePrefix(core, fa, from * PAGE, Reached(|fa.elements|)) == page * PAGE
    decreases page - from
  {
    if from < page {
      PrefixEndsAt(core, fa, from + 1, page);
      assert (from + 1) * PAGE == from * PAGE + PAGE;
    }
  }

  // v8array_iter_one(): the callback between the two, with v8ai_rv in its state.
  function IterOne<S>(length: nat, func: (nat, nat, S) -> (S, int)): ((nat, nat, (S, int)) -> ((S, int), int)) {
    (index: nat, value: nat, state: (S, int)) =>
      if index >= length then (state, -1)
      else
        var (s, rv) := func(index, value, state.0);
        ((s, rv), if rv == 0 then 0 else -1)
  }

  lemma {:induction false} IterOneStopsAtLength<S>(length: nat, func: (nat, nat, S) -> (S, int), elements: seq<nat>,
                                                   index: nat, s: S)
    requires index <= Min(length, |elements|)
    ensures Visit(IterOne(length, func), elements, index, (s, 0)).0
         == Visit(func, elements[..Min(length, |elements|)], index, s)
    decreases |elements| - index
  {
    var short := elements[..Min(length, |elements|)];
    if index < |short| {
      assert short[index] == elements[index];
      var (s', rv) := func(index, elements[index], s);
      if rv == 0 {
        IterOneStopsAtLength(length, func, elements, index + 1, s');
      }
    }
  }

  // A JSArray: its own length, which may be less than the length of the FixedArray behind it.
  datatype JSArray = JSArray(length: nat, elements: FixedArray)

  // What v8array_iter_elements() does in all: it visits the first elements only, no more than the
  // array's length, up to the first callback that does not return zero, whose result it returns.
  function ArrayIterated<S>(core: Core, a: JSArray, func: (nat, nat, S) -> (S, int), s0: S): (S, int) {
    var fa := a.elements;
    Visit(func, fa.elements[..Min(a.length, ReadablePrefix(core, fa, 0, Reached(|fa.elements|)))], 0, s0)
  }

  // The error of a page that cannot be read is dropped.
  method IterArray<S>(core: Core, a: JSArray, func: (nat, nat, S) -> (S, int), s0: S) returns (s: S, rv: int)
    requires a.elements.In(core)
    ensures (s, rv) == ArrayIterated(core, a, func, s0)
  {
    s, rv := s0, 0;
    if a.length > 0 {
      var state, _ := IterElements(core, a.elements, IterOne(a.length, func), (s, rv));
      ghost var fa := a.elements;
      ghost var readable := ReadablePrefix(core, fa, 0, Reached(|fa.elements|));
      IterOneStopsAtLength(a.length, func, fa.elements[..readable], 0, s0);
      assert fa.elements[..readable][..Min(a.length, readable)] == fa.elements[..Min(a.length, readable)];
      s, rv := state.0, state.1;
    }
  }

  // The readable prefix reaches m exactly when every page that starts before m can be read.
  lemma {:induction false} PrefixReachesIff(core: Core, fa: FixedArray, from: nat, n: nat, m: nat)
    requires m <= n <= |fa.elements|
    ensures m <= ReadablePrefix(core, fa, from * PAGE, n)
       <==> forall p: nat | from <= p && p * PAGE < m :: PageReadable(core, fa, p * PAGE)
    decreases n - from * PAGE
  {
    if from * PAGE < n && PageReadable(core, fa, from * PAGE) {
      assert (from + 1) * PAGE == from * PAGE + PAGE;
      PrefixReachesIff(core, fa, from + 1, n, m);
    }
  }

  // When every element of a JSArray is seen, on any memory image: exactly when there are that many,
  // every page they begin in can be read, and the FixedArray is not one of the lengths above that is
  // full.  The result is success even if they are not.
  lemma ArrayIsSeenWhole(core: Core, a: JSArray)
    ensures var (seen, rv) := ArrayIterated(core, a, Note, []);
            var length := |a.elements.elements|;
            && rv == 0
            && |seen| <= a.length && |seen| <= length
            && (forall i | 0 <= i < |seen| :: seen[i] == (i, a.elements.elements[i]))
            && (|seen| == a.length <==>
                  && a.length <= length
                  && (forall p: nat | p * PAGE < a.length :: PageReadable(core, a.elements, p * PAGE))
                  && !(a.length == length && a.length > 1 && a.length % PAGE == 1))
  {
    var fa := a.elements;
    var n := Reached(|fa.elements|);
    NotesInOrder(fa.elements[..Min(a.length, ReadablePrefix(core, fa, 0, n))], 0, []);
    if a.length <= n {
      PrefixReachesIff(core, fa, 0, n, a.length);
    }
  }

  // An input that fails: of 2048 elements of which the second page cannot be read, only the first
  // 1024 are seen, and yet the result is success.
  lemma ReadErrorIsDropped(k: Constants)
    ensures var core := Core(map i | 0 <= i < 1024 :: PS * i := 0, map[], k);
            var a := JSArray(2048, FixedArray(0, seq(2048, _ => 0)));
            && a.elements.In(core)
            && |ArrayIterated(core, a, Note, []).0| == 1024
            && ArrayIterated(core, a, Note, []).1 == 0
  {
    var core := Core(map i | 0 <= i < 1024 :: PS * i := 0, map[], k);
    var a := JSArray(2048, FixedArray(0, seq(2048, _ => 0)));
    assert PageReadable(core, a.elements, 0);
    assert !PageReadable(core, a.elements, PAGE) by {
      assert a.elements.data + PS * PAGE !in core.words;
    }
    PrefixEndsAt(core, a.elements, 0, 1);
    NotesInOrder(a.elements.elements[..PAGE], 0, []);
  }
}
