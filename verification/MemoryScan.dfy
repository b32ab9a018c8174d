// dbi_ugrep(): scan mapped memory, a buffer at a time, for the words equal to an address
// (src/mdb_v8_dbi.c:48-111).

module MemoryScan {
  import opened CoreFile
  import opened Helpers

  // A prmap_t: mappings consist of whole pages, so of whole words.
  datatype Mapping = Mapping(vaddr: int, nwords: nat) {
    function Addr(i: int): int {
      vaddr + PS * i
    }
  }

  // The buffer of w words that is read for the words from index i on.
  predicate ChunkReadable(core: Core, m: Mapping, i: int, w: int) {
    forall k | i <= k < i + w && k < m.nwords :: m.Addr(k) in core.words
  }

  // The index at which the buffer that holds word i starts.
  function ChunkStart(i: nat, w: nat): (start: nat)
    requires w > 0
    ensures start <= i < start + w
  {
    if i < w then 0 else w + ChunkStart(i - w, w)
  }

  lemma {:induction false} ChunkStarts(base: nat, i: nat, w: nat)
    requires w > 0 && ChunkStart(base, w) == base && i < w
    ensures ChunkStart(base + i, w) == base && ChunkStart(base + w, w) == base + w
  {
    if base >= w {
      ChunkStarts(base - w, i, w);
    }
  }

  // Word i is found: the buffer it is read with can be read, and it has the value sought.
  predicate Hit(core: Core, m: Mapping, w: nat, target: int, i: nat)
    requires w > 0
  {
    ChunkReadable(core, m, ChunkStart(i, w), w) && m.Addr(i) in core.words && core.words[m.Addr(i)] == target
  }

  // The addresses of the words found from index lo up to hi, in order: a word-by-word scan.
  function Hits(core: Core, m: Mapping, w: nat, target: int, lo: nat, hi: nat): seq<int>
    requires w > 0
    decreases hi - lo
  {
    if lo >= hi then []
    else if Hit(core, m, w, target, lo) then [m.Addr(lo)] + Hits(core, m, w, target, lo + 1, hi)
    else Hits(core, m, w, target, lo + 1, hi)
  }

  function AllHits(core: Core, maps: seq<Mapping>, w: nat, target: int): seq<int>
    requires w > 0
  {
    if maps == [] then []
    else Hits(core, maps[0], w, target, 0, maps[0].nwords) + AllHits(core, maps[1..], w, target)
  }

  lemma {:induction false} HitsSplit(core: Core, m: Mapping, w: nat, target: int, lo: nat, mid: nat, hi: nat)
    requires w > 0 && lo <= mid <= hi
    ensures Hits(core, m, w, target, lo, hi) == Hits(core, m, w, target, lo, mid) + Hits(core, m, w, target, mid, hi)
    decreases mid - lo
  {
    if lo < mid {
      HitsSplit(core, m, w, target, lo + 1, mid, hi);
    }
  }

  // Words of an unreadable buffer are not found.
  lemma {:induction false} SkipChunk(core: Core, m: Mapping, w: nat, target: int, base: nat, lo: nat, hi: nat)
    requires w > 0 && ChunkStart(base, w) == base <= lo && hi <= base + w
    requires !ChunkReadable(core, m, base, w)
    ensures Hits(core, m, w, target, lo, hi) == []
    decreases hi - lo
  {
    if lo < hi {
      ChunkStarts(base, lo - base, w);
      SkipChunk(core, m, w, target, base, lo + 1, hi);
    }
  }

  ghost predicate Increasing(s: seq<int>) {
    forall x, y | 0 <= x < y < |s| :: s[x] < s[y]
  }

  // Exactly the words found are listed, once each and in increasing order.
  lemma {:induction false} HitsAreExact(core: Core, m: Mapping, w: nat, target: int, lo: nat, hi: nat)
    requires w > 0
    ensures Increasing(Hits(core, m, w, target, lo, hi))
    ensures forall a | a in Hits(core, m, w, target, lo, hi) :: m.Addr(lo) <= a
    ensures forall a :: a in Hits(core, m, w, target, lo, hi)
                   <==> exists i: nat | lo <= i < hi :: Hit(core, m, w, target, i) && a == m.Addr(i)
    decreases hi - lo
  {
    if lo < hi {
      HitsAreExact(core, m, w, target, lo + 1, hi);
      var rest := Hits(core, m, w, target, lo + 1, hi);
      assert forall y | 0 <= y < |rest| :: rest[y] in rest;
    }
  }

  // In terms of memory: a word of the mapping is found exactly if it has the value sought and every
  // word that shares its buffer can be read.
  lemma HitsInMemory(core: Core, m: Mapping, w: nat, target: int, a: int)
    requires w > 0
    ensures a in Hits(core, m, w, target, 0, m.nwords) <==>
              exists i: nat :: i < m.nwords && a == m.vaddr + 8 * i && IsFound(core, m, w, target, i)
  {
    HitsAreExact(core, m, w, target, 0, m.nwords);
    forall i: nat | i < m.nwords ensures Hit(core, m, w, target, i) <==> IsFound(core, m, w, target, i) {
      HitIff(core, m, w, target, i);
      assert m.Addr(i) == m.vaddr + 8 * i;
    }
    if i: nat :| i < m.nwords && a == m.vaddr + 8 * i && IsFound(core, m, w, target, i) {
      assert Hit(core, m, w, target, i) && a == m.Addr(i);
    }
  }

  // Word i is in buffer number q, of w words.
  predicate InBuffer(w: nat, q: nat, i: nat) {
    q * w <= i < q * w + w
  }

  ghost predicate ShareBuffer(w: nat, i: nat, k: nat) {
    exists q: nat :: InBuffer(w, q, i) && InBuffer(w, q, k)
  }

  ghost predicate IsFound(core: Core, m: Mapping, w: nat, target: int, i: nat)
    requires w > 0
  {
    && m.vaddr + 8 * i in core.words && core.words[m.vaddr + 8 * i] == target
    && forall k: nat | k < m.nwords && ShareBuffer(w, i, k) :: m.vaddr + 8 * k in core.words
  }

  lemma {:induction false} BufferOf(i: nat, w: nat) returns (q: nat)
    requires w > 0
    ensures ChunkStart(i, w) == q * w
  {
    q := 0;
    if i >= w {
      q := BufferOf(i - w, w);
      q := q + 1;
    }
  }

  lemma {:induction false} LaterBuffer(w: nat, p: nat, q: nat)
    requires p < q
    ensures p * w + w <= q * w
    decreases q
  {
    assert q * w == (q - 1) * w + w;
    if p < q - 1 {
      LaterBuffer(w, p, q - 1);
    }
  }

  lemma OneBuffer(w: nat, p: nat, q: nat, i: nat)
    requires InBuffer(w, p, i) && InBuffer(w, q, i)
    ensures p == q
  {
    if p < q {
      LaterBuffer(w, p, q);
    } else if q < p {
      LaterBuffer(w, q, p);
    }
  }

  lemma SameBuffer(w: nat, i: nat, k: nat)
    requires w > 0
    ensures ShareBuffer(w, i, k) <==> ChunkStart(i, w) <= k < ChunkStart(i, w) + w
  {
    var q := BufferOf(i, w);
    assert InBuffer(w, q, i);
    assert InBuffer(w, q, k) <==> ChunkStart(i, w) <= k < ChunkStart(i, w) + w;
    if p: nat :| InBuffer(w, p, i) && InBuffer(w, p, k) {
      OneBuffer(w, p, q, i);
    }
  }

  lemma HitIff(core: Core, m: Mapping, w: nat, target: int, i: nat)
    requires w > 0 && i < m.nwords
    ensures Hit(core, m, w, target, i) <==> IsFound(core, m, w, target, i)
  {
    forall k: nat ensures ShareBuffer(w, i, k) <==> ChunkStart(i, w) <= k < ChunkStart(i, w) + w {
      SameBuffer(w, i, k);
    }
    if IsFound(core, m, w, target, i) {
      forall k | ChunkStart(i, w) <= k < ChunkStart(i, w) + w && k < m.nwords ensures m.Addr(k) in core.words {
        assert ShareBuffer(w, i, k) && m.Addr(k) == m.vaddr + 8 * k;
      }
    }
    if Hit(core, m, w, target, i) {
      forall k: nat | k < m.nwords && ShareBuffer(w, i, k) ensures m.vaddr + 8 * k in core.words {
        assert m.Addr(k) == m.vaddr + 8 * k;
      }
    }
  }

  ghost predicate Disjoint(maps: seq<Mapping>) {
    forall j, k | 0 <= j < k < |maps| ::
      maps[j].Addr(maps[j].nwords) <= maps[k].vaddr || maps[k].Addr(maps[k].nwords) <= maps[j].vaddr
  }

  ghost predicate NoDuplicates<T>(s: seq<T>) {
    forall x, y | 0 <= x < y < |s| :: s[x] != s[y]
  }

  ghost predicate HitOfAll(core: Core, maps: seq<Mapping>, w: nat, target: int, a: int)
    requires w > 0
  {
    exists j: nat, i: nat | j < |maps| && i < maps[j].nwords ::
      Hit(core, maps[j], w, target, i) && a == maps[j].Addr(i)
  }

  lemma HitOfFirst(core: Core, maps: seq<Mapping>, w: nat, target: int, a: int)
    requires w > 0 && maps != []
    ensures HitOfAll(core, maps, w, target, a) <==>
              || HitOfAll(core, maps[1..], w, target, a)
              || exists i: nat | i < maps[0].nwords :: Hit(core, maps[0], w, target, i) && a == maps[0].Addr(i)
  {
    if HitOfAll(core, maps[1..], w, target, a) {
      var j: nat, i: nat :| j < |maps[1..]| && i < maps[1..][j].nwords
                            && Hit(core, maps[1..][j], w, target, i) && a == maps[1..][j].Addr(i);
      assert Hit(core, maps[j + 1], w, target, i) && a == maps[j + 1].Addr(i);
    }
    if HitOfAll(core, maps, w, target, a) {
      var j: nat, i: nat :| j < |maps| && i < maps[j].nwords
                            && Hit(core, maps[j], w, target, i) && a == maps[j].Addr(i);
      if j > 0 {
        assert Hit(core, maps[1..][j - 1], w, target, i) && a == maps[1..][j - 1].Addr(i);
      }
    }
  }

  // The whole scan finds exactly the words with the sought value that lie in readable buffers.
  lemma {:induction false} AllHitsAreExact(core: Core, maps: seq<Mapping>, w: nat, target: int)
    requires w > 0
    ensures forall a :: a in AllHits(core, maps, w, target) <==> HitOfAll(core, maps, w, target, a)
  {
    if maps != [] {
      HitsAreExact(core, maps[0], w, target, 0, maps[0].nwords);
      AllHitsAreExact(core, maps[1..], w, target);
      forall a ensures a in AllHits(core, maps, w, target) <==> HitOfAll(core, maps, w, target, a) {
        HitOfFirst(core, maps, w, target, a);
      }
    }
  }

  // Each of them once, if mappings do not overlap.
  lemma {:induction false} AllHitsAreDistinct(core: Core, maps: seq<Mapping>, w: nat, target: int)
    requires w > 0 && Disjoint(maps)
    ensures NoDuplicates(AllHits(core, maps, w, target))
  {
    if maps != [] {
      var first, rest := Hits(core, maps[0], w, target, 0, maps[0].nwords), AllHits(core, maps[1..], w, target);
      HitsAreExact(core, maps[0], w, target, 0, maps[0].nwords);
      AllHitsAreExact(core, maps[1..], w, target);
      AllHitsAreDistinct(core, maps[1..], w, target);
      forall a | a in rest ensures a !in first {
        var j: nat, i: nat :| j < |maps[1..]| && i < maps[1..][j].nwords
                              && Hit(core, maps[1..][j], w, target, i) && a == maps[1..][j].Addr(i);
        assert maps[1..][j] == maps[j + 1];
      }
      assert forall x | 0 <= x < |first| :: first[x] in first;
      assert forall y | 0 <= y < |rest| :: rest[y] in rest;
    }
  }

  // Calling back for each address in turn, until a callback returns non-zero.  The state that
  // callbacks reach through their argument is passed along.
  function Deliver<S>(cb: (int, S) -> (S, int), hits: seq<int>, s: S): (S, int) {
    if hits == [] then (s, 0)
    else
      var (s', rv) := cb(hits[0], s);
      if rv != 0 then (s', rv) else Deliver(cb, hits[1..], s')
  }

  lemma {:induction false} DeliverConcat<S>(cb: (int, S) -> (S, int), a: seq<int>, b: seq<int>, s: S)
    ensures var (s', rv) := Deliver(cb, a, s);
            Deliver(cb, a + b, s) == if rv != 0 then (s', rv) else Deliver(cb, b, s')
  {
    if a == [] {
      assert a + b == b;
    } else {
      assert (a + b)[1..] == a[1..] + b;
      var (s', rv) := cb(a[0], s);
      if rv == 0 {
        DeliverConcat(cb, a[1..], b, s');
      }
    }
  }

  // mdb_vread() of the n words from index `base` on.
  method ReadWords(core: Core, m: Mapping, buf: array<int>, base: nat, n: nat) returns (ok: bool)
    requires n <= buf.Length && n == if buf.Length < m.nwords - base then buf.Length else m.nwords - base
    modifies buf
    ensures ok <==> ChunkReadable(core, m, base, buf.Length)
    ensures ok ==> forall i | 0 <= i < n :: m.Addr(base + i) in core.words && buf[i] == core.words[m.Addr(base + i)]
  {
    for i := 0 to n
      invariant forall k | base <= k < base + i :: m.Addr(k) in core.words && buf[k - base] == core.words[m.Addr(k)]
    {
      if m.Addr(base + i) !in core.words {
        return false;
      }
      buf[i] := core.words[m.Addr(base + i)];
    }
    return true;
  }

  // The inner loop of ugrep_mapping(): n words of a buffer that has been read at index `base`.
  method ScanBuffer<S>(core: Core, m: Mapping, buf: array<int>, base: nat, n: nat, target: int,
                       cb: (int, S) -> (S, int), s0: S) returns (s: S, result: int)
    requires 0 < buf.Length && n <= buf.Length && ChunkStart(base, buf.Length) == base
    requires ChunkReadable(core, m, base, buf.Length)
    requires forall i | 0 <= i < n :: m.Addr(base + i) in core.words && buf[i] == core.words[m.Addr(base + i)]
    ensures (s, result) == Deliver(cb, Hits(core, m, buf.Length, target, base, base + n), s0)
  {
    var w := buf.Length;
    s, result := s0, 0;
    for i := 0 to n
      invariant Deliver(cb, Hits(core, m, w, target, base, base + n), s0)
             == Deliver(cb, Hits(core, m, w, target, base + i, base + n), s)
      invariant result == 0
    {
      ChunkStarts(base, i, w);
      if buf[i] == target {
        var vaddr := m.Addr(base) + PS * i;
        var (s', rv) := cb(vaddr, s);
        assert Hits(core, m, w, target, base + i, base + n)
            == [vaddr] + Hits(core, m, w, target, base + i + 1, base + n);
        s, result := s', rv;
        if result != 0 {
          return;
        }
      }
    }
  }

  // One turn of the outer loop of ugrep_mapping(): chunks that cannot be read are skipped.
  method UgrepChunk<S>(core: Core, m: Mapping, buf: array<int>, base: nat, n: nat, target: int,
                       cb: (int, S) -> (S, int), s0: S)
    returns (s: S, result: int)
    requires 0 < buf.Length && base <= m.nwords && n == Min(buf.Length, m.nwords - base)
    requires ChunkStart(base, buf.Length) == base
    modifies buf
    ensures (s, result) == Deliver(cb, Hits(core, m, buf.Length, target, base, base + n), s0)
  {
    s, result := s0, 0;
    var ok := ReadWords(core, m, buf, base, n);
    if ok {
      s, result := ScanBuffer(core, m, buf, base, n, target, cb, s0);
    } else {
      SkipChunk(core, m, buf.Length, target, base, base, base + n);
    }
  }

  // ugrep_mapping(), with the callback's state in and out; `buf` is ug_buf.
  method UgrepMapping<S>(core: Core, m: Mapping, buf: array<int>, target: int, cb: (int, S) -> (S, int), s0: S)
    returns (s: S, result: int)
    requires buf.Length > 0
    modifies buf
    ensures (s, result) == Deliver(cb, Hits(core, m, buf.Length, target, 0, m.nwords), s0)
  {
    var w := buf.Length;
    s, result := s0, 0;
    var base := 0;
    while base < m.nwords
      invariant ChunkStart(base, w) == base
      invariant Deliver(cb, Hits(core, m, w, target, 0, m.nwords), s0)
             == Deliver(cb, Hits(core, m, w, target, base, m.nwords), s)
      invariant result == 0
      decreases m.nwords - base
    {
      var n := Min(w, m.nwords - base);
      HitsSplit(core, m, w, target, base, base + n, m.nwords);
      DeliverConcat(cb, Hits(core, m, w, target, base, base + n), Hits(core, m, w, target, base + n, m.nwords), s);
      s, result := UgrepChunk(core, m, buf, base, n, target, cb, s);
      if result != 0 {
        return;
      }
      ChunkStarts(base, 0, w);
      base := base + w;
    }
  }

  // dbi_ugrep()
  method Ugrep<S>(core: Core, maps: seq<Mapping>, w: nat, target: int, cb: (int, S) -> (S, int), s0: S)
    returns (s: S, result: int)
    requires w > 0
    ensures var (s', rv) := Deliver(cb, AllHits(core, maps, w, target), s0);
            s == s' && result == if rv != 0 then -1 else 0
  {
    var buf := new int[w];
    s := s0;
    for k := 0 to |maps|
      invariant Deliver(cb, AllHits(core, maps, w, target), s0) == Deliver(cb, AllHits(core, maps[k..], w, target), s)
    {
      ghost var hits := Hits(core, maps[k], w, target, 0, maps[k].nwords);
      assert maps[k..][1..] == maps[k + 1..];
      DeliverConcat(cb, hits, AllHits(core, maps[k + 1..], w, target), s);
      var rv;
      s, rv := UgrepMapping(core, maps[k], buf, target, cb, s);
      if rv != 0 {
        return s, -1;
      }
    }
    result := 0;
  }
}
