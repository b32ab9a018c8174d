// The N-way merge join that a JoinStream promises (tools/mdbv8diff/vstream-join.js:4-47):
// computed by FullJoin, and characterised without an algorithm by IsJoin.

module MergeJoin {
  import opened Wrappers

  // One datum of a source: its join key and everything else.
  datatype Row = Row(key: int, payload: int)

  // One output row: the key and, for each source, its row with that key or nothing.
  datatype Joined = Joined(key: int, columns: seq<Option<Row>>)

  function Total(rem: seq<seq<Row>>): nat {
    if rem == [] then 0 else |rem[0]| + Total(rem[1..])
  }

  // The least key among the first rows of the sources.
  function MinKey(rem: seq<seq<Row>>): Option<int> {
    if rem == [] then None
    else
      var n := |rem| - 1;
      var m := MinKey(rem[..n]);
      if rem[n] != [] && (m.None? || m.value > rem[n][0].key) then Some(rem[n][0].key) else m
  }

  predicate Matches(rows: seq<Row>, key: int) {
    rows != [] && rows[0].key == key
  }

  function JoinHeads(rem: seq<seq<Row>>, key: int): Joined {
    Joined(key, seq(|rem|, i requires 0 <= i < |rem| => if Matches(rem[i], key) then Some(rem[i][0]) else None))
  }

  function DropHeads(rem: seq<seq<Row>>, key: int): seq<seq<Row>> {
    seq(|rem|, i requires 0 <= i < |rem| => if Matches(rem[i], key) then rem[i][1..] else rem[i])
  }

  // Repeatedly join the first rows that have the least key.
  function FullJoin(rem: seq<seq<Row>>): seq<Joined>
    decreases Total(rem)
  {
    match MinKey(rem)
    case None => []
    case Some(key) =>
      DropHeadsShrinks(rem, key);
      [JoinHeads(rem, key)] + FullJoin(DropHeads(rem, key))
  }

  lemma {:induction false} MinKeyIsLeast(rem: seq<seq<Row>>)
    ensures MinKey(rem).None? <==> forall i | 0 <= i < |rem| :: rem[i] == []
    ensures MinKey(rem).Some? ==> exists i :: 0 <= i < |rem| && Matches(rem[i], MinKey(rem).value)
    ensures MinKey(rem).Some? ==> forall i | 0 <= i < |rem| && rem[i] != [] :: MinKey(rem).value <= rem[i][0].key
  {
    if rem != [] {
      var n := |rem| - 1;
      MinKeyIsLeast(rem[..n]);
      if MinKey(rem[..n]).Some? {
        var i :| 0 <= i < n && Matches(rem[..n][i], MinKey(rem[..n]).value);
        assert Matches(rem[i], MinKey(rem[..n]).value);
      }
      if MinKey(rem).Some? && MinKey(rem) != MinKey(rem[..n]) {
        assert Matches(rem[n], MinKey(rem).value);
      }
      assert forall i | 0 <= i < n :: rem[..n][i] == rem[i];
    }
  }

  lemma {:induction false} DropHeadsTotal(rem: seq<seq<Row>>, key: int)
    ensures Total(DropHeads(rem, key)) <= Total(rem)
    ensures (exists i :: 0 <= i < |rem| && Matches(rem[i], key)) ==> Total(DropHeads(rem, key)) < Total(rem)
  {
    if rem != [] {
      assert DropHeads(rem, key)[1..] == DropHeads(rem[1..], key);
      DropHeadsTotal(rem[1..], key);
      if !Matches(rem[0], key) && exists i :: 0 <= i < |rem| && Matches(rem[i], key) {
        var i :| 0 <= i < |rem| && Matches(rem[i], key);
        assert Matches(rem[1..][i - 1], key);
      }
    }
  }

  lemma DropHeadsShrinks(rem: seq<seq<Row>>, key: int)
    requires MinKey(rem) == Some(key)
    ensures Total(DropHeads(rem, key)) < Total(rem)
  {
    MinKeyIsLeast(rem);
    DropHeadsTotal(rem, key);
  }

  // The rows of one source that occur in the output, in order.
  function Column(out: seq<Joined>, i: nat): seq<Row> {
    if out == [] then []
    else if Present(out[0], i) then [out[0].columns[i].value] + Column(out[1..], i)
    else Column(out[1..], i)
  }

  predicate Present(r: Joined, i: nat) {
    i < |r.columns| && r.columns[i].Some?
  }

  ghost predicate Sorted(rows: seq<Row>) {
    forall a, b | 0 <= a < b < |rows| :: rows[a].key <= rows[b].key
  }

  // A joined row holds at least one row, and only rows with its key.
  ghost predicate RowWellFormed(r: Joined, n: nat) {
    && |r.columns| == n
    && (exists i: nat :: Present(r, i))
    && (forall i: nat | Present(r, i) :: r.columns[i].value.key == r.key)
  }

  // r2 may follow r1: keys do not decrease, and among rows with equal keys a source that still
  // has a row never leaves its place empty.
  ghost predicate MayFollow(r1: Joined, r2: Joined) {
    && r1.key <= r2.key
    && (r1.key == r2.key ==> forall i: nat | Present(r2, i) :: Present(r1, i))
  }

  // out is a join of the sources: every source's rows occur once and in order in its column,
  // each output row is well formed, and consecutive rows are compatible.
  ghost predicate IsJoin(rem: seq<seq<Row>>, out: seq<Joined>) {
    && (forall j | 0 <= j < |out| :: RowWellFormed(out[j], |rem|))
    && (forall i | 0 <= i < |rem| :: Column(out, i) == rem[i])
    && (forall j | 0 <= j < |out| - 1 :: MayFollow(out[j], out[j + 1]))
  }

  // Rows come out once each and in order, whether or not the sources are sorted.
  lemma {:induction false} JoinKeepsRows(rem: seq<seq<Row>>)
    ensures forall j | 0 <= j < |FullJoin(rem)| :: RowWellFormed(FullJoin(rem)[j], |rem|)
    ensures forall i | 0 <= i < |rem| :: Column(FullJoin(rem), i) == rem[i]
    decreases Total(rem)
  {
    MinKeyIsLeast(rem);
    if MinKey(rem).Some? {
      var key := MinKey(rem).value;
      DropHeadsShrinks(rem, key);
      JoinKeepsRows(DropHeads(rem, key));
      assert FullJoin(rem)[1..] == FullJoin(DropHeads(rem, key));
      var i :| 0 <= i < |rem| && Matches(rem[i], key);
      assert Present(JoinHeads(rem, key), i);
    }
  }

  lemma JoinIsSound(rem: seq<seq<Row>>)
    requires forall i | 0 <= i < |rem| :: Sorted(rem[i])
    ensures IsJoin(rem, FullJoin(rem))
  {
    JoinKeepsRows(rem);
    JoinIsCompatible(rem);
  }

  lemma {:induction false} JoinIsCompatible(rem: seq<seq<Row>>)
    requires forall i | 0 <= i < |rem| :: Sorted(rem[i])
    ensures forall j | 0 <= j < |FullJoin(rem)| - 1 :: MayFollow(FullJoin(rem)[j], FullJoin(rem)[j + 1])
    decreases Total(rem)
  {
    if MinKey(rem).Some? {
      var rest := DropHeads(rem, MinKey(rem).value);
      DropHeadsShrinks(rem, MinKey(rem).value);
      JoinIsCompatible(rest);
      if |FullJoin(rem)| >= 2 {
        FirstRowsCompatible(rem);
      }
      var out := FullJoin(rem);
      assert out[1..] == FullJoin(rest);
      forall j | 0 <= j < |out| - 1 ensures MayFollow(out[j], out[j + 1]) {
        if j > 0 {
          assert MayFollow(out[1..][j - 1], out[1..][j]);
        }
      }
    }
  }

  lemma FirstRowsCompatible(rem: seq<seq<Row>>)
    requires forall i | 0 <= i < |rem| :: Sorted(rem[i])
    requires |FullJoin(rem)| >= 2
    ensures MayFollow(FullJoin(rem)[0], FullJoin(rem)[1])
  {
    var key := MinKey(rem).value;
    var rest := DropHeads(rem, key);
    MinKeyIsLeast(rem);
    MinKeyIsLeast(rest);
    var key' := MinKey(rest).value;
    var i :| 0 <= i < |rest| && Matches(rest[i], key');
    assert key <= key';
    assert MayFollow(JoinHeads(rem, key), JoinHeads(rest, key'));
  }

  // Keys never decrease along the output.
  lemma {:induction false} KeysAscend(out: seq<Joined>, j: nat)
    requires j < |out| && forall a | 0 <= a < |out| - 1 :: MayFollow(out[a], out[a + 1])
    ensures out[0].key <= out[j].key
  {
    if j > 0 {
      KeysAscend(out, j - 1);
      assert MayFollow(out[j - 1], out[j]);
    }
  }

  // The first row of a column comes from the first output row in which the source is present.
  lemma {:induction false} ColumnHead(out: seq<Joined>, i: nat) returns (j: nat)
    requires Column(out, i) != []
    ensures j < |out| && Present(out[j], i) && out[j].columns[i].value == Column(out, i)[0]
    ensures forall a | 0 <= a < j :: !Present(out[a], i)
  {
    if Present(out[0], i) {
      j := 0;
    } else {
      j := ColumnHead(out[1..], i);
      j := j + 1;
    }
  }

  // In a join the first output row has the least key and takes every source that has it.
  lemma FirstRowIsForced(rem: seq<seq<Row>>, out: seq<Joined>)
    requires IsJoin(rem, out) && out != []
    ensures MinKey(rem) == Some(out[0].key) && out[0] == JoinHeads(rem, out[0].key)
  {
    var key := out[0].key;
    MinKeyIsLeast(rem);
    assert RowWellFormed(out[0], |rem|);
    var i0: nat :| Present(out[0], i0);
    assert Column(out, i0) == rem[i0] && Matches(rem[i0], key);
    forall i | 0 <= i < |rem| && rem[i] != []
      ensures key <= rem[i][0].key
      ensures Matches(rem[i], key) <==> Present(out[0], i)
      ensures Present(out[0], i) ==> out[0].columns[i].value == rem[i][0]
    {
      assert Column(out, i) == rem[i];
      var j := ColumnHead(out, i);
      KeysAscend(out, j);
      assert RowWellFormed(out[j], |rem|);
      if j > 0 {
        KeysAscend(out, j - 1);
        assert MayFollow(out[j - 1], out[j]);
      }
    }
    forall i | 0 <= i < |rem| && rem[i] == [] ensures !Present(out[0], i) {
      assert Column(out, i) == rem[i];
    }
  }

  // The join of the sources is unique: anything that satisfies IsJoin is what FullJoin computes.
  lemma {:induction false} JoinIsUnique(rem: seq<seq<Row>>, out: seq<Joined>)
    requires IsJoin(rem, out)
    ensures out == FullJoin(rem)
    decreases |out|
  {
    MinKeyIsLeast(rem);
    if out == [] {
      forall i | 0 <= i < |rem| ensures rem[i] == [] {
        assert Column(out, i) == rem[i];
      }
    } else {
      FirstRowIsForced(rem, out);
      var rest := DropHeads(rem, out[0].key);
      forall i | 0 <= i < |rest| ensures Column(out[1..], i) == rest[i] {
        assert Column(out, i) == rem[i];
      }
      forall j | 0 <= j < |out| - 2 ensures MayFollow(out[1..][j], out[1..][j + 1]) {
        assert MayFollow(out[j + 1], out[j + 2]);
      }
      JoinIsUnique(rest, out[1..]);
      DropHeadsShrinks(rem, out[0].key);
    }
  }
}
