// The event-driven join stream (tools/mdbv8diff/vstream-join.js:48-255).  Node's choices are
// nondeterministic here: when rows arrive at a source, when its 'end' event fires (after its rows
// are consumed), which events come next, also while push() runs, and what push() returns.

module JoinStreams {
  import opened Helpers
  import opened Wrappers
  import opened MergeJoin

  // An entry of js_sources, with the stream behind it.
  datatype Source = Source(
    rows: seq<Row>,             // everything the stream will ever emit
    available: nat,             // how many rows have arrived so far
    consumed: nat,              // how many rows read() has returned
    next: Option<Row>,          // src_next
    nextJoin: Option<int>,      // src_next_join
    lastJoin: Option<int>,      // src_last_join
    done: bool                  // src_done
  ) {
    // How many rows have been emitted as part of the output.
    function Emitted(): int {
      if next.Some? then consumed - 1 else consumed
    }

    ghost predicate Valid() {
      && consumed <= available <= |rows|
      && (next.Some? ==> consumed > 0 && next.value == rows[consumed - 1])
      && nextJoin == (if next.Some? then Some(next.value.key) else None)
      && lastJoin == (if Emitted() > 0 then Some(rows[Emitted() - 1].key) else None)
      && (done ==> consumed == |rows|)
    }

    ghost function Rest(): seq<Row>
      requires Valid()
    {
      rows[Emitted()..]
    }
  }

  ghost predicate AllValid(sources: seq<Source>) {
    forall i | 0 <= i < |sources| :: sources[i].Valid()
  }

  // Everything the sources will ever emit, and the part of it that has not been output yet.
  ghost function Rows(sources: seq<Source>): seq<seq<Row>> {
    seq(|sources|, i requires 0 <= i < |sources| => sources[i].rows)
  }

  ghost function Rem(sources: seq<Source>): seq<seq<Row>>
    requires AllValid(sources)
  {
    seq(|sources|, i requires 0 <= i < |sources| => sources[i].Rest())
  }

  // `key < src_last_join`.  Before a source's first row the right side is null, which compares
  // as 0 with a number and as NaN with a string that is no numeral.
  predicate OutOfOrder(numeric: bool, key: int, last: Option<int>) {
    match last
    case Some(k) => key < k
    case None => numeric && key < 0
  }

  predicate StepInOrder(numeric: bool, rows: seq<Row>, j: nat)
    requires j < |rows|
  {
    !OutOfOrder(numeric, rows[j].key, if j == 0 then None else Some(rows[j - 1].key))
  }

  // The first n rows of a source pass the stream's order check.
  ghost predicate InOrder(numeric: bool, rows: seq<Row>, n: nat)
    requires n <= |rows|
  {
    forall j: nat | j < n :: StepInOrder(numeric, rows, j)
  }

  // The row that a source holds fails the order check.
  predicate Offends(numeric: bool, s: Source) {
    s.next.Some? && OutOfOrder(numeric, s.next.value.key, s.lastJoin)
  }

  ghost function LastKey(out: seq<Joined>): Option<int> {
    if out == [] then None else Some(out[|out| - 1].key)
  }

  // A source without a row in hand was part of the last output row; a row in hand does not
  // come before that output row.
  ghost predicate CaughtUp(s: Source, out: seq<Joined>) {
    && (s.next.None? && s.consumed < |s.rows| ==> s.lastJoin == LastKey(out))
    && (s.next.Some? && out != [] ==> LastKey(out).value <= s.next.value.key)
  }

  ghost predicate Ascending(out: seq<Joined>) {
    forall a, b | 0 <= a < b < |out| :: out[a].key <= out[b].key
  }

  // Taking up the next row of a source.
  function WithRow(s: Source): Source
    requires s.consumed < s.available <= |s.rows|
  {
    var row := s.rows[s.consumed];
    s.(consumed := s.consumed + 1, next := Some(row), nextJoin := Some(row.key))
  }

  lemma ReadingKeepsOrder(numeric: bool, s: Source, out: seq<Joined>)
    requires s.Valid() && s.next.None? && s.consumed < s.available
    requires InOrder(numeric, s.rows, s.consumed) && CaughtUp(s, out)
    ensures WithRow(s).Valid() && WithRow(s).Rest() == s.Rest()
    ensures !Offends(numeric, WithRow(s)) ==>
              InOrder(numeric, s.rows, s.consumed + 1) && CaughtUp(WithRow(s), out)
  {
  }

  // A source takes up its next row, of `available` that have arrived.
  lemma TakingUpKeeps(numeric: bool, sources: seq<Source>, i: nat, available: nat, out: seq<Joined>)
    requires AllSound(numeric, sources, out) && i < |sources| && sources[i].next.None?
    requires sources[i].consumed < available <= |sources[i].rows|
    ensures var s := WithRow(sources[i].(available := available));
            var now := sources[i := s];
            && (forall j | 0 <= j < |now| :: now[j].Valid() && sources[j].Valid())
            && Rows(now) == Rows(sources) && Rem(now) == Rem(sources)
            && if OutOfOrder(numeric, s.next.value.key, s.lastJoin) then Stopped(numeric, now)
               else AllSound(numeric, now, out)
  {
    var was := sources[i].(available := available);
    var s := WithRow(was);
    assert Sound(numeric, sources[i], out);
    ReadingKeepsOrder(numeric, was, out);
    forall j | 0 <= j < |sources| ensures Sound(numeric, sources[j], out) {
    }
    if OutOfOrder(numeric, s.next.value.key, s.lastJoin) {
      assert Offends(numeric, sources[i := s][i]);
    }
  }

  // Giving up the row in hand if it has the join key.
  function Taken(s: Source, key: int): Source {
    if s.nextJoin == Some(key) then s.(lastJoin := s.nextJoin, nextJoin := None, next := None) else s
  }

  lemma TakingKeepsOrder(s: Source, key: int, out: seq<Joined>, row: Joined)
    requires s.Valid() && CaughtUp(s, out) && (s.next.Some? || s.done) && row.key == key
    requires s.Rest() != [] ==> key <= s.Rest()[0].key
    ensures Taken(s, key).Valid() && CaughtUp(Taken(s, key), out + [row])
    ensures Taken(s, key).Rest() == if Matches(s.Rest(), key) then s.Rest()[1..] else s.Rest()
    ensures Matches(s.Rest(), key) <==> s.nextJoin == Some(key)
    ensures Matches(s.Rest(), key) ==> s.next == Some(s.Rest()[0])
  {
  }

  // What can happen to a stream: rows arrive at a source, which becomes readable, a source ends, or
  // the consumer asks for data.
  datatype Event = Readable(source: nat, rows: nat) | End(source: nat) | Read

  // There is no row in hand, and the source may still have some.
  predicate IsBlocked(s: Source) {
    s.next.None? && !s.done
  }

  // And none of them has arrived.
  predicate IsStarved(s: Source) {
    IsBlocked(s) && s.consumed == s.available
  }

  ghost predicate AnyStarved(sources: seq<Source>) {
    exists i :: 0 <= i < |sources| && IsStarved(sources[i])
  }

  ghost predicate AnyBlocked(sources: seq<Source>) {
    exists i :: 0 <= i < |sources| && IsBlocked(sources[i])
  }

  // What a stream keeps about its sources and its output before any error.
  ghost predicate Sound(numeric: bool, s: Source, out: seq<Joined>) {
    s.Valid() && InOrder(numeric, s.rows, s.consumed) && CaughtUp(s, out)
  }

  ghost predicate AllSound(numeric: bool, sources: seq<Source>, out: seq<Joined>) {
    forall i | 0 <= i < |sources| :: Sound(numeric, sources[i], out)
  }

  // And after an error: some source holds a row that fails the order check.
  ghost predicate Stopped(numeric: bool, sources: seq<Source>) {
    && (forall i | 0 <= i < |sources| ::
          sources[i].Valid() && InOrder(numeric, sources[i].rows, sources[i].Emitted()))
    && exists i :: 0 <= i < |sources| && Offends(numeric, sources[i])
  }

  // A source whose 'end' event has fired.
  function Ended(sources: seq<Source>, i: nat): seq<Source>
    requires i < |sources|
  {
    sources[i := sources[i].(done := true)]
  }

  // A source at which up to n more rows have arrived.
  function Arrived(sources: seq<Source>, i: nat, n: nat): seq<Source>
    requires i < |sources|
  {
    sources[i := sources[i].(available := Min(sources[i].available + n, |sources[i].rows|))]
  }

  // What a source has in store makes no difference to what the stream keeps about it.
  lemma StoreMayChange(numeric: bool, sources: seq<Source>, i: nat, s: Source, out: seq<Joined>)
    requires AllValid(sources) && i < |sources| && s.Valid()
    requires s == sources[i].(available := s.available, done := s.done)
    ensures var now := sources[i := s];
            && AllValid(now) && Rows(now) == Rows(sources) && Rem(now) == Rem(sources)
            && (AllSound(numeric, sources, out) ==> AllSound(numeric, now, out))
            && (Stopped(numeric, sources) ==> Stopped(numeric, now))
  {
    if Stopped(numeric, sources) {
      var j :| 0 <= j < |sources| && Offends(numeric, sources[j]);
      assert Offends(numeric, sources[i := s][j]);
    }
    if AllSound(numeric, sources, out) {
      assert Sound(numeric, sources[i], out);
    }
  }

  // What the sources that have a row with the join key give for the output.
  function Columns(sources: seq<Source>, key: int): seq<Option<Row>> {
    seq(|sources|, i requires 0 <= i < |sources| => if sources[i].nextJoin == Some(key) then sources[i].next else None)
  }

  lemma TakingAllKeepsOrder(numeric: bool, was: seq<Source>, now: seq<Source>, out: seq<Joined>, key: int)
    requires AllSound(numeric, was, out) && !AnyBlocked(was) && MinKey(Rem(was)) == Some(key)
    requires |now| == |was| && forall i | 0 <= i < |now| :: now[i] == Taken(was[i], key)
    ensures AllSound(numeric, now, out + [Joined(key, Columns(was, key))])
    ensures Rows(now) == Rows(was) && Rem(now) == DropHeads(Rem(was), key)
    ensures Joined(key, Columns(was, key)) == JoinHeads(Rem(was), key)
  {
    var rem, row := Rem(was), Joined(key, Columns(was, key));
    MinKeyIsLeast(rem);
    forall i | 0 <= i < |was|
      ensures Sound(numeric, now[i], out + [row])
      ensures now[i].rows == was[i].rows && now[i].Rest() == DropHeads(rem, key)[i]
      ensures row.columns[i] == JoinHeads(rem, key).columns[i]
    {
      assert rem[i] == was[i].Rest() && Sound(numeric, was[i], out) && !IsBlocked(was[i]);
      TakingKeepsOrder(was[i], key, out, row);
    }
  }

  // The least key in hand does not come before the last output row.
  lemma LeastKeyAscends(numeric: bool, sources: seq<Source>, out: seq<Joined>, key: int)
    requires AllSound(numeric, sources, out) && !AnyBlocked(sources) && MinKey(Rem(sources)) == Some(key)
    requires Ascending(out)
    ensures forall row: Joined | row.key == key :: Ascending(out + [row])
  {
    MinKeyIsLeast(Rem(sources));
    var i :| 0 <= i < |sources| && Matches(Rem(sources)[i], key);
    assert Sound(numeric, sources[i], out) && !IsBlocked(sources[i]);
    assert out != [] ==> LastKey(out).value <= key;
  }

  lemma NothingRemains(sources: seq<Source>)
    requires AllValid(sources) && !AnyBlocked(sources) && MinKey(Rem(sources)) == None
    ensures forall i | 0 <= i < |sources| :: sources[i].Rest() == [] && sources[i].done
  {
    MinKeyIsLeast(Rem(sources));
    forall i | 0 <= i < |sources| ensures sources[i].Rest() == [] && sources[i].done {
      assert Rem(sources)[i] == sources[i].Rest() && !IsBlocked(sources[i]);
    }
  }

  class JoinStream {
    const numeric: bool           // join keys are numbers, rather than non-numeric strings
    var waiting: bool             // js_waiting
    var working: bool             // js_working
    var sources: seq<Source>      // js_sources
    var pushed: seq<Joined>       // every row given to push()
    var ended: bool               // push(null) has been called
    var errored: bool             // 'error' has been emitted
    ghost var stalled: bool       // the last push() asked for a pause, and _read() has not been called since

    // What holds whenever a handler starts, also while push() runs.
    ghost predicate Consistent()
      reads this
    {
      && sources != []
      && AllValid(sources)
      && Ascending(pushed)
      && (if errored then Stopped(numeric, sources) else AllSound(numeric, sources, pushed))
      && (ended ==> !errored && forall i | 0 <= i < |sources| :: sources[i].Rest() == [])
      && (waiting ==> !working && !ended && !stalled)
      && (errored ==> !working && !waiting)
    }

    // And whenever it is done: the stream waits only for a source from which nothing has arrived.
    ghost predicate Inv()
      reads this
    {
      Consistent() && (waiting ==> AnyStarved(sources))
    }

    // Until the next event there is nothing to do: for lack of data or of demand, or for good.
    ghost predicate AtRest()
      reads this
    {
      waiting || stalled || ended || errored
    }

    // What holds when none of the stream's own code runs.
    ghost predicate Valid()
      reads this
    {
      Inv() && !working
    }

    // The output so far and the join of what remains make up the join of everything.
    ghost predicate OnTrack()
      requires AllValid(sources)
      reads this
    {
      FullJoin(Rows(sources)) == pushed + FullJoin(Rem(sources))
    }

    constructor (numeric: bool, inputs: seq<seq<Row>>)
      requires inputs != []
      ensures Valid() && !waiting && !ended && !errored && !stalled && pushed == []
      ensures Rows(sources) == inputs == Rem(sources) && this.numeric == numeric
    {
      this.numeric := numeric;
      waiting, working, ended, errored, stalled := false, false, false, false, false;
      sources := seq(|inputs|, i requires 0 <= i < |inputs| => Source(inputs[i], 0, 0, None, None, None, false));
      pushed := [];
    }

    // src_stream.read(): the next row, or null if none has arrived, not even on being asked.  At the
    // end of the data the 'end' handler may run meanwhile; js_waiting is clear then, so it only sets
    // src_done.
    method StreamRead(i: nat) returns (datum: Option<Row>)
      requires i < |sources| && sources[i].Valid() && IsBlocked(sources[i])
      modifies this`sources
      ensures |sources| == |old(sources)| && sources == old(sources)[i := sources[i]]
      ensures var s := old(sources[i]);
              match datum
              case None =>
                s.consumed == s.available
                && (sources[i] == s || (s.consumed == |s.rows| && sources[i] == s.(done := true)))
              case Some(row) =>
                && s.consumed < sources[i].available <= |s.rows| && row == s.rows[s.consumed]
                && sources[i] == s.(consumed := s.consumed + 1, available := sources[i].available)
    {
      var available: nat :| sources[i].available <= available <= |sources[i].rows|;
      var s := sources[i].(available := available);
      if s.consumed < s.available {
        sources := sources[i := s.(consumed := s.consumed + 1)];
        datum := Some(s.rows[s.consumed]);
      } else {
        var ends: bool := *;
        if ends && s.consumed == |s.rows| {
          sources := sources[i := s.(done := true)];
        }
        datum := None;
      }
    }

    // One source's turn in the first loop of kick().
    method ReadSource(i: nat)
      requires Valid() && !waiting && !errored && !ended && i < |sources|
      modifies this`sources, this`errored
      ensures Valid() && Rows(sources) == old(Rows(sources)) && Rem(sources) == old(Rem(sources))
      ensures |sources| == |old(sources)| && sources == old(sources)[i := sources[i]]
      ensures IsBlocked(sources[i]) ==> IsStarved(sources[i])
    {
      var src := sources[i];
      if !IsBlocked(src) {
        return;
      }
      ghost var before := sources;
      var datum := StreamRead(i);
      if datum.None? {
        StoreMayChange(numeric, before, i, sources[i], pushed);
        return;
      }
      TakingUpKeeps(numeric, before, i, sources[i].available, pushed);
      sources := sources[i := sources[i].(next := datum, nextJoin := Some(datum.value.key))];
      assert sources == before[i := WithRow(before[i].(available := sources[i].available))];
      if OutOfOrder(numeric, datum.value.key, sources[i].lastJoin) {
        errored := true;
      }
    }

    // The first loop of kick(): have a row in hand from every source that still has one.
    method ReadSources() returns (blocked: bool)
      requires Valid() && !waiting && !errored && !ended
      modifies this`sources, this`errored
      ensures Valid() && |sources| == |old(sources)|
      ensures Rows(sources) == old(Rows(sources)) && Rem(sources) == old(Rem(sources))
      ensures !errored ==> (blocked <==> AnyBlocked(sources)) && (blocked <==> AnyStarved(sources))
    {
      blocked := false;
      var i := 0;
      while i < |sources|
        invariant 0 <= i <= |sources| == |old(sources)|
        invariant Valid() && !errored
        invariant Rows(sources) == old(Rows(sources)) && Rem(sources) == old(Rem(sources))
        invariant blocked <==> exists j :: 0 <= j < i && IsBlocked(sources[j])
        invariant forall j | 0 <= j < i && IsBlocked(sources[j]) :: IsStarved(sources[j])
      {
        ghost var before := sources;
        ReadSource(i);
        if errored {
          return;
        }
        assert forall j | 0 <= j < i :: sources[j] == before[j];
        blocked := blocked || IsBlocked(sources[i]);
        i := i + 1;
      }
    }

    // The second loop of kick(): the earliest join key in hand.
    method EarliestKey() returns (joinkey: Option<int>)
      requires AllValid(sources) && !AnyBlocked(sources)
      ensures joinkey == MinKey(Rem(sources))
    {
      ghost var rem := Rem(sources);
      joinkey := None;
      assert MinKey(rem[..0]) == None;
      for i := 0 to |sources|
        invariant joinkey == MinKey(rem[..i])
      {
        var src := sources[i];
        assert rem[..i + 1][..i] == rem[..i] && rem[..i + 1][i] == src.Rest();
        assert !IsBlocked(src);
        if src.nextJoin.Some? && (joinkey.None? || joinkey.value > src.nextJoin.value) {
          joinkey := src.nextJoin;
        }
      }
      assert rem[..|sources|] == rem;
    }

    // The third loop of kick(): build the output row and give up the rows that are part of it.
    method TakeHeads(joinkey: int) returns (output: Joined)
      requires AllValid(sources)
      modifies this`sources
      ensures |sources| == |old(sources)|
      ensures forall i | 0 <= i < |sources| :: sources[i] == Taken(old(sources)[i], joinkey)
      ensures output == Joined(joinkey, Columns(old(sources), joinkey))
    {
      ghost var was := sources;
      var columns: seq<Option<Row>> := [];
      for i := 0 to |sources|
        invariant |sources| == |was| && |columns| == i
        invariant forall j | 0 <= j < i :: sources[j] == Taken(was[j], joinkey)
        invariant forall j | i <= j < |was| :: sources[j] == was[j]
        invariant columns == Columns(was, joinkey)[..i]
      {
        var src := sources[i];
        assert Columns(was, joinkey)[..i + 1] == Columns(was, joinkey)[..i] + [Columns(was, joinkey)[i]];
        if src.nextJoin == Some(joinkey) {
          columns := columns + [src.next];
          sources := sources[i := src.(lastJoin := src.nextJoin, nextJoin := None, next := None)];
        } else {
          columns := columns + [None];
        }
      }
      output := Joined(joinkey, columns);
    }

    // Take the next row off the sources: exactly the first remaining rows with the least key.
    method Emit(joinkey: int) returns (output: Joined)
      requires AllSound(numeric, sources, pushed) && !AnyBlocked(sources) && MinKey(Rem(sources)) == Some(joinkey)
      modifies this`sources
      ensures |sources| == |old(sources)| && AllSound(numeric, sources, pushed + [output])
      ensures Rows(sources) == old(Rows(sources)) && Rem(sources) == DropHeads(old(Rem(sources)), joinkey)
      ensures output == JoinHeads(old(Rem(sources)), joinkey)
    {
      ghost var was := sources;
      output := TakeHeads(joinkey);
      TakingAllKeepsOrder(numeric, was, sources, pushed, joinkey);
    }

    // Any events that arrive while push() runs.  The handlers find js_working set: they note what
    // has ended, and a `_read` changes nothing at all.
    method Interrupt(events: seq<Event>)
      requires Inv() && working
      modifies this
      ensures Inv() && working && !waiting && !errored
      ensures pushed == old(pushed) && ended == old(ended) && stalled == old(stalled)
      ensures Rows(sources) == old(Rows(sources)) && Rem(sources) == old(Rem(sources))
      decreases Total(Rem(sources)), 0, 6
    {
      for n := 0 to |events|
        invariant Inv() && working && pushed == old(pushed) && ended == old(ended) && stalled == old(stalled)
        invariant Rows(sources) == old(Rows(sources)) && Rem(sources) == old(Rem(sources))
      {
        Handle(events[n]);
      }
    }

    // this.push(): events may arrive before it returns, and the consumer may ask for a pause.  It must
    // not be called during one.
    method Push(row: Joined) returns (keepgoing: bool)
      requires working && !waiting && !errored && !ended && !stalled && sources != []
      requires AllSound(numeric, sources, pushed + [row]) && Ascending(pushed + [row])
      modifies this
      ensures Inv() && working && !waiting && !errored && !ended && stalled == !keepgoing
      ensures pushed == old(pushed) + [row]
      ensures Rows(sources) == old(Rows(sources)) && Rem(sources) == old(Rem(sources))
      decreases Total(Rem(sources)), 0, 7
    {
      pushed := pushed + [row];
      var events: seq<Event> := *;
      Interrupt(events);
      keepgoing := *;
      stalled := !keepgoing;
    }

    // Emit the next row and give it to the consumer.
    method EmitNext(joinkey: int) returns (keepgoing: bool)
      requires Valid() && !errored && !ended && !waiting && !stalled
      requires !AnyBlocked(sources) && MinKey(Rem(sources)) == Some(joinkey)
      modifies this
      ensures Valid() && !errored && !ended && !waiting && stalled == !keepgoing
      ensures Rows(sources) == old(Rows(sources)) && Rem(sources) == DropHeads(old(Rem(sources)), joinkey)
      ensures pushed == old(pushed) + [JoinHeads(old(Rem(sources)), joinkey)]
      decreases Total(Rem(sources)), 1, 0
    {
      LeastKeyAscends(numeric, sources, pushed, joinkey);
      DropHeadsShrinks(Rem(sources), joinkey);
      var output := Emit(joinkey);
      working := true;
      keepgoing := Push(output);
      working := false;
    }

    // push(null), once no source has a row in hand: then every source must be done.
    method EndOfSources()
      requires Valid() && !waiting && !errored && !ended && !AnyBlocked(sources) && MinKey(Rem(sources)) == None
      modifies this
      ensures Valid() && ended && pushed == old(pushed)
      ensures Rows(sources) == old(Rows(sources)) && Rem(sources) == old(Rem(sources))
      decreases Total(Rem(sources)), 1, 0
    {
      NothingRemains(sources);
      assert forall i | 0 <= i < |sources| :: sources[i].done;
      working, ended := true, true;
      var events: seq<Event> := *;
      Interrupt(events);
      working := false;
    }

    method Kick()
      requires Consistent() && !waiting && !errored && !ended && !working && !stalled
      modifies this
      ensures Valid() && Rows(sources) == old(Rows(sources)) && old(pushed) <= pushed
      ensures old(OnTrack()) ==> OnTrack()
      ensures AtRest()
      decreases Total(Rem(sources)), 1, 2
    {
      var blocked := ReadSources();
      if errored {
        return;
      }
      if blocked {
        waiting := true;
        return;
      }
      var joinkey := EarliestKey();
      if joinkey.None? {
        EndOfSources();
        return;
      }
      Advance(joinkey.value);
    }

    // The rest of kick(), once there is a row to emit.
    method Advance(joinkey: int)
      requires Valid() && !errored && !ended && !waiting && !stalled
      requires !AnyBlocked(sources) && MinKey(Rem(sources)) == Some(joinkey)
      modifies this
      ensures Valid() && Rows(sources) == old(Rows(sources)) && old(pushed) <= pushed
      ensures old(OnTrack()) ==> OnTrack()
      ensures AtRest()
      decreases Total(Rem(sources)), 1, 1
    {
      ghost var rows, rem, out := Rows(sources), Rem(sources), pushed;
      DropHeadsShrinks(rem, joinkey);
      var keepgoing := EmitNext(joinkey);
      assert old(OnTrack()) ==> OnTrack() by {
        if old(OnTrack()) {
          TrackStep(rows, out, rem, joinkey);
        }
      }
      if keepgoing {
        Kick();
      }
    }

    method KickIfWaiting()
      requires Consistent()
      modifies this
      ensures Inv() && working == old(working) && Rows(sources) == old(Rows(sources)) && old(pushed) <= pushed
      ensures old(OnTrack()) ==> OnTrack()
      ensures old(AtRest()) ==> AtRest()
      ensures !old(waiting) ==> unchanged(this)
      decreases Total(Rem(sources)), if working then 0 else 1, 3
    {
      if !waiting {
        return;
      }
      waiting := false;
      Kick();
    }

    // A source's 'readable' handler, when rows have arrived.
    method SourceReadable()
      requires Consistent()
      modifies this
      ensures Inv() && working == old(working) && Rows(sources) == old(Rows(sources)) && old(pushed) <= pushed
      ensures old(OnTrack()) ==> OnTrack()
      ensures old(AtRest()) ==> AtRest()
      ensures !old(waiting) ==> unchanged(this)
      decreases Total(Rem(sources)), if working then 0 else 1, 4
    {
      KickIfWaiting();
    }

    // A source's 'end' handler, which Node runs only after the source's data has been consumed.
    method SourceEnded(i: nat)
      requires Inv() && i < |sources| && sources[i].consumed == |sources[i].rows|
      modifies this
      ensures Inv() && working == old(working) && Rows(sources) == old(Rows(sources)) && old(pushed) <= pushed
      ensures old(OnTrack()) ==> OnTrack()
      ensures old(AtRest()) ==> AtRest()
      ensures !old(waiting) ==> sources == Ended(old(sources), i) && Rem(sources) == old(Rem(sources))
      ensures !old(waiting) ==> unchanged(this`waiting, this`pushed, this`ended, this`errored, this`stalled)
      decreases Total(Rem(sources)), if working then 0 else 1, 4
    {
      StoreMayChange(numeric, sources, i, sources[i].(done := true), pushed);
      sources := sources[i := sources[i].(done := true)];
      KickIfWaiting();
    }

    // _read(), which Node does not call once the stream has ended or failed, except that a
    // consumer may still ask for more while push(null) runs.
    method Read()
      requires Inv() && (working || (!ended && !errored))
      modifies this
      ensures Inv() && working == old(working) && Rows(sources) == old(Rows(sources)) && old(pushed) <= pushed
      ensures old(OnTrack()) ==> OnTrack()
      ensures !working ==> AtRest()
      ensures old(working || waiting) ==> unchanged(this)
      decreases Total(Rem(sources)), if working then 0 else 1, 4
    {
      if working || waiting {
        return;
      }
      stalled := false;
      Kick();
    }

    // Rows arrive at a source; its handlers are still to run.
    method Arrive(i: nat, n: nat)
      requires Inv() && i < |sources|
      modifies this`sources
      ensures Consistent() && sources == Arrived(old(sources), i, n)
      ensures Rows(sources) == old(Rows(sources)) && Rem(sources) == old(Rem(sources))
    {
      StoreMayChange(numeric, sources, i, Arrived(sources, i, n)[i], pushed);
      sources := Arrived(sources, i, n);
    }

    // Any event that Node can deliver, at any time.
    method Handle(event: Event)
      requires Inv()
      modifies this
      ensures Inv() && working == old(working) && Rows(sources) == old(Rows(sources)) && old(pushed) <= pushed
      ensures old(OnTrack()) ==> OnTrack()
      ensures old(working) ==> pushed == old(pushed) && ended == old(ended) && stalled == old(stalled)
      ensures old(working) ==> Rem(sources) == old(Rem(sources))
      ensures old(stalled) && !event.Read? ==> stalled && pushed == old(pushed) && ended == old(ended)
      ensures !working && (old(AtRest()) || event.Read?) ==> AtRest()
      decreases Total(Rem(sources)), if working then 0 else 1, 5
    {
      match event
      case Readable(i, n) =>
        if i < |sources| {
          Arrive(i, n);
          SourceReadable();
        }
      case End(i) =>
        if i < |sources| && sources[i].consumed == |sources[i].rows| {
          SourceEnded(i);
        }
      case Read =>
        if working || (!ended && !errored) {
          Read();
        }
    }

    // One event after the other.
    method HandleAll(schedule: seq<Event>)
      requires Valid() && OnTrack()
      modifies this
      ensures Valid() && OnTrack() && Rows(sources) == old(Rows(sources))
      ensures Event.Read in schedule ==> AtRest()
      decreases |schedule|
    {
      if schedule != [] {
        var last := schedule[|schedule| - 1];
        HandleAll(schedule[..|schedule| - 1]);
        Handle(last);
        assert Event.Read in schedule ==> Event.Read in schedule[..|schedule| - 1] || last == Event.Read;
      }
    }
  }

  // However many events arrive between a push() that returned false and the next _read(), nothing is
  // pushed meanwhile, and the stream does not end.
  method Pause(js: JoinStream, events: seq<Event>)
    requires js.Valid() && js.stalled && Event.Read !in events
    modifies js
    ensures js.Valid() && js.stalled && js.pushed == old(js.pushed) && js.ended == old(js.ended)
  {
    for n := 0 to |events|
      invariant js.Valid() && js.stalled && js.pushed == old(js.pushed) && js.ended == old(js.ended)
    {
      js.Handle(events[n]);
    }
  }

  lemma TrackStep(rows: seq<seq<Row>>, pushed: seq<Joined>, rem: seq<seq<Row>>, key: int)
    requires FullJoin(rows) == pushed + FullJoin(rem) && MinKey(rem) == Some(key)
    ensures FullJoin(rows) == (pushed + [JoinHeads(rem, key)]) + FullJoin(DropHeads(rem, key))
  {
  }

  // What is promised of a stream's output, whenever one looks at it.
  ghost predicate OutputIsRight(numeric: bool, inputs: seq<seq<Row>>, pushed: seq<Joined>, ended: bool, errored: bool) {
    // What has been pushed is a part of the join that starts at its beginning.
    && pushed <= FullJoin(inputs) && Ascending(pushed)
    // It has the rows of each source in order and once each, and none that fails the order check.
    && (forall i | 0 <= i < |inputs| :: Column(pushed, i) <= inputs[i])
    && (forall i | 0 <= i < |inputs| :: InOrder(numeric, inputs[i], |Column(pushed, i)|))
    // The stream ends only with the whole join, and only if no source is out of order.
    && (ended ==> pushed == FullJoin(inputs) && IsJoin(inputs, pushed))
    && (ended ==> forall i | 0 <= i < |inputs| :: InOrder(numeric, inputs[i], |inputs[i]|))
    // It fails only if some source is out of order.
    && (errored ==> exists i :: 0 <= i < |inputs| && !InOrder(numeric, inputs[i], |inputs[i]|))
  }

  // A whole life of a join stream: the events of the schedule arrive in turn, and any others while
  // push() runs.  The output is right after each of them.
  method RunSchedule(numeric: bool, inputs: seq<seq<Row>>, schedule: seq<Event>) returns (js: JoinStream)
    requires inputs != []
    ensures fresh(js) && js.Valid() && js.numeric == numeric
    ensures OutputIsRight(numeric, inputs, js.pushed, js.ended, js.errored)
    ensures Event.Read in schedule && !js.stalled && !js.errored && !AnyStarved(js.sources) ==> js.ended
  {
    js := new JoinStream(numeric, inputs);
    js.HandleAll(schedule);
    Outcome(numeric, js.sources, js.pushed, js.ended, js.errored, inputs);
  }

  lemma Outcome(numeric: bool, sources: seq<Source>, pushed: seq<Joined>, ended: bool, errored: bool,
                inputs: seq<seq<Row>>)
    requires AllValid(sources) && Rows(sources) == inputs && Ascending(pushed)
    requires if errored then Stopped(numeric, sources) else AllSound(numeric, sources, pushed)
    requires ended ==> !errored && forall i | 0 <= i < |sources| :: sources[i].Rest() == []
    requires FullJoin(inputs) == pushed + FullJoin(Rem(sources))
    ensures OutputIsRight(numeric, inputs, pushed, ended, errored)
  {
    EmittedInOrder(numeric, sources, pushed);
    forall i | 0 <= i < |inputs|
      ensures Column(pushed, i) <= inputs[i] && InOrder(numeric, inputs[i], |Column(pushed, i)|)
    {
      OutcomeSoFar(numeric, sources, pushed, inputs, i);
      assert sources[i].rows == inputs[i];
    }
    if ended {
      EndOutcome(numeric, sources, pushed, inputs);
    }
    if errored {
      ErrorOutcome(numeric, sources, inputs);
    }
  }

  // What the invariant says about the output, in terms of what it is made of.
  lemma OutcomeSoFar(numeric: bool, sources: seq<Source>, pushed: seq<Joined>, inputs: seq<seq<Row>>, i: nat)
    requires AllValid(sources) && Rows(sources) == inputs && i < |inputs|
    requires FullJoin(inputs) == pushed + FullJoin(Rem(sources))
    ensures Column(pushed, i) == inputs[i][..sources[i].Emitted()]
  {
    ColumnSoFar(inputs, pushed, Rem(sources), i);
    assert inputs[i] == inputs[i][..sources[i].Emitted()] + sources[i].Rest();
  }

  lemma EmittedInOrder(numeric: bool, sources: seq<Source>, pushed: seq<Joined>)
    requires AllSound(numeric, sources, pushed) || Stopped(numeric, sources)
    ensures forall i | 0 <= i < |sources| ::
              sources[i].Valid() && InOrder(numeric, sources[i].rows, sources[i].Emitted())
  {
    if AllSound(numeric, sources, pushed) {
      assert forall i | 0 <= i < |sources| :: Sound(numeric, sources[i], pushed);
    }
  }

  lemma EndOutcome(numeric: bool, sources: seq<Source>, pushed: seq<Joined>, inputs: seq<seq<Row>>)
    requires AllSound(numeric, sources, pushed) && Rows(sources) == inputs && AllValid(sources)
    requires forall i | 0 <= i < |sources| :: sources[i].Rest() == []
    requires FullJoin(inputs) == pushed + FullJoin(Rem(sources))
    ensures pushed == FullJoin(inputs) && IsJoin(inputs, pushed)
    ensures forall i | 0 <= i < |inputs| :: InOrder(numeric, inputs[i], |inputs[i]|)
  {
    MinKeyIsLeast(Rem(sources));
    assert FullJoin(Rem(sources)) == [];
    forall i | 0 <= i < |inputs| ensures InOrder(numeric, inputs[i], |inputs[i]|) {
      assert Sound(numeric, sources[i], pushed) && sources[i].rows == inputs[i] && sources[i].consumed == |inputs[i]|;
    }
    WholeOutcome(numeric, inputs);
  }

  lemma ErrorOutcome(numeric: bool, sources: seq<Source>, inputs: seq<seq<Row>>)
    requires Stopped(numeric, sources) && Rows(sources) == inputs
    ensures exists i :: 0 <= i < |inputs| && !InOrder(numeric, inputs[i], |inputs[i]|)
  {
    var i :| 0 <= i < |sources| && Offends(numeric, sources[i]);
    OffenderIsOutOfOrder(numeric, sources[i]);
    assert sources[i].rows == inputs[i];
  }

  lemma OffenderIsOutOfOrder(numeric: bool, s: Source)
    requires s.Valid() && Offends(numeric, s)
    ensures !InOrder(numeric, s.rows, |s.rows|)
  {
    assert !StepInOrder(numeric, s.rows, s.consumed - 1);
  }

  lemma ColumnSoFar(inputs: seq<seq<Row>>, pushed: seq<Joined>, rem: seq<seq<Row>>, i: nat)
    requires FullJoin(inputs) == pushed + FullJoin(rem) && i < |inputs| == |rem|
    ensures Column(pushed, i) + rem[i] == inputs[i]
  {
    JoinKeepsRows(inputs);
    JoinKeepsRows(rem);
    ColumnConcat(pushed, FullJoin(rem), i);
  }

  lemma WholeOutcome(numeric: bool, inputs: seq<seq<Row>>)
    requires forall i | 0 <= i < |inputs| :: InOrder(numeric, inputs[i], |inputs[i]|)
    ensures IsJoin(inputs, FullJoin(inputs))
  {
    forall i | 0 <= i < |inputs| ensures Sorted(inputs[i]) {
      OrderCheckIsSortedness(numeric, inputs[i]);
    }
    JoinIsSound(inputs);
  }

  lemma {:induction false} ColumnConcat(out1: seq<Joined>, out2: seq<Joined>, i: nat)
    ensures Column(out1 + out2, i) == Column(out1, i) + Column(out2, i)
  {
    if out1 == [] {
      assert out1 + out2 == out2;
    } else {
      assert (out1 + out2)[1..] == out1[1..] + out2;
      ColumnConcat(out1[1..], out2, i);
    }
  }

  // The order check accepts exactly the sorted sources, except that it compares a source's first
  // key with null.
  lemma OrderCheckIsSortedness(numeric: bool, rows: seq<Row>)
    ensures InOrder(numeric, rows, |rows|)
       <==> Sorted(rows) && (rows != [] ==> !(numeric && rows[0].key < 0))
  {
    if InOrder(numeric, rows, |rows|) {
      assert rows != [] ==> StepInOrder(numeric, rows, 0);
      forall a, b | 0 <= a < b < |rows| ensures rows[a].key <= rows[b].key {
        StepsAscend(numeric, rows, a, b);
      }
    } else {
      var j: nat :| j < |rows| && !StepInOrder(numeric, rows, j);
      assert j > 0 ==> !(rows[j - 1].key <= rows[j].key);
    }
  }

  lemma {:induction false} StepsAscend(numeric: bool, rows: seq<Row>, a: nat, b: nat)
    requires a <= b < |rows| && InOrder(numeric, rows, |rows|)
    ensures rows[a].key <= rows[b].key
    decreases b
  {
    if a < b {
      StepsAscend(numeric, rows, a, b - 1);
      assert StepInOrder(numeric, rows, b);
    }
  }

  // So a sorted numeric source that starts below zero is reported as out of order.
  lemma NegativeFirstKeyIsRejected()
    ensures var rows := [Row(-5, 0), Row(3, 1)]; Sorted(rows) && !InOrder(true, rows, |rows|)
  {
    var rows := [Row(-5, 0), Row(3, 1)];
    OrderCheckIsSortedness(true, rows);
  }
}
