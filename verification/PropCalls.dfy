// What jsobj_properties() tells its callers (src/mdb_v8.c:1583-1612, 2486-2963): one callback
// per property, and whether it understood the object.

module PropCalls {
  import opened Wrappers

  // A v8propvalue_t.
  datatype PropValue = Tagged(addr: int) | UnboxedDouble(bits: int)

  // The arguments of one callback: NULL names and NULL values are possible.
  datatype PropCall = PropCall(desc: Option<string>, value: Option<PropValue>)

  datatype Inspection = Inspection(
    ok: bool,               // jsobj_properties() returned 0
    calls: seq<PropCall>,   // the callbacks made, also if it failed afterwards
    garbage: bool           // JPI_MAYBE_GARBAGE was reported
  )

  // Calling back for each property in turn, until a callback asks to stop; the state that callbacks
  // reach through their argument is passed along.
  function Notify<S>(func: (PropCall, S) -> (S, int), stops: int -> bool, calls: seq<PropCall>, s0: S): (S, bool) {
    if calls == [] then (s0, false)
    else
      var n := |calls| - 1;
      var (s, stopped) := Notify(func, stops, calls[..n], s0);
      if stopped then (s, true)
      else
        var (s', rv) := func(calls[n], s);
        (s', stops(rv))
  }

  lemma NotifyOne<S>(func: (PropCall, S) -> (S, int), stops: int -> bool, calls: seq<PropCall>, call: PropCall, s0: S)
    ensures var (s, stopped) := Notify(func, stops, calls, s0);
            Notify(func, stops, calls + [call], s0) ==
              if stopped then (s, true) else (func(call, s).0, stops(func(call, s).1))
  {
    assert (calls + [call])[..|calls|] == calls;
  }

  lemma {:induction false} NotifyStops<S>(func: (PropCall, S) -> (S, int), stops: int -> bool, calls: seq<PropCall>,
                                          all: seq<PropCall>, s0: S)
    requires calls <= all && Notify(func, stops, calls, s0).1
    ensures Notify(func, stops, all, s0) == Notify(func, stops, calls, s0)
    decreases |all|
  {
    if |calls| < |all| {
      NotifyStops(func, stops, calls, all[..|all| - 1], s0);
    } else {
      assert all == calls;
    }
  }

  // The state after a list of callbacks, none of which is asked whether to stop.
  function After<S>(func: (PropCall, S) -> (S, int), calls: seq<PropCall>, s0: S): S {
    if calls == [] then s0
    else
      var n := |calls| - 1;
      func(calls[n], After(func, calls[..n], s0)).0
  }

  // What callback number k returns.
  function Result<S>(func: (PropCall, S) -> (S, int), calls: seq<PropCall>, k: nat, s0: S): int
    requires k < |calls|
  {
    func(calls[k], After(func, calls[..k], s0)).1
  }

  // The callbacks made are the first ones, up to and including the first that asks to stop.
  lemma {:induction false} NotifyIsPrefix<S>(func: (PropCall, S) -> (S, int), stops: int -> bool, calls: seq<PropCall>,
                                             s0: S) returns (n: nat)
    ensures n <= |calls| && Notify(func, stops, calls, s0).0 == After(func, calls[..n], s0)
    ensures forall k: nat | k < n - 1 :: !stops(Result(func, calls, k, s0))
    ensures Notify(func, stops, calls, s0).1 <==> n > 0 && stops(Result(func, calls, n - 1, s0))
    ensures !Notify(func, stops, calls, s0).1 ==> n == |calls|
  {
    n := 0;
    if calls != [] {
      var m := |calls| - 1;
      var was := calls[..m];
      n := NotifyIsPrefix(func, stops, was, s0);
      assert was[..n] == calls[..n];
      forall k: nat | k < m ensures Result(func, was, k, s0) == Result(func, calls, k, s0) {
        assert was[..k] == calls[..k];
      }
      if !Notify(func, stops, was, s0).1 {
        assert calls[..m + 1] == calls;
        n := m + 1;
      }
    }
  }
}
