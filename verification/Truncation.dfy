// What writing a run of characters into a bounded buffer must produce, and the exact
// shape of the truncated output.  No chunks appear here: src/mdb_v8_string.c decides the
// same thing chunk by chunk, see SequentialString.dfy.

module Truncation {
  import opened StringBuffer

  const MARKER := "[...]"

  // Emit the next character if the marker would still fit after it, or if everything that is
  // left fits; otherwise stop with the marker.
  function WriteChars(b: Buf, r: seq<Code>, flags: AppendFlags): Buf
    decreases |r|
  {
    if r == [] then b
    else if Cost(r[0], flags) + |MARKER| <= b.Left() || TotalCost(r, flags) <= b.Left() then
      WriteChars(b.Put(Emit(r[0], flags)), r[1..], flags)
    else b.Put(MARKER)
  }

  // Character k can neither be followed by a marker nor start a rest that fits.
  predicate Stuck(r: seq<Code>, k: nat, left: int, flags: AppendFlags)
    requires k < |r|
  {
    && Cost(r[k], flags) + |MARKER| > left - |Encode(r[..k], flags)|
    && TotalCost(r[k..], flags) > left - |Encode(r[..k], flags)|
  }

  ghost predicate FirstStuck(r: seq<Code>, n: nat, left: int, flags: AppendFlags) {
    && n <= |r|
    && (n < |r| ==> Stuck(r, n, left, flags))
    && (forall k: nat | k < n :: !Stuck(r, k, left, flags))
  }

  lemma StuckTail(r: seq<Code>, k: nat, left: int, flags: AppendFlags)
    requires k + 1 < |r|
    ensures Stuck(r, k + 1, left, flags) <==> Stuck(r[1..], k, left - |Emit(r[0], flags)|, flags)
  {
    EncodePrefix(r, k, flags);
    assert r[k + 1..] == r[1..][k..];
  }

  lemma EncodePrefix(r: seq<Code>, k: nat, flags: AppendFlags)
    requires k + 1 <= |r|
    ensures Encode(r[..k + 1], flags) == Emit(r[0], flags) + Encode(r[1..][..k], flags)
  {
    assert r[..k + 1][1..] == r[1..][..k];
  }

  // Adding a character that is not stuck in front shifts the first stuck position by one.
  lemma FirstStuckCons(r: seq<Code>, n: nat, left: int, flags: AppendFlags)
    requires r != [] && !Stuck(r, 0, left, flags)
    requires FirstStuck(r[1..], n, left - |Emit(r[0], flags)|, flags)
    ensures FirstStuck(r, n + 1, left, flags)
  {
    if n + 1 < |r| {
      StuckTail(r, n, left, flags);
    }
    forall k: nat | k < n + 1 ensures !Stuck(r, k, left, flags) {
      if k > 0 {
        StuckTail(r, k - 1, left, flags);
      }
    }
  }

  lemma StuckAtStart(r: seq<Code>, left: int, flags: AppendFlags)
    requires r != []
    ensures Stuck(r, 0, left, flags) <==> Cost(r[0], flags) + |MARKER| > left && TotalCost(r, flags) > left
  {
    assert r[..0] == [] && r[0..] == r;
  }

  // The output is the encoding of the characters before the first stuck one, then as much of
  // the marker as there is room for; the whole encoding if no character is stuck.
  lemma {:induction false} WriteCharsExact(b: Buf, r: seq<Code>, flags: AppendFlags) returns (n: nat)
    ensures FirstStuck(r, n, b.Left(), flags)
    ensures |Encode(r[..n], flags)| <= b.Left()
    ensures WriteChars(b, r, flags)
         == b.Put(Encode(r[..n], flags)).Put(if n < |r| then MARKER else "")
    decreases |r|
  {
    if r == [] {
      n := 0;
    } else {
      StuckAtStart(r, b.Left(), flags);
      if Stuck(r, 0, b.Left(), flags) {
        n := 0;
        assert b.Put(Encode([], flags)) == b;
      } else {
        FirstFits(b, r, flags);
        PutFits(b, Emit(r[0], flags));
        n := WriteCharsExact(b.Put(Emit(r[0], flags)), r[1..], flags);
        FirstStuckCons(r, n, b.Left(), flags);
        EncodePrefix(r, n, flags);
        PutConcat(b, Emit(r[0], flags), Encode(r[1..][..n], flags));
        n := n + 1;
      }
    }
  }

  lemma PutFits(b: Buf, s: string)
    requires |s| <= b.Left()
    ensures b.Put(s).text == b.text + s && b.Put(s).Left() == b.Left() - |s|
  {
  }

  lemma FirstFits(b: Buf, r: seq<Code>, flags: AppendFlags)
    requires r != [] && (Cost(r[0], flags) + |MARKER| <= b.Left() || TotalCost(r, flags) <= b.Left())
    ensures |Emit(r[0], flags)| <= b.Left()
  {
    CostBoundsEmit(r[0], flags);
  }

  // With room for a marker at the start, the output is the whole encoding or a prefix of it
  // followed by the complete marker, and the reservation and the capacity are respected.
  lemma WholeOrMarked(b: Buf, r: seq<Code>, flags: AppendFlags) returns (n: nat)
    requires b.Left() >= |MARKER|
    ensures FirstStuck(r, n, b.Left(), flags)
    ensures WriteChars(b, r, flags).text
         == b.text + Encode(r[..n], flags) + (if n < |r| then MARKER else "")
    ensures |WriteChars(b, r, flags).text| + b.reserved <= b.capacity
  {
    n := WriteCharsExact(b, r, flags);
    if 0 < n < |r| {
      assert !Stuck(r, n - 1, b.Left(), flags);
      assert r[..n] == r[..n - 1] + [r[n - 1]];
      assert r[n - 1..][1..] == r[n..];
      EncodeConcat(r[..n - 1], [r[n - 1]], flags);
      CostBoundsEmit(r[n - 1], flags);
      assert Encode([r[n - 1]], flags) == Emit(r[n - 1], flags);
    }
  }

  // A text that fits is written whole, whatever its flags.
  lemma {:induction false} FittingTextIsWhole(b: Buf, r: seq<Code>, flags: AppendFlags)
    requires TotalCost(r, flags) <= b.Left()
    ensures WriteChars(b, r, flags) == b.(text := b.text + Encode(r, flags))
    decreases |r|
  {
    if r != [] {
      CostBoundsEmit(r[0], flags);
      FittingTextIsWhole(b.Put(Emit(r[0], flags)), r[1..], flags);
    }
  }

  // For text on which the charge is exact: whole exactly when it fits, and otherwise the
  // longest prefix that leaves room for the marker.
  lemma TruncationIsLongest(b: Buf, r: seq<Code>, flags: AppendFlags) returns (n: nat)
    requires b.Left() >= |MARKER|
    requires !(flags.Json? && QUOTE in r)
    ensures n <= |r|
    ensures n == |r| <==> |Encode(r, flags)| <= b.Left()
    ensures WriteChars(b, r, flags).text
         == b.text + Encode(r[..n], flags) + (if n < |r| then MARKER else "")
    ensures n < |r| ==> |Encode(r[..n], flags)| + |MARKER| <= b.Left()
    ensures n < |r| ==> forall m | n < m <= |r| :: |Encode(r[..m], flags)| + |MARKER| > b.Left()
  {
    n := WholeOrMarked(b, r, flags);
    EncodeWithinCost(r, flags);
    assert r[..|r|] == r;
    if TotalCost(r, flags) <= b.Left() {
      FittingTextIsWhole(b, r, flags);
      if n < |r| {
        SplitAt(r, n, flags);
        assert false;
      }
    }
    if n < |r| {
      forall m | n < m <= |r| ensures |Encode(r[..m], flags)| + |MARKER| > b.Left() {
        EncodeGrows(r, n, m, flags);
      }
    }
  }

  lemma SplitAt(r: seq<Code>, n: nat, flags: AppendFlags)
    requires n <= |r|
    ensures TotalCost(r, flags) == TotalCost(r[..n], flags) + TotalCost(r[n..], flags)
    ensures |Encode(r[..n], flags)| <= TotalCost(r[..n], flags)
  {
    assert r == r[..n] + r[n..];
    TotalCostConcat(r[..n], r[n..], flags);
    EncodeWithinCost(r[..n], flags);
  }

  lemma EncodeGrows(r: seq<Code>, n: nat, m: nat, flags: AppendFlags)
    requires n < m <= |r| && !(flags.Json? && QUOTE in r)
    ensures |Encode(r[..m], flags)| >= |Encode(r[..n], flags)| + Cost(r[n], flags)
  {
    assert r[..m] == r[..n] + ([r[n]] + r[n + 1..m]);
    EncodeConcat(r[..n], [r[n]] + r[n + 1..m], flags);
    EncodeConcat([r[n]], r[n + 1..m], flags);
    CostBoundsEmit(r[n], flags);
    assert Encode([r[n]], flags) == Emit(r[n], flags);
  }

  // With '"' in JSON mode the charge overestimates: six quotes need six bytes, yet a buffer
  // with seven left truncates them.
  lemma QuotesTruncateEarly()
    ensures var r: seq<Code> := [34, 34, 34, 34, 34, 34];
            var b := Buf("", 7, 0);
            && |Encode(r, Json)| == 6 && b.Left() == 7
            && WriteChars(b, r, Json).text == "\"[...]"
  {
    var r: seq<Code> := [34, 34, 34, 34, 34, 34];
    assert r[1..] == [34, 34, 34, 34, 34];
    assert r[1..][1..] == [34, 34, 34, 34];
    assert r[1..][1..][1..] == [34, 34, 34];
    assert r[1..][1..][1..][1..] == [34, 34];
    assert Encode([34], Json) == "\"";
    assert Encode([34, 34], Json) == "\"\"";
    assert Encode([34, 34, 34], Json) == "\"\"\"";
    assert TotalCost([34, 34], Json) == 4;
    assert TotalCost([34, 34, 34, 34], Json) == 8;
    assert TotalCost(r[1..], Json) == 10;
  }

  function Quotes(s: seq<Code>): nat {
    if s == [] then 0 else (if s[0] == QUOTE then 1 else 0) + Quotes(s[1..])
  }

  lemma {:induction false} QuotesAreTheDifference(s: seq<Code>)
    ensures TotalCost(s, Json) == |Encode(s, Json)| + Quotes(s)
  {
    if s != [] {
      QuotesAreTheDifference(s[1..]);
    }
  }

  // Where fewer bytes are left than a character and a marker need, the quotes still to come
  // must not outnumber the spare bytes.
  predicate QuotesCovered(r: seq<Code>, k: nat, spare: nat)
    requires k < |r|
  {
    Quotes(r[k..]) <= spare || spare + |Encode(r[k..], Json)| >= Cost(r[k], Json) + |MARKER|
  }

  lemma StuckIffQuotesUncovered(r: seq<Code>, k: nat, left: nat)
    requires k < |r| && |Encode(r, Json)| <= left
    ensures Stuck(r, k, left, Json) <==> !QuotesCovered(r, k, left - |Encode(r, Json)|)
  {
    assert r == r[..k] + r[k..];
    EncodeConcat(r[..k], r[k..], Json);
    QuotesAreTheDifference(r[k..]);
  }

  // Exactly when a JSON text that fits, with `spare` bytes to spare, is written whole.
  lemma FittingJsonIsWholeIff(b: Buf, r: seq<Code>, spare: nat)
    requires |Encode(r, Json)| + spare == b.Left()
    ensures WriteChars(b, r, Json).text == b.text + Encode(r, Json)
       <==> forall k: nat | k < |r| :: QuotesCovered(r, k, spare)
  {
    var n := WriteCharsExact(b, r, Json);
    forall k: nat | k < |r|
      ensures Stuck(r, k, b.Left(), Json) <==> !QuotesCovered(r, k, spare)
    {
      StuckIffQuotesUncovered(r, k, b.Left());
    }
    if n < |r| {
      assert !QuotesCovered(r, n, spare);
      TruncatedIsNotWhole(b, r, n);
    } else {
      assert r[..n] == r;
    }
  }

  lemma EncodeSplit(r: seq<Code>, n: nat, flags: AppendFlags)
    requires n <= |r|
    ensures Encode(r, flags) == Encode(r[..n], flags) + Encode(r[n..], flags)
  {
    assert r == r[..n] + r[n..];
    EncodeConcat(r[..n], r[n..], flags);
  }

  // The rest of a truncated text that fits has a quote in it.
  lemma RestHasQuote(r: seq<Code>, n: nat, left: nat)
    requires n < |r| && Stuck(r, n, left, Json) && |Encode(r, Json)| <= left
    ensures '\"' in Encode(r[n..], Json)
  {
    EncodeSplit(r, n, Json);
    QuotesAreTheDifference(r[n..]);
    QuotesAreEmitted(r[n..]);
  }

  // So it is not whole, even if its marker is cut short: that quote is missing.
  lemma TruncatedIsNotWhole(b: Buf, r: seq<Code>, n: nat)
    requires n < |r| && Stuck(r, n, b.Left(), Json) && |Encode(r, Json)| <= b.Left()
    ensures b.Put(Encode(r[..n], Json)).Put(MARKER).text != b.text + Encode(r, Json)
  {
    EncodeSplit(r, n, Json);
    RestHasQuote(r, n, b.Left());
    var head := Encode(r[..n], Json);
    PutFits(b, head);
    TailsDiffer(b.text, head, Cut(MARKER, b.Put(head).Left()), Encode(r[n..], Json));
  }

  lemma TailsDiffer(s: string, head: string, cut: string, rest: string)
    requires '\"' in rest && '\"' !in cut
    ensures s + head + cut != s + (head + rest)
  {
    var i :| 0 <= i < |rest| && rest[i] == '\"';
    var at := |s| + |head| + i;
    assert (s + (head + rest))[at] == '\"';
    assert at < |s + head + cut| ==> (s + head + cut)[at] == cut[i];
  }

  lemma {:induction false} QuotesAreEmitted(t: seq<Code>)
    ensures Quotes(t) > 0 ==> '\"' in Encode(t, Json)
  {
    if t != [] {
      QuotesAreEmitted(t[1..]);
      assert t[0] == QUOTE ==> Emit(t[0], Json)[0] == '\"';
    }
  }
}
