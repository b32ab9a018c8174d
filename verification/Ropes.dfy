// Strings as trees of other strings, and what the recursive writer prints for them
// (src/mdb_v8_string.c:191-228, 562-639).  How a heap string is taken apart is a parameter
// here; JSString.Parts supplies it.

module Ropes {
  import opened Helpers
  import opened Wrappers
  import opened StringBuffer
  import opened Truncation
  import opened SequentialString

  const TOO_DEEP := "<maximum depth exceeded>"

  // What a string looks like to the writer: text, halves, or a reason why there is no text.
  datatype Rope =
    | Text(chars: seq<Code>)
    | Unreadable(chars: seq<Code>, readable: nat, expected: Rope)
    | Note(message: string)
    | TooDeep
    | Pair(left: Rope, right: Rope)

  // One string: not a cons, or a cons cell with its two halves.
  datatype Part<S> = Leaf(rope: Rope) | Cell(first: S, second: S)

  // The string at s with its cons cells unfolded, fewer than n deep.
  function Unfold<S>(parts: S -> Part<S>, s: S, n: nat): Rope
    decreases n
  {
    if n == 0 then TooDeep
    else match parts(s)
         case Leaf(rope) => rope
         case Cell(s1, s2) => Pair(Unfold(parts, s1, n - 1), Unfold(parts, s2, n - 1))
  }

  // What is too deep is reported, and printed as a message.
  lemma TooDeepIsReported(b: Buf, flags: AppendFlags)
    ensures Fails(TooDeep) && Printed(TooDeep, b, flags) == b.Put("<maximum depth exceeded>")
  {
  }

  lemma UnfoldLeaf<S>(parts: S -> Part<S>, s: S, n: nat)
    requires n > 0 && parts(s).Leaf?
    ensures Unfold(parts, s, n) == parts(s).rope
  {
  }

  // The rope must be reported as an error: some part of it is too deep.
  predicate Fails(r: Rope) {
    r.TooDeep? || (r.Pair? && (Fails(r.left) || Fails(r.right)))
  }

  predicate AllReadable(r: Rope) {
    !r.Unreadable? && (r.Pair? ==> AllReadable(r.left) && AllReadable(r.right))
  }

  // What must be printed for a rope, where what could not be read counts as if it could; the right
  // half is skipped if the left one fails.
  function Printed(r: Rope, b: Buf, flags: AppendFlags): Buf {
    match r
    case Text(chars) => WriteChars(b, chars, flags)
    case Unreadable(_, _, expected) => Printed(expected, b, flags)
    case Note(message) => b.Put(message)
    case TooDeep => b.Put(TOO_DEEP)
    case Pair(left, right) =>
      var b1 := Printed(left, b, flags);
      if Fails(left) then b1 else Printed(right, b1, flags)
  }

  // What is printed for any rope: where reading fails, the output goes on after the characters that
  // can be read, or some of them, and a message.
  ghost predicate IsPrinted(r: Rope, b: Buf, b': Buf, flags: AppendFlags) {
    match r
    case Unreadable(chars, readable, expected) =>
      b' == Printed(expected, b, flags) || ReadFails(chars, readable, b, b', flags)
    case Pair(left, right) =>
      exists mid :: IsPrinted(left, b, mid, flags)
                 && if Fails(left) then b' == mid else IsPrinted(right, mid, b', flags)
    case _ => b' == Printed(r, b, flags)
  }

  lemma {:induction false} ReadableIsPrinted(r: Rope, b: Buf, b': Buf, flags: AppendFlags)
    requires AllReadable(r)
    ensures IsPrinted(r, b, b', flags) <==> b' == Printed(r, b, flags)
  {
    match r
    case Pair(left, right) =>
      var mid := Printed(left, b, flags);
      forall m ensures IsPrinted(left, b, m, flags) <==> m == mid {
        ReadableIsPrinted(left, b, m, flags);
      }
      assert IsPrinted(left, b, mid, flags);
      ReadableIsPrinted(right, mid, b', flags);
    case _ =>
  }

  lemma HalvesArePrinted(left: Rope, right: Rope, b: Buf, mid: Buf, b': Buf, flags: AppendFlags)
    requires IsPrinted(left, b, mid, flags)
    requires if Fails(left) then b' == mid else IsPrinted(right, mid, b', flags)
    ensures IsPrinted(Pair(left, right), b, b', flags)
  {
  }

  // The whole output for a rope, with or without quotes.
  ghost predicate IsWritten(r: Rope, b: Buf, b': Buf, flags: AppendFlags, quoted: bool) {
    if quoted then exists body :: IsPrinted(r, Opened(b), body, flags) && b' == Closed(b, body)
    else IsPrinted(r, b, b', flags)
  }

  lemma QuotedIsWritten(r: Rope, b: Buf, body: Buf, flags: AppendFlags)
    requires IsPrinted(r, Opened(b), body, flags)
    ensures IsWritten(r, b, Closed(b, body), flags, true)
  {
  }

  // The text of a rope, if all of it is text: the leaves from left to right.
  function Flatten(r: Rope): Option<seq<Code>> {
    match r
    case Text(chars) => Some(chars)
    case Pair(left, right) =>
      var t1, t2 := Flatten(left), Flatten(right);
      if t1.None? || t2.None? then None else Some(t1.value + t2.value)
    case _ => None
  }

  // The buffer with a whole text after what it held.
  function Extended(b: Buf, t: seq<Code>, flags: AppendFlags): Buf {
    b.(text := b.text + Encode(t, flags))
  }

  // If two texts fit one after the other, then the second fits in what the first leaves.
  lemma ExtendedTwice(b: Buf, t1: seq<Code>, t2: seq<Code>, flags: AppendFlags)
    requires TotalCost(t1 + t2, flags) <= b.Left()
    ensures TotalCost(t1, flags) <= b.Left() && TotalCost(t2, flags) <= Extended(b, t1, flags).Left()
    ensures Extended(Extended(b, t1, flags), t2, flags) == Extended(b, t1 + t2, flags)
  {
    TotalCostConcat(t1, t2, flags);
    EncodeConcat(t1, t2, flags);
    EncodeWithinCost(t1, flags);
    EncodeWithinCost(t2, flags);
    Associative(b.text, Encode(t1, flags), Encode(t2, flags));
  }

  // A rope of text that fits is printed as its flattening, without error.
  lemma {:induction false} RopePrintsItsFlattening(r: Rope, b: Buf, flags: AppendFlags)
    requires Flatten(r).Some? && TotalCost(Flatten(r).value, flags) <= b.Left()
    ensures Printed(r, b, flags) == Extended(b, Flatten(r).value, flags)
    ensures !Fails(r) && AllReadable(r)
  {
    var t := Flatten(r).value;
    match r
    case Text(_) =>
      FittingTextIsWhole(b, t, flags);
    case Pair(left, right) =>
      var t1, t2 := Flatten(left).value, Flatten(right).value;
      ExtendedTwice(b, t1, t2, flags);
      RopePrintsItsFlattening(left, b, flags);
      RopePrintsItsFlattening(right, Extended(b, t1, flags), flags);
  }

  // Leaves are single strings: none of them is itself a failure.
  ghost predicate SoundParts<S(!new)>(parts: S -> Part<S>) {
    forall s :: parts(s).Leaf? ==> !Fails(parts(s).rope)
  }

  // The chain of cons cells from s that turns right where the path says so.
  predicate Chain<S>(parts: S -> Part<S>, s: S, path: seq<bool>) {
    path == []
    || (parts(s).Cell? && Chain(parts, if path[0] then parts(s).second else parts(s).first, path[1..]))
  }

  ghost predicate HasChain<S>(parts: S -> Part<S>, s: S, n: nat) {
    exists path: seq<bool> :: |path| == n && Chain(parts, s, path)
  }

  // Writing fails exactly when some chain of n cons cells starts at the string.
  lemma {:induction false} FailsIffLongChain<S(!new)>(parts: S -> Part<S>, s: S, n: nat)
    requires SoundParts(parts)
    ensures Fails(Unfold(parts, s, n)) <==> HasChain(parts, s, n)
    decreases n
  {
    if n == 0 {
      assert Chain(parts, s, []);
    } else if parts(s).Cell? {
      ChainStep(parts, s, n);
      FailsIffLongChain(parts, parts(s).first, n - 1);
      FailsIffLongChain(parts, parts(s).second, n - 1);
    }
  }

  lemma ChainStep<S>(parts: S -> Part<S>, s: S, n: nat)
    requires n > 0 && parts(s).Cell?
    ensures HasChain(parts, s, n) <==>
              HasChain(parts, parts(s).first, n - 1) || HasChain(parts, parts(s).second, n - 1)
  {
    if HasChain(parts, parts(s).first, n - 1) {
      var path: seq<bool> :| |path| == n - 1 && Chain(parts, parts(s).first, path);
      assert ([false] + path)[1..] == path;
      assert Chain(parts, s, [false] + path);
    }
    if HasChain(parts, parts(s).second, n - 1) {
      var path: seq<bool> :| |path| == n - 1 && Chain(parts, parts(s).second, path);
      assert ([true] + path)[1..] == path;
      assert Chain(parts, s, [true] + path);
    }
    if HasChain(parts, s, n) {
      var path: seq<bool> :| |path| == n && Chain(parts, s, path);
      assert |path[1..]| == n - 1;
    }
  }

  // Unfolding further changes nothing once nothing is too deep.
  lemma {:induction false} UnfoldIsStable<S>(parts: S -> Part<S>, s: S, n: nat, m: nat)
    requires n <= m && !Fails(Unfold(parts, s, n))
    ensures Unfold(parts, s, m) == Unfold(parts, s, n)
    decreases n
  {
    match parts(s)
    case Leaf(_) =>
    case Cell(s1, s2) =>
      UnfoldIsStable(parts, s1, n - 1, m - 1);
      UnfoldIsStable(parts, s2, n - 1, m - 1);
  }

  // The buffer after the opening quote, with a byte reserved for the closing one.
  function Opened(b: Buf): Buf {
    b.Put("\"").(reserved := b.reserved + 1)
  }

  // The buffer after the closing quote, written into the byte that b has not reserved.
  function Closed(b: Buf, body: Buf): Buf {
    body.(reserved := b.reserved).Put("\"")
  }

  // The rope is printed as the encoding of t, with or without quotes.
  ghost predicate PrintsText(r: Rope, b: Buf, flags: AppendFlags, quoted: bool, t: seq<Code>) {
    && AllReadable(r)
    && if quoted then Closed(b, Printed(r, Opened(b), flags)) == b.(text := b.text + "\"" + Encode(t, flags) + "\"")
       else Printed(r, b, flags) == b.(text := b.text + Encode(t, flags))
  }

  function QuoteCost(quoted: bool): nat {
    if quoted then 2 else 0
  }

  lemma RopePrintsText(r: Rope, b: Buf, flags: AppendFlags, quoted: bool)
    requires Flatten(r).Some? && TotalCost(Flatten(r).value, flags) + QuoteCost(quoted) <= b.Left()
    ensures PrintsText(r, b, flags, quoted, Flatten(r).value)
  {
    RopePrintsItsFlattening(r, if quoted then Opened(b) else b, flags);
    EncodeWithinCost(Flatten(r).value, flags);
  }

  // A string whose text, unfolded however far that takes, fits in the buffer is printed as
  // exactly that text unless a chain of n cons cells starts it, and then it is an error.
  lemma StringPrintsItsText<S(!new)>(parts: S -> Part<S>, s: S, b: Buf, flags: AppendFlags, quoted: bool,
                                       tall: nat, n: nat)
    requires SoundParts(parts)
    requires Flatten(Unfold(parts, s, tall)).Some?
    requires TotalCost(Flatten(Unfold(parts, s, tall)).value, flags) + QuoteCost(quoted) <= b.Left()
    ensures Fails(Unfold(parts, s, n)) <==> HasChain(parts, s, n)
    ensures !Fails(Unfold(parts, s, n)) ==>
              PrintsText(Unfold(parts, s, n), b, flags, quoted, Flatten(Unfold(parts, s, tall)).value)
  {
    FailsIffLongChain(parts, s, n);
    RopePrintsItsFlattening(Unfold(parts, s, tall), b, flags);
    if !Fails(Unfold(parts, s, n)) {
      if tall < n {
        UnfoldIsStable(parts, s, tall, n);
      } else {
        UnfoldIsStable(parts, s, n, tall);
      }
      RopePrintsText(Unfold(parts, s, n), b, flags, quoted);
    }
  }

  // Every string in the set is a cons cell with a half that is again in the set.
  ghost predicate Cyclic<S>(parts: S -> Part<S>, cells: set<S>) {
    forall s | s in cells :: parts(s).Cell? && (parts(s).first in cells || parts(s).second in cells)
  }

  // Corrupt ropes that run into a cycle are reported as too deep rather than followed for ever.
  lemma {:induction false} CyclicRopeFails<S>(parts: S -> Part<S>, cells: set<S>, s: S, n: nat)
    requires Cyclic(parts, cells) && s in cells
    ensures Fails(Unfold(parts, s, n))
    decreases n
  {
    if n > 0 {
      CyclicRopeFails(parts, cells, if parts(s).first in cells then parts(s).first else parts(s).second, n - 1);
    }
  }

  // Ropes that do not fit need not be truncated cleanly.  Here the first half leaves a byte after
  // its marker, in which the second half is written.
  lemma SecondHalfAfterMarker()
    ensures Printed(Pair(Text([10, 10, 10, 10]), Text([98])), Buf("", 6, 0), Json).text == "[...]b"
  {
    assert TotalCost([10, 10], Json) == 4;
    assert TotalCost([10, 10, 10, 10], Json) == 8;
    assert Printed(Text([10, 10, 10, 10]), Buf("", 6, 0), Json) == Buf(MARKER, 6, 0);
    assert Emit(98, Json) == "b" && TotalCost([98], Json) == 1;
  }

  // And here the first half fits and leaves too little room for a marker.
  lemma MarkerIsCutShort()
    ensures Printed(Pair(Text([97, 98]), Text([99, 100])), Buf("", 3, 0), Plain).text == "ab["
  {
    assert Encode([97, 98], Plain) == "ab" && TotalCost([97, 98], Plain) == 2;
    FittingTextIsWhole(Buf("", 3, 0), [97, 98], Plain);
    assert Printed(Text([97, 98]), Buf("", 3, 0), Plain) == Buf("ab", 3, 0);
    assert TotalCost([99, 100], Plain) == 2;
  }
}
