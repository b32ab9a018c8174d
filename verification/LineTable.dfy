// From token positions to line numbers: by binary search in V8's table of line ends
// (src/mdb_v8_function.c:422-515, src/mdb_v8.c:3196-3286) and by scanning the source
// (src/mdb_v8.c:3331-3345).

module LineTable {
  import opened Wrappers
  import opened CoreFile

  datatype Location = UnknownPosition | Position(pos: nat) | OutOfRange | Line(line: nat)

  ghost predicate Sorted(data: seq<nat>) {
    forall i, j | 0 <= i <= j < |data| :: data[i] <= data[j]
  }

  // How many entries are below a position.
  function Below(data: seq<nat>, pos: nat): nat {
    if data == [] then 0 else Below(data[..|data| - 1], pos) + if data[|data| - 1] < pos then 1 else 0
  }

  lemma {:induction false} BelowIsIndex(data: seq<nat>, pos: nat, i: nat)
    requires Sorted(data) && i <= |data|
    requires forall j | 0 <= j < i :: data[j] < pos
    requires i < |data| ==> pos <= data[i]
    ensures Below(data, pos) == i
  {
    if data != [] {
      var n := |data| - 1;
      if i <= n {
        BelowIsIndex(data[..n], pos, i);
        assert data[i] <= data[n];
      } else {
        BelowIsIndex(data[..n], pos, n);
      }
    }
  }

  // The search shared by v8funcinfo_definition_location() and jsfunc_lineno(), on a table that
  // is not empty.  All reads are within the table.
  method Search(data: seq<nat>, tokpos: nat) returns (loc: Location)
    requires data != [] && Sorted(data)
    ensures loc == if tokpos > data[|data| - 1] then OutOfRange else Line(1 + Below(data, tokpos))
  {
    var lower, upper := 0, |data| - 1;
    if tokpos > data[upper] {
      return OutOfRange;
    }
    if tokpos <= data[0] {
      BelowIsIndex(data, tokpos, 0);
      return Line(1);
    }
    var i := 0;
    while upper >= 1
      invariant 0 <= lower <= upper < |data|
      invariant lower > 0 ==> data[lower - 1] < tokpos
      invariant data[0] < tokpos <= data[upper]
      decreases upper - lower
    {
      i := (lower + upper) / 2;
      if tokpos > data[i] {
        lower := i + 1;
      } else if tokpos <= data[i - 1] {
        upper := i - 1;
      } else {
        break;
      }
    }
    assert forall j | 0 <= j < i :: data[j] <= data[i - 1];
    BelowIsIndex(data, tokpos, i);
    return Line(i + 1);
  }

  const UNKNOWN: nat := 0xFFFF_FFFF     // -1 as a 32-bit position

  // v8funcinfo_definition_location(): None for `lineEnds` means that the table has not been
  // built, None for the table that it cannot be read.
  method DefinitionLocation(tokenpos: nat, lineEnds: Option<Option<seq<nat>>>) returns (rv: int, loc: Option<Location>)
    requires tokenpos <= 0xFFFF_FFFF
    requires lineEnds.Some? && lineEnds.value.Some? ==> Sorted(lineEnds.value.value)
    ensures match lineEnds
            case None => rv == 0 && loc == Some(if tokenpos == 0xFFFF_FFFF then UnknownPosition else Position(tokenpos))
            case Some(None) => rv == -1 && loc == None
            case Some(Some(data)) =>
              rv == 0 && loc == Some(if data == [] || ToSmi(tokenpos) > data[|data| - 1] then OutOfRange
                                     else Line(1 + Below(data, ToSmi(tokenpos))))
  {
    var tokpos := ToSmi(tokenpos);
    match lineEnds {
      case None =>
        if tokpos == ToSmi(UNKNOWN) {
          return 0, Some(UnknownPosition);
        }
        return 0, Some(Position(tokenpos));
      case Some(None) =>
        return -1, None;
      case Some(Some(data)) =>
        if |data| == 0 {
          return 0, Some(OutOfRange);
        }
        var found := Search(data, tokpos);
        return 0, Some(found);
    }
  }

  function Newlines(src: string): nat {
    if src == "" then 0 else Newlines(src[..|src| - 1]) + if src[|src| - 1] == '\n' then 1 else 0
  }

  // The first pass of jsfunc_lines(): `buf` is the source up to its terminating NUL; -1 means
  // that the position was not reached.
  method ScanLines(buf: string, start: nat, end: nat) returns (startline: int, endline: int)
    ensures startline == if start < |buf| && start <= end then 1 + Newlines(buf[..start + 1]) else -1
    ensures endline == if end < |buf| then 1 + Newlines(buf[..end + 1]) else -1
  {
    startline, endline := -1, -1;
    var i, line := 0, 1;
    while i < |buf|
      invariant 0 <= i <= |buf|
      invariant line == 1 + Newlines(buf[..i])
      invariant startline == if start < i then 1 + Newlines(buf[..start + 1]) else -1
      invariant endline == -1 && i <= end
    {
      assert buf[..i + 1][..i] == buf[..i];
      if buf[i] == '\n' {
        line := line + 1;
      }
      if i == start {
        startline := line;
      }
      if i == end {
        endline := line;
        break;
      }
      i := i + 1;
    }
  }

  // The table that V8 builds from a source text: the positions of its newlines, and its end.
  function LineEnds(src: string): seq<nat> {
    NewlinePositions(src) + [|src|]
  }

  function NewlinePositions(src: string): seq<nat> {
    if src == "" then []
    else
      var n := |src| - 1;
      var before := NewlinePositions(src[..n]);
      if src[n] == '\n' then before + [n] else before
  }

  lemma {:induction false} PositionsAreSorted(src: string)
    ensures Sorted(NewlinePositions(src)) && forall p | p in NewlinePositions(src) :: p < |src|
  {
    if src != "" {
      PositionsAreSorted(src[..|src| - 1]);
      var before := NewlinePositions(src[..|src| - 1]);
      assert forall i | 0 <= i < |before| :: before[i] in before;
    }
  }

  // Entries below a position are newlines before it.
  lemma {:induction false} BelowCountsNewlines(src: string, pos: nat)
    requires pos <= |src|
    ensures Below(NewlinePositions(src), pos) == Newlines(src[..pos])
  {
    if src == "" {
    } else {
      var n := |src| - 1;
      var before := NewlinePositions(src[..n]);
      assert src[n] == '\n' ==> NewlinePositions(src)[..|before|] == before;
      if pos <= n {
        BelowCountsNewlines(src[..n], pos);
        assert src[..n][..pos] == src[..pos];
      } else {
        BelowCountsNewlines(src[..n], n);
        assert src[..n][..n] == src[..n] && src[..pos] == src;
        PositionsAreSorted(src[..n]);
        assert forall i | 0 <= i < |before| :: before[i] in before;
        AllBelow(before, n, pos);
      }
    }
  }

  lemma {:induction false} AllBelow(data: seq<nat>, p: nat, q: nat)
    requires p <= q && forall i | 0 <= i < |data| :: data[i] < p
    ensures Below(data, p) == Below(data, q)
  {
    if data != [] {
      AllBelow(data[..|data| - 1], p, q);
    }
  }

  // The table lookup and the scan agree at every position that is not a newline, and differ by
  // one at every newline.
  lemma LookupAgreesWithScan(src: string, pos: nat)
    requires pos < |src|
    ensures Sorted(LineEnds(src)) && pos <= LineEnds(src)[|LineEnds(src)| - 1]
    ensures 1 + Newlines(src[..pos + 1]) == (1 + Below(LineEnds(src), pos)) + if src[pos] == '\n' then 1 else 0
  {
    PositionsAreSorted(src);
    var table := LineEnds(src);
    assert table[..|table| - 1] == NewlinePositions(src);
    assert forall i | 0 <= i < |table| - 1 :: table[i] in NewlinePositions(src);
    BelowCountsNewlines(src, pos);
    assert src[..pos + 1][..pos] == src[..pos];
  }

  // The table holds its positions as SMIs.
  function EncodedTable(data: seq<nat>): seq<nat> {
    seq(|data|, i requires 0 <= i < |data| => ToSmi(data[i]))
  }

  lemma {:induction false} EncodingKeepsOrder(data: seq<nat>, pos: nat)
    ensures Below(EncodedTable(data), ToSmi(pos)) == Below(data, pos)
    ensures Sorted(data) ==> Sorted(EncodedTable(data))
  {
    if data != [] {
      var n := |data| - 1;
      assert EncodedTable(data)[..n] == EncodedTable(data[..n]);
      EncodingKeepsOrder(data[..n], pos);
    }
  }

  // What DefinitionLocation() finds in V8's table of a source text is the line that the scan of
  // that text finds, for every token that is not a newline.
  lemma TableLineIsScannedLine(src: string, pos: nat)
    requires pos < |src| && src[pos] != '\n'
    ensures var data := EncodedTable(LineEnds(src));
            && data != [] && Sorted(data) && ToSmi(pos) <= data[|data| - 1]
            && 1 + Below(data, ToSmi(pos)) == 1 + Newlines(src[..pos + 1])
  {
    LookupAgreesWithScan(src, pos);
    EncodingKeepsOrder(LineEnds(src), pos);
  }
}
