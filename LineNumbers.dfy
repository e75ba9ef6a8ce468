/**
  Method::line_number_from_bci: the source line of a bytecode index, read
  from the compressed line-number table that follows a method's bytecodes.

  The table is not necessarily sorted nor one-to-one. The answer is the line
  of the first pair whose bci equals the one asked for; failing that, the
  line of the pair with the greatest bci below it (the later pair on a tie);
  failing that, -1. A read that leaves the memory image stands for the
  debugger's memory error and is reported as None.
 */
module LineNumbers {
  import opened Wrappers
  import opened CompressedStreams

  /** The has_linenumber_table bit of ConstMethod::_flags. */
  const HasLineNumberTableBit: int := 1

  /** The fields of a ConstMethod the lookup reads; the bytecodes occupy [codeBase, codeBase + codeSize). */
  datatype ConstMethod = ConstMethod(flags: int, codeBase: int, codeSize: int)

  /** has_linenumber_table: flags & 1 != 0 (Dafny's % is never negative, so this is bit 0 also for negative flags). */
  predicate HasLineNumberTable(cm: ConstMethod)
  {
    cm.flags % 2 == HasLineNumberTableBit
  }

  /** compressed_linenumber_table: the table starts right after the bytecodes. */
  function CompressedLineNumberTable(cm: ConstMethod): int
    requires HasLineNumberTable(cm)
  {
    cm.codeBase + cm.codeSize
  }

  /** The assertion line_number_from_bci makes about its argument. */
  predicate LegalBci(cm: ConstMethod, bci: int)
  {
    bci == 0 || 0 <= bci < cm.codeSize
  }

  // ---------------------------------------------------------------------
  // What the answer means, stated on the decoded pairs
  // ---------------------------------------------------------------------

  /** The index of the first pair whose bci is `target`. */
  function FirstExact(pairs: seq<LinePair>, target: int): (r: Option<nat>)
    ensures r.Some? ==> r.value < |pairs| && pairs[r.value].bci == target
    ensures r.Some? ==> forall j :: 0 <= j < r.value ==> pairs[j].bci != target
    ensures r.None? ==> forall j :: 0 <= j < |pairs| ==> pairs[j].bci != target
  {
    if pairs == [] then None
    else if pairs[0].bci == target then Some(0)
    else
      match FirstExact(pairs[1..], target)
      case None => None
      case Some(i) => Some(i + 1)
  }

  /** A pair that may stand in for `target` when no pair matches it: its bci lies in [0, target). */
  predicate Precedes(p: LinePair, target: int)
  {
    0 <= p.bci < target
  }

  /**
    The index of the pair with the greatest bci in [0, target); of several
    such pairs, the last one.
   */
  function BestPreceding(pairs: seq<LinePair>, target: int): (r: Option<nat>)
    ensures r.Some? ==> r.value < |pairs| && Precedes(pairs[r.value], target)
    ensures r.Some? ==> forall j :: 0 <= j < |pairs| && Precedes(pairs[j], target) ==> pairs[j].bci <= pairs[r.value].bci
    ensures r.Some? ==> forall j :: r.value < j < |pairs| && Precedes(pairs[j], target) ==> pairs[j].bci < pairs[r.value].bci
    ensures r.None? ==> forall j :: 0 <= j < |pairs| ==> !Precedes(pairs[j], target)
    decreases |pairs|
  {
    if pairs == [] then None
    else
      var front := pairs[..|pairs| - 1];
      var last := pairs[|pairs| - 1];
      var r := BestPreceding(front, target);
      assert forall j :: 0 <= j < |front| ==> front[j] == pairs[j];
      if Precedes(last, target) && (r.None? || last.bci >= pairs[r.value].bci)
      then Some(|pairs| - 1)
      else r
  }

  /** The line line_number_from_bci reports for `target` given the table's pairs. */
  function LineFor(pairs: seq<LinePair>, target: int): int
  {
    match FirstExact(pairs, target)
    case Some(i) => pairs[i].line
    case None =>
      match BestPreceding(pairs, target)
      case Some(i) => pairs[i].line
      case None => -1
  }

  // ---------------------------------------------------------------------
  // The scan the source performs, pair by pair
  // ---------------------------------------------------------------------

  /**
    The rest of the scan from the tag at `at`, the running totals (bci, line)
    and the best candidate so far (bestBci, bestLine). None when a read
    leaves the image before the scan ends.
   */
  function ScanFrom(mem: seq<Byte>, at: int, bci: int, line: int, target: int, bestBci: int, bestLine: int): Option<int>
    decreases |mem| - at
  {
    match ReadPairAt(mem, at, bci, line)
    case None => None
    case Some(End(_)) => Some(bestLine)
    case Some(Pair(b, l, n)) =>
      if b == target then Some(l)
      else if b < target && b >= bestBci then ScanFrom(mem, n, b, l, target, b, l)
      else ScanFrom(mem, n, b, l, target, bestBci, bestLine)
  }

  /** The result of line_number_from_bci for a method whose metadata is `cm`. */
  function LineAt(cm: ConstMethod, mem: seq<Byte>, target: int): Option<int>
  {
    if HasLineNumberTable(cm) then ScanFrom(mem, CompressedLineNumberTable(cm), 0, 0, target, 0, -1)
    else Some(-1)
  }

  /** The best candidate among the pairs already read, as the scan keeps it: (0, -1) while there is none. */
  function BestSoFar(done: seq<LinePair>, target: int): (int, int)
  {
    match BestPreceding(done, target)
    case None => (0, -1)
    case Some(i) => (done[i].bci, done[i].line)
  }

  lemma NoExactInPrefix(done: seq<LinePair>, rest: seq<LinePair>, target: int)
    requires FirstExact(done, target).None?
    ensures FirstExact(done + rest, target).Some? ==> FirstExact(done + rest, target).value >= |done|
  {
    var all := done + rest;
    assert forall j :: 0 <= j < |done| ==> all[j] == done[j];
  }

  lemma BestAfterOne(done: seq<LinePair>, p: LinePair, target: int)
    ensures BestSoFar(done + [p], target)
         == (if Precedes(p, target) && p.bci >= BestSoFar(done, target).0 then (p.bci, p.line) else BestSoFar(done, target))
  {
    var all := done + [p];
    assert all[..|all| - 1] == done;
    var r := BestPreceding(done, target);
    if r.Some? {
      assert all[r.value] == done[r.value];
    }
  }

  /** A pair that matches, read after pairs that did not, gives the answer for the whole table. */
  lemma ExactAfterPrefix(done: seq<LinePair>, p: LinePair, tail: seq<LinePair>, target: int)
    requires FirstExact(done, target).None? && p.bci == target
    ensures LineFor(done + ([p] + tail), target) == p.line
  {
    var all := done + ([p] + tail);
    NoExactInPrefix(done, [p] + tail, target);
    assert all[|done|] == p;
  }

  /** A pair that does not match joins the pairs already read, which still hold no exact match. */
  lemma InexactAfterPrefix(done: seq<LinePair>, p: LinePair, tail: seq<LinePair>, target: int)
    requires FirstExact(done, target).None? && p.bci != target
    ensures FirstExact(done + [p], target).None?
    ensures (done + [p]) + tail == done + ([p] + tail)
  {
    NoExactInPrefix(done, [p], target);
    assert (done + [p])[|done|] == p;
  }

  /**
    Scanning the rest of a table whose earlier pairs `done` held no exact
    match, with the best candidate of `done` in hand, yields the line
    LineFor assigns to the whole table.
   */
  lemma {:induction false} ScanFromMeaning(mem: seq<Byte>, at: int, bci: int, line: int, target: int,
                                          done: seq<LinePair>, rest: seq<LinePair>)
    requires PairsFrom(mem, at, bci, line) == Some(rest)
    requires FirstExact(done, target).None?
    ensures var (bb, bl) := BestSoFar(done, target);
      ScanFrom(mem, at, bci, line, target, bb, bl) == Some(LineFor(done + rest, target))
    decreases |mem| - at
  {
    match ReadPairAt(mem, at, bci, line)
    case Some(End(_)) =>
      assert done + rest == done;
    case Some(Pair(b, l, n)) =>
      var p := LinePair(b, l);
      var tail := PairsFrom(mem, n, b, l).value;
      assert rest == [p] + tail;
      if b == target {
        ExactAfterPrefix(done, p, tail, target);
      } else {
        InexactAfterPrefix(done, p, tail, target);
        BestAfterOne(done, p, target);
        ScanFromMeaning(mem, n, b, l, target, done + [p], tail);
      }
  }

  /**
    When the whole table can be read, line_number_from_bci answers with the
    line of the first exact pair, else of the last greatest preceding pair,
    else -1; without a table it answers -1.
   */
  lemma LineAtMeaning(cm: ConstMethod, mem: seq<Byte>, target: int)
    ensures !HasLineNumberTable(cm) ==> LineAt(cm, mem, target) == Some(-1)
    ensures HasLineNumberTable(cm) && LineTable(mem, CompressedLineNumberTable(cm)).Some? ==>
      LineAt(cm, mem, target) == Some(LineFor(LineTable(mem, CompressedLineNumberTable(cm)).value, target))
  {
    if HasLineNumberTable(cm) && LineTable(mem, CompressedLineNumberTable(cm)).Some? {
      var pairs := LineTable(mem, CompressedLineNumberTable(cm)).value;
      ScanFromMeaning(mem, CompressedLineNumberTable(cm), 0, 0, target, [], pairs);
      assert [] + pairs == pairs;
    }
  }

  /**
    line_number_from_bci: walk the table with a CompressedLineNumberReadStream,
    return on the first exact pair, else remember the best preceding pair.
   */
  method LineNumberFromBci(cm: ConstMethod, mem: seq<Byte>, bci: int) returns (r: Option<int>)
    requires LegalBci(cm, bci)
    ensures r == LineAt(cm, mem, bci)
    ensures HasLineNumberTable(cm) && LineTable(mem, CompressedLineNumberTable(cm)).Some? ==>
      r == Some(LineFor(LineTable(mem, CompressedLineNumberTable(cm)).value, bci))
    ensures !HasLineNumberTable(cm) ==> r == Some(-1)
  {
    LineAtMeaning(cm, mem, bci);
    var bestBci := 0;
    var bestLine := -1;
    if !HasLineNumberTable(cm) {
      return Some(bestLine);
    }
    var stream := new CompressedLineNumberReadStream(mem, CompressedLineNumberTable(cm));
    while true
      invariant stream.stream.mem == mem
      invariant ScanFrom(mem, stream.stream.Cursor(), stream.bci, stream.line, bci, bestBci, bestLine) == LineAt(cm, mem, bci)
      decreases |mem| - stream.stream.Cursor()
    {
      if ReadPairAt(mem, stream.stream.Cursor(), stream.bci, stream.line).None? {
        // The debugger's memory error: the next pair lies outside the image.
        return None;
      }
      var more := stream.ReadPair();
      if !more {
        return Some(bestLine);
      }
      if stream.bci == bci {
        return Some(stream.line);
      } else if stream.bci < bci && stream.bci >= bestBci {
        bestBci, bestLine := stream.bci, stream.line;
      }
    }
  }
}
