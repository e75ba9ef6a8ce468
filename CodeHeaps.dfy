/**
  The code cache: finding the blob that contains an address.

  The heap [low, high) is cut into segments of 2^log2SegmentSize bytes. The
  segment map holds one byte per segment: 0 at the first segment of a block,
  0xFF at a free segment, and otherwise how many segments to step back
  towards the block's first segment. A block starts with a HeapBlock header
  whose `used` flag tells a live block from a free one; the blob follows the
  header.
 */
module CodeHeaps {
  import opened Wrappers
  import opened CompressedStreams

  /** Segment-map byte of a free segment. */
  const FreeSegment: int := 0xFF

  /**
    The heap as the lookup reads it. `segmap[i]` is the map byte of segment i
    and `used[i]` the `used` flag of the HeapBlock header at segment i (only
    read at a block's first segment); `headerSize` is sizeof(HeapBlock).
   */
  datatype CodeHeap = CodeHeap(low: int, high: int, segmap: seq<Byte>, used: seq<bool>,
                               log2SegmentSize: nat, headerSize: nat)

  /** The fields of a CodeBlob header the lookup reads. */
  datatype BlobHeader = BlobHeader(size: int, instructionsOffset: int)

  /** A CodeBlob: its header's address and its fields. */
  datatype CodeBlob = CodeBlob(headerBegin: int, size: int, instructionsOffset: int)

  function SegmentSize(h: CodeHeap): (s: nat)
    ensures s > 0
  {
    Pow2(h.log2SegmentSize)
  }

  /** The segment map and the used flags cover every segment of [low, high). */
  predicate CoversHeap(h: CodeHeap)
  {
    && 0 < h.low <= h.high
    && h.high - h.low <= |h.segmap| * SegmentSize(h)
    && |h.used| == |h.segmap|
  }

  /** CodeHeap::contains. */
  predicate Contains(h: CodeHeap, p: int)
  {
    h.low <= p < h.high
  }

  /** CodeHeap::segment_for: (p - low) >> log2_segment_size, for p inside the heap. */
  function SegmentFor(h: CodeHeap, p: int): nat
    requires Contains(h, p)
  {
    var d: nat := p - h.low;
    DivBounds(d, SegmentSize(h));
    d / SegmentSize(h)
  }

  lemma DivBounds(d: nat, s: nat)
    requires s > 0
    ensures 0 <= d / s && (d / s) * s <= d < (d / s) * s + s
  {
    assert d == (d / s) * s + d % s;
  }

  /** CodeHeap::block_at: the address of segment i, low + (i << log2_segment_size). */
  function BlockAt(h: CodeHeap, i: nat): int
  {
    h.low + i * SegmentSize(h)
  }

  /** HeapBlock::allocated_space: the address right after the header of the block at segment i. */
  function AllocatedSpace(h: CodeHeap, i: nat): int
  {
    BlockAt(h, i) + h.headerSize
  }

  /** segment_for and block_at agree: an address lies in the segment segment_for names. */
  lemma SegmentForBlockAt(h: CodeHeap, p: int)
    requires Contains(h, p)
    ensures BlockAt(h, SegmentFor(h, p)) <= p < BlockAt(h, SegmentFor(h, p) + 1)
  {
    var s, d := SegmentSize(h), p - h.low;
    DivBounds(d, s);
    assert (d / s + 1) * s == (d / s) * s + s;
  }

  lemma BlockAtMonotonic(h: CodeHeap, j: nat, i: nat)
    requires j <= i
    ensures BlockAt(h, j) <= BlockAt(h, i)
  {
    var s := SegmentSize(h);
    assert i * s == j * s + (i - j) * s;
  }

  /** Every address of the heap has a segment-map byte and a used flag. */
  lemma SegmentInMap(h: CodeHeap, p: int)
    requires CoversHeap(h) && Contains(h, p)
    ensures SegmentFor(h, p) < |h.segmap|
  {
    var s, d := SegmentSize(h), p - h.low;
    var q, n := d / s, |h.segmap|;
    DivBounds(d, s);
    assert (n - q) * s == n * s - q * s;
    assert (n - q) * s > 0;
  }

  // ---------------------------------------------------------------------
  // Walking back to a block's first segment
  // ---------------------------------------------------------------------

  /** The back-link walk from segment i stays inside the map until it reaches a 0. */
  predicate WalkInMap(segmap: seq<Byte>, i: nat)
    decreases i
  {
    && i < |segmap|
    && (segmap[i] == 0 || (segmap[i] <= i && WalkInMap(segmap, i - segmap[i])))
  }

  /** Where `while b[i] > 0: i -= b[i]` stops. */
  function WalkBack(segmap: seq<Byte>, i: nat): (j: nat)
    requires WalkInMap(segmap, i)
    ensures j <= i && segmap[j] == 0
    decreases i
  {
    if segmap[i] == 0 then i else WalkBack(segmap, i - segmap[i])
  }

  /**
    HotSpot's segment-map layout: a back-link neither reaches before the
    map nor jumps over a block's first segment, and the walk never lands on a
    free segment.
   */
  predicate WellFormedSegmap(segmap: seq<Byte>)
  {
    forall i :: 0 <= i < |segmap| && segmap[i] != 0 && segmap[i] != FreeSegment ==>
      && segmap[i] <= i
      && (forall k :: i - segmap[i] < k <= i ==> segmap[k] != 0)
      && segmap[i - segmap[i]] != FreeSegment
  }

  /**
    In a well-formed map the walk from any segment that is not free reaches
    the first segment of its block: the last 0 at or before it.
   */
  lemma {:induction false} WalkFindsBlockStart(segmap: seq<Byte>, i: nat)
    requires WellFormedSegmap(segmap) && i < |segmap| && segmap[i] != FreeSegment
    ensures WalkInMap(segmap, i)
    ensures forall k :: WalkBack(segmap, i) < k <= i ==> segmap[k] != 0
    decreases i
  {
    if segmap[i] != 0 {
      WalkFindsBlockStart(segmap, i - segmap[i]);
    }
  }

  // ---------------------------------------------------------------------
  // find_start and find_blob_unsafe
  // ---------------------------------------------------------------------

  /** What the source needs to walk safely from p: the map covers the heap and p's walk stays in the map. */
  predicate CanWalkFrom(h: CodeHeap, p: int)
  {
    && CoversHeap(h)
    && (Contains(h, p) ==>
          SegmentFor(h, p) < |h.segmap| &&
          (h.segmap[SegmentFor(h, p)] != FreeSegment ==> WalkInMap(h.segmap, SegmentFor(h, p))))
  }

  /** The address find_start returns for p (0 for NULL). */
  function StartOf(h: CodeHeap, p: int): int
    requires CanWalkFrom(h, p)
  {
    if !Contains(h, p) then 0
    else
      var i := SegmentFor(h, p);
      if h.segmap[i] == FreeSegment then 0
      else
        var j := WalkBack(h.segmap, i);
        if !h.used[j] then 0 else AllocatedSpace(h, j)
  }

  /**
    find_start in terms of the heap's layout: outside the heap, on a free
    segment or in a free block it yields NULL; otherwise the address past the
    header of the block that holds p, which starts at or before p.
   */
  lemma StartOfMeaning(h: CodeHeap, p: int)
    requires CoversHeap(h) && WellFormedSegmap(h.segmap)
    ensures CanWalkFrom(h, p)
    ensures StartOf(h, p) == 0 <==>
      !Contains(h, p) || h.segmap[SegmentFor(h, p)] == FreeSegment || !h.used[WalkBack(h.segmap, SegmentFor(h, p))]
    ensures Contains(h, p) && StartOf(h, p) != 0 ==>
      var i := SegmentFor(h, p);
      var j := WalkBack(h.segmap, i);
      && StartOf(h, p) == AllocatedSpace(h, j)
      && BlockAt(h, j) <= p
      && h.segmap[j] == 0 && h.used[j]
      && (forall k :: j < k <= i ==> h.segmap[k] != 0)
  {
    if Contains(h, p) {
      SegmentInMap(h, p);
      SegmentForBlockAt(h, p);
      var i := SegmentFor(h, p);
      if h.segmap[i] != FreeSegment {
        WalkFindsBlockStart(h.segmap, i);
        BlockAtMonotonic(h, WalkBack(h.segmap, i), i);
      }
    }
  }

  /** CodeHeap::find_start. */
  method FindStart(h: CodeHeap, p: int) returns (r: int)
    requires CanWalkFrom(h, p)
    ensures r == StartOf(h, p)
    ensures r != 0 ==> Contains(h, p) && h.segmap[SegmentFor(h, p)] != FreeSegment
  {
    if !Contains(h, p) {
      return 0;
    }
    var i: nat := SegmentFor(h, p);
    var b := h.segmap;
    if b[i] == FreeSegment {
      return 0;
    }
    ghost var start := i;
    while b[i] > 0
      invariant WalkInMap(b, i)
      invariant WalkBack(b, i) == WalkBack(b, start)
      decreases i
    {
      i := i - b[i];
    }
    if !h.used[i] {
      return 0;
    }
    return AllocatedSpace(h, i);
  }

  /** CodeBlob::blob_contains: header_begin <= addr < header_begin + size. */
  predicate BlobContains(blob: CodeBlob, addr: int)
  {
    blob.headerBegin <= addr < blob.headerBegin + blob.size
  }

  /** The CodeBlob whose header lies at `at`, as read from `blobs`. */
  function BlobAt(blobs: map<int, BlobHeader>, at: int): CodeBlob
    requires at in blobs
  {
    CodeBlob(at, blobs[at].size, blobs[at].instructionsOffset)
  }

  /** The blob find_blob_unsafe yields for p, NULL where find_start finds no block (the intended reading of lines that raise as written). */
  function BlobFor(h: CodeHeap, blobs: map<int, BlobHeader>, p: int): (r: Option<CodeBlob>)
    requires CanWalkFrom(h, p) && (StartOf(h, p) != 0 ==> StartOf(h, p) in blobs)
    ensures r.Some? ==> r.value.headerBegin == StartOf(h, p) != 0 && BlobContains(r.value, p)
  {
    var start := StartOf(h, p);
    if start == 0 then None
    else if BlobContains(BlobAt(blobs, start), p) then Some(BlobAt(blobs, start))
    else None
  }

  /**
    The outcome of find_blob_unsafe as the script writes it. It hands
    find_start's result straight to CodeBlob, and GdbValWrapper accepts only
    gdb.Values, so the int 0 and the NULL wrapper find_start returns when it
    finds nothing raise there (NotAGdbValue) before the NULL test is reached.
   */
  datatype BlobOutcome = Blob(blob: CodeBlob) | NullBlob | NotAGdbValue

  /** find_blob_unsafe as written: it raises exactly where find_start finds no block. */
  function BlobForAsWritten(h: CodeHeap, blobs: map<int, BlobHeader>, p: int): (r: BlobOutcome)
    requires CanWalkFrom(h, p) && (StartOf(h, p) != 0 ==> StartOf(h, p) in blobs)
    ensures r.NotAGdbValue? <==> StartOf(h, p) == 0
    ensures r.Blob? ==> r.blob.headerBegin == StartOf(h, p) && BlobContains(r.blob, p)
    ensures r.NullBlob? ==> !BlobContains(BlobAt(blobs, StartOf(h, p)), p)
  {
    var start := StartOf(h, p);
    if start == 0 then NotAGdbValue
    else if BlobContains(BlobAt(blobs, start), p) then Blob(BlobAt(blobs, start))
    else NullBlob
  }

  /**
    In a well-formed heap the script raises for every address outside the
    heap, on a free segment or in a free block.
   */
  lemma AsWrittenRaisesWithoutBlock(h: CodeHeap, blobs: map<int, BlobHeader>, p: int)
    requires CoversHeap(h) && WellFormedSegmap(h.segmap)
    requires CanWalkFrom(h, p) && (StartOf(h, p) != 0 ==> StartOf(h, p) in blobs)
    ensures BlobForAsWritten(h, blobs, p).NotAGdbValue? <==>
      !Contains(h, p) || h.segmap[SegmentFor(h, p)] == FreeSegment || !h.used[WalkBack(h.segmap, SegmentFor(h, p))]
  {
    StartOfMeaning(h, p);
  }

  /** An address below a one-segment heap: find_start returns the int 0 and CodeBlob(0) raises. */
  lemma AsWrittenRaisesBelowHeap()
    ensures var h := CodeHeap(0x1000, 0x1040, [0], [true], 6, 16);
      && CanWalkFrom(h, 0x800)
      && BlobForAsWritten(h, map[], 0x800) == NotAGdbValue
      && BlobFor(h, map[], 0x800) == None
  {
    var h := CodeHeap(0x1000, 0x1040, [0], [true], 6, 16);
    assert SegmentSize(h) == 64;
  }

  /** The corrected find_blob_unsafe answers NULL where the script raises, and agrees with it everywhere else. */
  lemma BlobForCorrectsAsWritten(h: CodeHeap, blobs: map<int, BlobHeader>, p: int)
    requires CanWalkFrom(h, p) && (StartOf(h, p) != 0 ==> StartOf(h, p) in blobs)
    ensures BlobFor(h, blobs, p) ==
      match BlobForAsWritten(h, blobs, p)
      case Blob(b) => Some(b)
      case NullBlob => None
      case NotAGdbValue => None
  {
  }

  /**
    CodeCache::find_blob_unsafe as evidently intended: the blob find_start
    reaches, kept only if it really contains the address, and NULL when
    find_start finds no block.
   */
  method FindBlobUnsafe(h: CodeHeap, blobs: map<int, BlobHeader>, p: int) returns (r: Option<CodeBlob>)
    requires CanWalkFrom(h, p) && (StartOf(h, p) != 0 ==> StartOf(h, p) in blobs)
    ensures r == BlobFor(h, blobs, p)
    ensures r.Some? <==> StartOf(h, p) != 0 && BlobContains(BlobAt(blobs, StartOf(h, p)), p)
    ensures r.Some? ==> r.value.headerBegin == StartOf(h, p) && BlobContains(r.value, p)
  {
    var start := FindStart(h, p);
    if start == 0 {
      return None;
    }
    var blob := BlobAt(blobs, start);
    if !BlobContains(blob, p) {
      return None;
    }
    return Some(blob);
  }
}
