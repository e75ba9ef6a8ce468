/**
  Finding the PcDesc of a native pc inside an nmethod.

  An nmethod's PcDescs form a table [begin, end) sorted by pc offset, with a
  sentinel at each end: the first entry has offset -1 (lower_offset_limit)
  and the last 0x7FFFFFFF (upper_offset_limit). A lookup is exact (the entry
  whose offset is the pc's) or approximate (the entry whose offset is the
  first at or above the pc's). It first asks a small read-only cache, then
  searches the table: it splits at the last PcDesc found, takes steps of
  512, 64 and 8 entries, and ends with a linear walk.

  The table lives in memory as an array of PcDesc records; the model keeps
  that memory as `descs` and replaces every PcDesc reference by its index.
  `begin` is at least 1 because an approximate match reads the record just
  before the one it tests.
 */
module PcDescs {
  import opened CodeHeaps

  /** PcDesc::lower_offset_limit: the offset of the first sentinel. */
  const LowerOffsetLimit: int := -1
  /** PcDesc::upper_offset_limit: (juint)-1 >> 1, the offset of the last sentinel. */
  const UpperOffsetLimit: int := 0x7FFF_FFFF
  /** PcDescCache::cache_size. */
  const CacheSize: nat := 4
  /** The first step, 1 << (LOG2_RADIX * 3). */
  const FirstStep: nat := 512

  datatype PcDesc = PcDesc(pcOffset: int, scopeDecodeOffset: int)

  /** A reference to a PcDesc: NULL or the index of the record in `descs`. */
  datatype DescRef = Null | At(index: nat)

  /** PcDescCache: the last PcDesc found and the slots _pc_descs[0 .. cache_size). */
  datatype PcDescCache = PcDescCache(last: DescRef, slots: seq<nat>)

  /**
    The fields of an nmethod the lookups and the frame walk read: its blob,
    the PcDesc records, the table bounds scopes_pcs_begin and scopes_pcs_end,
    the cache, the address where the scopes data start, and the oops array.
   */
  datatype NMethod = NMethod(blob: CodeBlob, descs: seq<PcDesc>, begin: nat, end: nat,
                             cache: PcDescCache, scopesDataBegin: int, oops: seq<int>)

  /** CodeBlob::instructions_begin. */
  function InstructionsBegin(nm: NMethod): int
  {
    nm.blob.headerBegin + nm.blob.instructionsOffset
  }

  /** The pc lies in the range find_pc_desc_internal searches: 0 <= pc - base < upper_offset_limit. */
  predicate InRange(nm: NMethod, pc: int)
  {
    0 <= pc - InstructionsBegin(nm) < UpperOffsetLimit
  }

  // ---------------------------------------------------------------------
  // Table layout
  // ---------------------------------------------------------------------

  /** Every PcDesc the cache may hand out can be read, together with the record before it. */
  predicate CacheReadable(cache: PcDescCache, descs: seq<PcDesc>)
  {
    && |cache.slots| == CacheSize
    && (cache.last.At? ==>
          && 1 <= cache.last.index < |descs|
          && forall k :: 0 <= k < |cache.slots| ==> 1 <= cache.slots[k] < |descs|)
  }

  /**
    What the search needs to stay inside the table and stop: the bounds fit
    the records, a table of two or more entries has a last offset at the
    upper limit and a non-NULL last_pc_desc, and the cache points into the
    table. The negative first offset is HotSpot's table invariant rather
    than something the script checks or needs to stop: it keeps the pivot
    split's lower bound below every target.
   */
  predicate Layout(nm: NMethod)
  {
    && 1 <= nm.begin <= nm.end <= |nm.descs|
    && |nm.cache.slots| == CacheSize
    && (nm.cache.last.At? ==>
          && nm.begin <= nm.cache.last.index < nm.end
          && forall k :: 0 <= k < |nm.cache.slots| ==> nm.begin <= nm.cache.slots[k] < nm.end)
    && (nm.end - nm.begin >= 2 ==>
          && nm.descs[nm.begin].pcOffset < 0
          && nm.descs[nm.end - 1].pcOffset >= UpperOffsetLimit
          && nm.cache.last.At?)
  }

  /** The pc offsets of the table strictly increase. */
  predicate Sorted(descs: seq<PcDesc>, begin: nat, end: nat)
    requires begin <= end <= |descs|
  {
    forall i, j :: begin <= i < j < end ==> descs[i].pcOffset < descs[j].pcOffset
  }

  /**
    HotSpot's table: either empty (a native method) or sorted between the
    two sentinels.
   */
  predicate WellFormed(nm: NMethod)
  {
    && Layout(nm)
    && Sorted(nm.descs, nm.begin, nm.end)
    && (nm.begin == nm.end ||
          (&& nm.end - nm.begin >= 2
           && nm.descs[nm.begin].pcOffset == LowerOffsetLimit
           && nm.descs[nm.end - 1].pcOffset == UpperOffsetLimit))
  }

  lemma LayoutCacheReadable(nm: NMethod)
    requires Layout(nm)
    ensures CacheReadable(nm.cache, nm.descs)
  {
  }

  // ---------------------------------------------------------------------
  // match_desc and what the table says
  // ---------------------------------------------------------------------

  /**
    match_desc: exactly, the entry's offset is the target; approximately,
    the record before it is below the target and the entry is at or above it.
   */
  predicate MatchDesc(descs: seq<PcDesc>, i: nat, target: int, approximate: bool)
    requires 1 <= i < |descs|
  {
    if !approximate then descs[i].pcOffset == target
    else descs[i - 1].pcOffset < target <= descs[i].pcOffset
  }

  /** The first index in [k, hi) whose offset is at least `target`; hi when there is none. */
  function FirstAtLeast(descs: seq<PcDesc>, k: nat, hi: nat, target: int): (r: nat)
    requires k <= hi <= |descs|
    ensures k <= r <= hi
    ensures forall j :: k <= j < r ==> descs[j].pcOffset < target
    ensures r < hi ==> descs[r].pcOffset >= target
    decreases hi - k
  {
    if k == hi then hi
    else if descs[k].pcOffset >= target then k
    else FirstAtLeast(descs, k + 1, hi, target)
  }

  /**
    The PcDesc the table assigns to pc: none outside the searched range or in
    an empty table; otherwise the first entry at or above the pc's offset,
    kept by an exact lookup only when its offset is the pc's.
   */
  function TableAnswer(nm: NMethod, pc: int, approximate: bool): DescRef
    requires nm.begin <= nm.end <= |nm.descs|
  {
    if !InRange(nm, pc) || nm.end - nm.begin < 2 then Null
    else
      var k := FirstAtLeast(nm.descs, nm.begin, nm.end, pc - InstructionsBegin(nm));
      if k < nm.end && (approximate || nm.descs[k].pcOffset == pc - InstructionsBegin(nm)) then At(k)
      else Null
  }

  /** In a sorted table the entry match_desc accepts is the one FirstAtLeast names. */
  lemma MatchUnique(nm: NMethod, i: nat, target: int, approximate: bool)
    requires WellFormed(nm) && nm.begin <= i < nm.end
    requires 0 <= target < UpperOffsetLimit
    requires MatchDesc(nm.descs, i, target, approximate)
    ensures nm.begin < i && i == FirstAtLeast(nm.descs, nm.begin, nm.end, target)
  {
  }

  /** An exact lookup finds an entry exactly when some entry of the table has the pc's offset. */
  lemma ExactAnswer(nm: NMethod, pc: int)
    requires WellFormed(nm) && InRange(nm, pc)
    ensures TableAnswer(nm, pc, false).At? <==>
      exists j :: nm.begin <= j < nm.end && nm.descs[j].pcOffset == pc - InstructionsBegin(nm)
    ensures TableAnswer(nm, pc, false).At? ==> nm.descs[TableAnswer(nm, pc, false).index].pcOffset == pc - InstructionsBegin(nm)
  {
    var t := pc - InstructionsBegin(nm);
    if j :| nm.begin <= j < nm.end && nm.descs[j].pcOffset == t {
      var k := FirstAtLeast(nm.descs, nm.begin, nm.end, t);
      assert k <= j;
    }
  }

  /**
    An approximate lookup in a non-empty table always finds the entry that
    covers the pc: the record before it is below the pc's offset, the entry
    at or above it.
   */
  lemma ApproximateAnswer(nm: NMethod, pc: int)
    requires WellFormed(nm) && InRange(nm, pc) && nm.begin < nm.end
    ensures var r := TableAnswer(nm, pc, true);
      && r.At? && nm.begin < r.index < nm.end
      && MatchDesc(nm.descs, r.index, pc - InstructionsBegin(nm), true)
  {
    var t := pc - InstructionsBegin(nm);
    var k := FirstAtLeast(nm.descs, nm.begin, nm.end, t);
    assert nm.descs[nm.end - 1].pcOffset >= t;
    assert k != nm.begin;
  }

  // ---------------------------------------------------------------------
  // PcDescCache.find_pc_desc
  // ---------------------------------------------------------------------

  /**
    The slot scan from slot i: the first slot, in index order, that matches,
    stopping at the first slot whose offset is negative.
   */
  function SlotScan(descs: seq<PcDesc>, slots: seq<nat>, i: nat, target: int, approximate: bool): (r: DescRef)
    requires i <= |slots|
    requires forall k :: 0 <= k < |slots| ==> 1 <= slots[k] < |descs|
    ensures r.At? ==> exists k :: i <= k < |slots| && r.index == slots[k] && MatchDesc(descs, slots[k], target, approximate)
                        && forall j :: i <= j <= k ==> descs[slots[j]].pcOffset >= 0
    ensures r.At? ==> 1 <= r.index < |descs| && MatchDesc(descs, r.index, target, approximate)
    ensures r.Null? ==> forall k :: i <= k < |slots| && (forall j :: i <= j <= k ==> descs[slots[j]].pcOffset >= 0) ==>
                          !MatchDesc(descs, slots[k], target, approximate)
    decreases |slots| - i
  {
    if i == |slots| then Null
    else if descs[slots[i]].pcOffset < 0 then Null
    else if MatchDesc(descs, slots[i], target, approximate) then At(slots[i])
    else SlotScan(descs, slots, i + 1, target, approximate)
  }

  /** What PcDescCache::find_pc_desc answers: NULL without a last PcDesc, else last if it matches, else the slot scan. */
  function CacheLookup(cache: PcDescCache, descs: seq<PcDesc>, target: int, approximate: bool): (r: DescRef)
    requires CacheReadable(cache, descs)
    ensures cache.last.Null? ==> r.Null?
    ensures cache.last.At? && MatchDesc(descs, cache.last.index, target, approximate) ==> r == cache.last
    ensures r.At? ==> 1 <= r.index < |descs| && MatchDesc(descs, r.index, target, approximate)
    ensures r.At? ==> r == cache.last || exists k :: 0 <= k < |cache.slots| && r.index == cache.slots[k]
  {
    match cache.last
    case Null => Null
    case At(l) =>
      if MatchDesc(descs, l, target, approximate) then cache.last
      else SlotScan(descs, cache.slots, 0, target, approximate)
  }

  /** Slot k is where the scan from slot i stops with a hit: no slot before it is negative or matches, and it matches. */
  predicate FirstMatchingSlot(descs: seq<PcDesc>, slots: seq<nat>, i: nat, k: nat, target: int, approximate: bool)
    requires i <= k < |slots|
    requires forall j :: 0 <= j < |slots| ==> 1 <= slots[j] < |descs|
  {
    && (forall j :: i <= j <= k ==> descs[slots[j]].pcOffset >= 0)
    && (forall j :: i <= j < k ==> !MatchDesc(descs, slots[j], target, approximate))
    && MatchDesc(descs, slots[k], target, approximate)
  }

  /** A hit of the slot scan comes from the first matching slot before any negative one. */
  lemma {:induction false} SlotScanHit(descs: seq<PcDesc>, slots: seq<nat>, i: nat, target: int, approximate: bool)
    returns (k: nat)
    requires i <= |slots|
    requires forall j :: 0 <= j < |slots| ==> 1 <= slots[j] < |descs|
    requires SlotScan(descs, slots, i, target, approximate).At?
    ensures i <= k < |slots| && SlotScan(descs, slots, i, target, approximate) == At(slots[k])
    ensures FirstMatchingSlot(descs, slots, i, k, target, approximate)
    decreases |slots| - i
  {
    if MatchDesc(descs, slots[i], target, approximate) {
      k := i;
    } else {
      k := SlotScanHit(descs, slots, i + 1, target, approximate);
    }
  }

  /** The slot scan finds the first matching slot before any negative one. */
  lemma {:induction false} SlotScanFindsFirst(descs: seq<PcDesc>, slots: seq<nat>, i: nat, k: nat, target: int, approximate: bool)
    requires i <= k < |slots|
    requires forall j :: 0 <= j < |slots| ==> 1 <= slots[j] < |descs|
    requires FirstMatchingSlot(descs, slots, i, k, target, approximate)
    ensures SlotScan(descs, slots, i, target, approximate) == At(slots[k])
    decreases k - i
  {
    if i < k {
      assert FirstMatchingSlot(descs, slots, i + 1, k, target, approximate);
      SlotScanFindsFirst(descs, slots, i + 1, k, target, approximate);
    }
  }

  /** When last misses, a hit of the cache is the first matching slot before any negative one. */
  lemma CacheLookupHit(cache: PcDescCache, descs: seq<PcDesc>, target: int, approximate: bool) returns (k: nat)
    requires CacheReadable(cache, descs) && CacheLookup(cache, descs, target, approximate).At?
    requires !MatchDesc(descs, cache.last.index, target, approximate)
    ensures 0 <= k < |cache.slots| && CacheLookup(cache, descs, target, approximate) == At(cache.slots[k])
    ensures FirstMatchingSlot(descs, cache.slots, 0, k, target, approximate)
  {
    k := SlotScanHit(descs, cache.slots, 0, target, approximate);
  }

  /** When last misses, the cache answers the first matching slot before any negative one. */
  lemma CacheLookupFindsFirst(cache: PcDescCache, descs: seq<PcDesc>, target: int, approximate: bool, k: nat)
    requires CacheReadable(cache, descs) && cache.last.At?
    requires !MatchDesc(descs, cache.last.index, target, approximate)
    requires 0 <= k < |cache.slots| && FirstMatchingSlot(descs, cache.slots, 0, k, target, approximate)
    ensures CacheLookup(cache, descs, target, approximate) == At(cache.slots[k])
  {
    SlotScanFindsFirst(descs, cache.slots, 0, k, target, approximate);
  }

  /** PcDescCache::find_pc_desc. The cache is a value here, so the lookup cannot write it. */
  method FindInCache(cache: PcDescCache, descs: seq<PcDesc>, target: int, approximate: bool) returns (r: DescRef)
    requires CacheReadable(cache, descs)
    ensures r == CacheLookup(cache, descs, target, approximate)
  {
    r := cache.last;
    if r.Null? {
      return Null;
    }
    if MatchDesc(descs, r.index, target, approximate) {
      return r;
    }
    var i := 0;
    while i < CacheSize
      invariant 0 <= i <= CacheSize
      invariant SlotScan(descs, cache.slots, i, target, approximate) == SlotScan(descs, cache.slots, 0, target, approximate)
    {
      r := At(cache.slots[i]);
      if descs[r.index].pcOffset < 0 {
        break;
      }
      if MatchDesc(descs, r.index, target, approximate) {
        return r;
      }
      i := i + 1;
    }
    return Null;
  }

  /** A cache hit is an entry of the table. */
  lemma CacheHitInTable(nm: NMethod, target: int, approximate: bool)
    requires Layout(nm)
    ensures CacheReadable(nm.cache, nm.descs)
    ensures var c := CacheLookup(nm.cache, nm.descs, target, approximate);
      c.At? ==> nm.begin <= c.index < nm.end
  {
    var c := CacheLookup(nm.cache, nm.descs, target, approximate);
    if c.At? && c != nm.cache.last {
      var k :| 0 <= k < |nm.cache.slots| && c.index == nm.cache.slots[k];
    }
  }

  /** In a well-formed table a cache hit is the entry the table assigns to the pc. */
  lemma CacheCoherent(nm: NMethod, pc: int, approximate: bool)
    requires WellFormed(nm) && InRange(nm, pc)
    ensures CacheReadable(nm.cache, nm.descs)
    ensures var c := CacheLookup(nm.cache, nm.descs, pc - InstructionsBegin(nm), approximate);
      c.At? ==> c == TableAnswer(nm, pc, approximate)
  {
    var t := pc - InstructionsBegin(nm);
    var c := CacheLookup(nm.cache, nm.descs, t, approximate);
    CacheHitInTable(nm, t, approximate);
    if c.At? {
      MatchUnique(nm, c.index, t, approximate);
    }
  }

  // ---------------------------------------------------------------------
  // nmethod::find_pc_desc_internal, find_pc_desc and pc_desc_at
  // ---------------------------------------------------------------------

  /**
    After the search has narrowed the table to two neighbours around the
    target, in a sorted table the upper one is the first at or above it.
   */
  lemma NeighboursFirstAtLeast(descs: seq<PcDesc>, begin: nat, end: nat, target: int, upper: nat)
    requires begin < upper < end <= |descs| && Sorted(descs, begin, end)
    requires descs[upper - 1].pcOffset < target <= descs[upper].pcOffset
    ensures FirstAtLeast(descs, begin, end, target) == upper
  {
  }

  /** When the cache misses, the fallback's answer in a well-formed table is the table's answer. */
  lemma FallbackAnswer(nm: NMethod, pc: int, approximate: bool, upper: nat)
    requires WellFormed(nm) && InRange(nm, pc)
    requires nm.begin < upper < nm.end
    requires nm.descs[upper - 1].pcOffset < pc - InstructionsBegin(nm) <= nm.descs[upper].pcOffset
    ensures TableAnswer(nm, pc, approximate)
         == if MatchDesc(nm.descs, upper, pc - InstructionsBegin(nm), approximate) then At(upper) else Null
  {
    NeighboursFirstAtLeast(nm.descs, nm.begin, nm.end, pc - InstructionsBegin(nm), upper);
  }

  /**
    The fallback search of find_pc_desc_internal once the split at
    last_pc_desc is done: giant steps of 512, 64 and 8 entries, then a linear
    walk. It keeps an entry below the target at `lower` and one at or above
    it at `upper`, and ends with the two neighbours.
   */
  method Narrow(descs: seq<PcDesc>, lower0: nat, upper0: nat, target: int) returns (lower: nat, upper: nat)
    requires lower0 < upper0 < |descs|
    requires descs[lower0].pcOffset < target <= descs[upper0].pcOffset
    ensures lower0 <= lower && upper == lower + 1 && upper <= upper0
    ensures descs[lower].pcOffset < target <= descs[upper].pcOffset
  {
    lower, upper := lower0, upper0;
    var mid: nat;
    var step: nat := FirstStep;
    while step > 1
      invariant lower0 <= lower < upper <= upper0
      invariant descs[lower].pcOffset < target <= descs[upper].pcOffset
      decreases step
    {
      mid := lower + step;
      while mid < upper
        invariant lower0 <= lower < upper <= upper0
        invariant descs[lower].pcOffset < target <= descs[upper].pcOffset
        invariant mid == lower + step
        decreases upper - lower
      {
        if descs[mid].pcOffset < target {
          lower := mid;
        } else {
          upper := mid;
          break;
        }
        mid := lower + step;
      }
      // step >> LOG2_RADIX, with LOG2_RADIX = 3
      step := step / 8;
    }
    // The linear walk: the upper bound stops it.
    while true
      invariant lower0 <= lower < upper <= upper0
      invariant descs[lower].pcOffset < target <= descs[upper].pcOffset
      decreases upper - lower
    {
      mid := lower + 1;
      if descs[mid].pcOffset < target {
        lower := mid;
      } else {
        upper := mid;
        break;
      }
    }
  }

  /**
    The fallback of find_pc_desc_internal, after a cache miss: NULL for a
    table of fewer than two entries; otherwise split at last_pc_desc, narrow
    to two neighbours and apply match_desc to the upper one.
   */
  method SearchTable(nm: NMethod, pc: int, approximate: bool) returns (r: DescRef)
    requires Layout(nm) && InRange(nm, pc)
    ensures r.At? ==> nm.begin < r.index < nm.end
    ensures r.At? ==> MatchDesc(nm.descs, r.index, pc - InstructionsBegin(nm), approximate)
    ensures approximate && nm.end - nm.begin >= 2 ==> r.At?
    ensures WellFormed(nm) ==> r == TableAnswer(nm, pc, approximate)
  {
    var target := pc - InstructionsBegin(nm);
    var descs := nm.descs;
    var lower: nat := nm.begin;
    var upper: nat := nm.end - 1;
    if lower >= upper {
      return Null;
    }
    // Split at the last PcDesc found.
    var mid: nat := nm.cache.last.index;
    if descs[mid].pcOffset < target {
      lower := mid;
    } else {
      upper := mid;
    }
    lower, upper := Narrow(descs, lower, upper, target);
    r := if MatchDesc(descs, upper, target, approximate) then At(upper) else Null;
    if WellFormed(nm) {
      FallbackAnswer(nm, pc, approximate, upper);
    }
  }

  /**
    nmethod::find_pc_desc_internal. Whatever the table holds, a result is a
    table entry match_desc accepts, and an approximate lookup in range over a
    table of two or more entries always finds one; in a well-formed table the
    result is the table's answer.
   */
  method FindPcDescInternal(nm: NMethod, pc: int, approximate: bool) returns (r: DescRef)
    requires Layout(nm)
    ensures r.At? ==> InRange(nm, pc) && nm.begin <= r.index < nm.end
    ensures r.At? ==> MatchDesc(nm.descs, r.index, pc - InstructionsBegin(nm), approximate)
    ensures approximate && InRange(nm, pc) && nm.end - nm.begin >= 2 ==> r.At?
    ensures WellFormed(nm) ==> r == TableAnswer(nm, pc, approximate)
  {
    var base := InstructionsBegin(nm);
    if pc < base || pc - base >= UpperOffsetLimit {
      return Null;
    }
    var target := pc - base;
    var descs := nm.descs;
    LayoutCacheReadable(nm);
    r := FindInCache(nm.cache, descs, target, approximate);
    if r != Null {
      if WellFormed(nm) {
        CacheCoherent(nm, pc, approximate);
      }
      return r;
    }
    r := SearchTable(nm, pc, approximate);
  }

  /** find_pc_desc's shortcut applies: last_pc_desc is not NULL and its offset is pc - instructions_begin. */
  predicate EarlyHit(nm: NMethod, pc: int)
  {
    nm.cache.last.At? && nm.cache.last.index < |nm.descs|
    && nm.descs[nm.cache.last.index].pcOffset == pc - InstructionsBegin(nm)
  }

  /** For a pc in range the shortcut changes nothing in a well-formed table. */
  lemma EarlyHitAnswer(nm: NMethod, pc: int, approximate: bool)
    requires WellFormed(nm) && InRange(nm, pc) && EarlyHit(nm, pc)
    ensures TableAnswer(nm, pc, approximate) == nm.cache.last
  {
    MatchUnique(nm, nm.cache.last.index, pc - InstructionsBegin(nm), false);
  }

  /**
    The shortcut skips the range check, so it can answer for a pc outside
    the searched range; in a well-formed table only with a sentinel: the
    first one at pc = instructions_begin - 1, the last one at
    pc = instructions_begin + upper_offset_limit.
   */
  lemma EarlyHitOutOfRange(nm: NMethod, pc: int)
    requires WellFormed(nm) && !InRange(nm, pc) && EarlyHit(nm, pc)
    ensures || (nm.cache.last.index == nm.begin && pc - InstructionsBegin(nm) == LowerOffsetLimit)
            || (nm.cache.last.index == nm.end - 1 && pc - InstructionsBegin(nm) == UpperOffsetLimit)
  {
  }

  /**
    nmethod::find_pc_desc: last_pc_desc when its offset is the pc's, before
    any range check and whatever the approximate flag; otherwise
    find_pc_desc_internal.
   */
  method FindPcDesc(nm: NMethod, pc: int, approximate: bool) returns (r: DescRef)
    requires Layout(nm)
    ensures r.At? ==> nm.begin <= r.index < nm.end
    ensures EarlyHit(nm, pc) ==> r == nm.cache.last
    ensures !EarlyHit(nm, pc) && r.At? ==>
      InRange(nm, pc) && MatchDesc(nm.descs, r.index, pc - InstructionsBegin(nm), approximate)
    ensures WellFormed(nm) && InRange(nm, pc) ==> r == TableAnswer(nm, pc, approximate)
    ensures WellFormed(nm) && !InRange(nm, pc) && r.At? ==>
      || (r.index == nm.begin && pc - InstructionsBegin(nm) == LowerOffsetLimit)
      || (r.index == nm.end - 1 && pc - InstructionsBegin(nm) == UpperOffsetLimit)
  {
    var desc := nm.cache.last;
    if desc != Null && nm.descs[desc.index].pcOffset == pc - InstructionsBegin(nm) {
      if WellFormed(nm) {
        if InRange(nm, pc) {
          EarlyHitAnswer(nm, pc, approximate);
        } else {
          EarlyHitOutOfRange(nm, pc);
        }
      }
      return desc;
    }
    r := FindPcDescInternal(nm, pc, approximate);
  }

  /**
    nmethod::pc_desc_at: the lookup with the flag given, retried as an
    approximate one when it yields NULL. In a well-formed table and in range
    that is the approximate answer, which a non-empty table always has.
   */
  method PcDescAt(nm: NMethod, pc: int, approximate: bool) returns (r: DescRef)
    requires Layout(nm)
    ensures r.At? ==> nm.begin <= r.index < nm.end
    ensures WellFormed(nm) && InRange(nm, pc) ==> r == TableAnswer(nm, pc, true)
    ensures WellFormed(nm) && InRange(nm, pc) && nm.begin < nm.end ==>
      r.At? && MatchDesc(nm.descs, r.index, pc - InstructionsBegin(nm), true)
    ensures WellFormed(nm) && !InRange(nm, pc) && r.At? ==>
      || (r.index == nm.begin && pc - InstructionsBegin(nm) == LowerOffsetLimit)
      || (r.index == nm.end - 1 && pc - InstructionsBegin(nm) == UpperOffsetLimit)
  {
    r := FindPcDesc(nm, pc, approximate);
    if r == Null {
      r := FindPcDesc(nm, pc, true);
    }
    if WellFormed(nm) && InRange(nm, pc) && nm.begin < nm.end {
      ApproximateAnswer(nm, pc);
    }
  }
}
