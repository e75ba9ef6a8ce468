/**
  The inlined Java frames at a native pc.

  The PcDesc of the pc names, through its scope decode offset, the innermost
  scope in the nmethod's scopes data. Each scope record holds, as compressed
  unsigned ints, the offset of the enclosing scope (0 ends the chain), a
  1-based index into the nmethod's oops naming the Method, and the bci plus
  one. The walk yields one frame per scope, innermost first, with the source
  line of its bci.

  `mem` is the memory image every read takes its bytes from; `methods` maps
  the address of a Method to the fields of its ConstMethod. A read the image
  does not hold, or a Method that is not there, is the debugger's memory
  error.

  The oops are read as gdb/gdb_utilities.py reads them, through a pointer to
  oop. The frame loop of gdb/gdb_utilities_python3.py casts the oops to a
  pointer to oopDesc instead and never yields a frame; ScopeAtAsWritten and
  WalkFromAsWritten model that loop.
 */
module Inlining {
  import opened Wrappers
  import opened CompressedStreams
  import opened LineNumbers
  import opened CodeHeaps
  import opened PcDescs

  /** InvocationEntryBci: the bci of a method's entry, stored as 0. */
  const InvocationEntryBci: int := -1

  /** One frame: the Method's address, the bci and the source line. */
  datatype Frame = Frame(methodAddress: int, bci: int, line: int)

  /**
    Why the walk stopped short:
    - MemoryError: a read the debugger cannot do. In gdb/gdb_utilities.py an
      oops element that is itself 0 is still a gdb.Value, so methodOop
      accepts it and its first field read fails.
    - NullMethod: the Method of oops index 0 is built from NULL, which
      GdbValWrapper refuses because NULL is not a gdb.Value.
    - NotAnAddress: the Method wrapper of gdb/gdb_utilities_python3.py
      refuses a value that is neither a pointer nor an int before reading
      anything. Only the as-written reader of that file produces it.
    - IllegalBci: the bci assertion of line_number_from_bci.
   */
  datatype Failure = MemoryError | NullMethod | NotAnAddress | IllegalBci

  /** The outcome of reading one scope record. */
  datatype ScopeResult = Scope(frame: Frame, next: int) | ScopeFailed(failure: Failure)

  /** The outcome of the walk; OutOfFuel stands for a chain longer than the fuel given. */
  datatype WalkResult = Frames(frames: seq<Frame>) | Failed(failure: Failure) | OutOfFuel

  /**
    CodeBlob::oop_at over the oops array: index 0 is NULL (address 0),
    index k the k-th element. An index past the array reads memory the model
    does not hold.
   */
  function OopAt(oops: seq<int>, index: int): (r: Option<int>)
    ensures index == 0 ==> r == Some(0)
    ensures 1 <= index <= |oops| ==> r == Some(oops[index - 1])
    ensures r.None? <==> index < 0 || index > |oops|
  {
    if index == 0 then Some(0)
    else if 1 <= index <= |oops| then Some(oops[index - 1])
    else None
  }

  /**
    One turn of the frame loop for the scope at `offset`: the enclosing
    scope's offset, the Method, the bci (stored value minus one) and the
    line line_number_from_bci gives for it.
   */
  function ScopeAt(nm: NMethod, mem: seq<Byte>, methods: map<int, ConstMethod>, offset: int): (r: ScopeResult)
    ensures r.Scope? ==>
      && ReadIntAt(mem, nm.scopesDataBegin + offset).Some?
      && var first := ReadIntAt(mem, nm.scopesDataBegin + offset).value;
         && r.next == first.value
         && ReadIntAt(mem, first.next).Some?
         && var second := ReadIntAt(mem, first.next).value;
            && OopAt(nm.oops, second.value) == Some(r.frame.methodAddress)
            && ReadIntAt(mem, second.next).Some?
            && r.frame.bci == ReadIntAt(mem, second.next).value.value + InvocationEntryBci
    ensures ReadIntAt(mem, nm.scopesDataBegin + offset).None? ==> r == ScopeFailed(MemoryError)
    ensures r.Scope? ==>
      && r.frame.methodAddress != 0 && r.frame.methodAddress in methods
      && LegalBci(methods[r.frame.methodAddress], r.frame.bci)
      && Some(r.frame.line) == LineAt(methods[r.frame.methodAddress], mem, r.frame.bci)
  {
    match ReadIntAt(mem, nm.scopesDataBegin + offset)
    case None => ScopeFailed(MemoryError)
    case Some(Decoded(next, p1)) =>
      match ReadIntAt(mem, p1)
      case None => ScopeFailed(MemoryError)
      case Some(Decoded(index, p2)) =>
        match OopAt(nm.oops, index)
        case None => ScopeFailed(MemoryError)
        case Some(m) =>
          if index == 0 then ScopeFailed(NullMethod)
          else if m == 0 || m !in methods then ScopeFailed(MemoryError)
          else
            match ReadIntAt(mem, p2)
            case None => ScopeFailed(MemoryError)
            case Some(Decoded(stored, _)) =>
              var bci := stored + InvocationEntryBci;
              if !LegalBci(methods[m], bci) then ScopeFailed(IllegalBci)
              else
                match LineAt(methods[m], mem, bci)
                case None => ScopeFailed(MemoryError)
                case Some(line) => Scope(Frame(m, bci, line), next)
  }

  /**
    The Method of a scope record, as gdb/gdb_utilities.py builds it: oops
    index 0 is methodOop(NULL), which the wrapper refuses; an element of the
    oops array that is 0 is read through and fails as a memory error.
   */
  lemma MethodOfRecord(nm: NMethod, mem: seq<Byte>, methods: map<int, ConstMethod>, offset: int,
                       first: Decoded, second: Decoded)
    requires ReadIntAt(mem, nm.scopesDataBegin + offset) == Some(first)
    requires ReadIntAt(mem, first.next) == Some(second)
    ensures second.value == 0 ==> ScopeAt(nm, mem, methods, offset) == ScopeFailed(NullMethod)
    ensures 1 <= second.value <= |nm.oops| && nm.oops[second.value - 1] == 0 ==>
      ScopeAt(nm, mem, methods, offset) == ScopeFailed(MemoryError)
  {
  }

  /** ScopeAt once the three reads of the record are known. */
  lemma ScopeFromReads(nm: NMethod, mem: seq<Byte>, methods: map<int, ConstMethod>, offset: int,
                       first: Decoded, second: Decoded, stored: int)
    requires ReadIntAt(mem, nm.scopesDataBegin + offset) == Some(first)
    requires ReadIntAt(mem, first.next) == Some(second)
    requires ReadIntAt(mem, second.next).Some? && ReadIntAt(mem, second.next).value.value == stored
    requires 1 <= second.value <= |nm.oops|
    requires nm.oops[second.value - 1] != 0 && nm.oops[second.value - 1] in methods
    requires LegalBci(methods[nm.oops[second.value - 1]], stored + InvocationEntryBci)
    ensures var m := nm.oops[second.value - 1];
      var bci := stored + InvocationEntryBci;
      ScopeAt(nm, mem, methods, offset) ==
        match LineAt(methods[m], mem, bci)
        case Some(line) => Scope(Frame(m, bci, line), first.value)
        case None => ScopeFailed(MemoryError)
  {
  }

  /**
    A scope record as the compiler writes it, the enclosing offset, the
    1-based oops index and the bci plus one as compressed unsigned ints,
    reads back as the frame of that Method at that bci.
   */
  lemma ScopeRecordRoundTrip(nm: NMethod, mem: seq<Byte>, methods: map<int, ConstMethod>, offset: int,
                             next: nat, k: nat, bci: int)
    requires next < JuintModulus && 1 <= k < JuintModulus && 0 <= bci - InvocationEntryBci < JuintModulus
    requires var at := nm.scopesDataBegin + offset;
      var record := EncodeUnsigned(next) + (EncodeUnsigned(k) + EncodeUnsigned(bci - InvocationEntryBci));
      0 <= at && at + |record| <= |mem| && mem[at..at + |record|] == record
    requires k <= |nm.oops| && nm.oops[k - 1] != 0 && nm.oops[k - 1] in methods
    requires LegalBci(methods[nm.oops[k - 1]], bci)
    ensures var m := nm.oops[k - 1];
      ScopeAt(nm, mem, methods, offset) ==
        match LineAt(methods[m], mem, bci)
        case Some(line) => Scope(Frame(m, bci, line), next)
        case None => ScopeFailed(MemoryError)
  {
    var stored := bci - InvocationEntryBci;
    var at1, at2 := ThreeUnsignedRoundTrip(mem, nm.scopesDataBegin + offset, next, k, stored);
    ScopeFromReads(nm, mem, methods, offset, Decoded(next, at1), Decoded(k, at2), stored);
  }

  /** The frames of the chain from `offset`, following at most `fuel` scopes. */
  function WalkFrom(nm: NMethod, mem: seq<Byte>, methods: map<int, ConstMethod>, offset: int, fuel: nat): WalkResult
    decreases fuel
  {
    if offset == 0 then Frames([])
    else if fuel == 0 then OutOfFuel
    else
      match ScopeAt(nm, mem, methods, offset)
      case ScopeFailed(f) => Failed(f)
      case Scope(frame, next) =>
        match WalkFrom(nm, mem, methods, next, fuel - 1)
        case Frames(fs) => Frames([frame] + fs)
        case other => other
  }

  /**
    `frames` are the scopes of the chain from `offset`, in chain order: one
    per non-zero offset, each read from its own offset, the chain ending at
    offset 0.
   */
  ghost predicate ChainFrom(nm: NMethod, mem: seq<Byte>, methods: map<int, ConstMethod>, offset: int, frames: seq<Frame>)
    decreases |frames|
  {
    if frames == [] then offset == 0
    else
      && offset != 0
      && ScopeAt(nm, mem, methods, offset).Scope?
      && ScopeAt(nm, mem, methods, offset).frame == frames[0]
      && ChainFrom(nm, mem, methods, ScopeAt(nm, mem, methods, offset).next, frames[1..])
  }

  /** The walk yields exactly the frames of the chain, when the chain is no longer than the fuel. */
  lemma {:induction false} WalkIsChain(nm: NMethod, mem: seq<Byte>, methods: map<int, ConstMethod>, offset: int, fuel: nat, frames: seq<Frame>)
    ensures WalkFrom(nm, mem, methods, offset, fuel) == Frames(frames) <==>
      ChainFrom(nm, mem, methods, offset, frames) && |frames| <= fuel
    decreases fuel
  {
    if offset != 0 && fuel != 0 && frames != [] {
      var s := ScopeAt(nm, mem, methods, offset);
      if s.Scope? {
        WalkIsChain(nm, mem, methods, s.next, fuel - 1, frames[1..]);
        assert [frames[0]] + frames[1..] == frames;
        if WalkFrom(nm, mem, methods, offset, fuel) == Frames(frames) {
          var rest := WalkFrom(nm, mem, methods, s.next, fuel - 1);
          assert rest.Frames? && [s.frame] + rest.frames == frames;
          assert rest.frames == frames[1..];
        }
      }
    }
  }

  /** More fuel does not change a walk that did not run out. */
  lemma {:induction false} WalkFuelMonotonic(nm: NMethod, mem: seq<Byte>, methods: map<int, ConstMethod>, offset: int, fuel: nat, more: nat)
    requires WalkFrom(nm, mem, methods, offset, fuel) != OutOfFuel && fuel <= more
    ensures WalkFrom(nm, mem, methods, offset, more) == WalkFrom(nm, mem, methods, offset, fuel)
    decreases fuel
  {
    if offset != 0 {
      var s := ScopeAt(nm, mem, methods, offset);
      if s.Scope? {
        WalkFuelMonotonic(nm, mem, methods, s.next, fuel - 1, more - 1);
      }
    }
  }

  /**
    One turn of the frame loop as gdb/gdb_utilities_python3.py writes it.
    Its oops_begin casts to a pointer to oopDesc where a pointer to oop is
    meant, so oop_at of any index but 0 is an oopDesc object, not an
    address, and the Method wrapper refuses it before anything is read.
    Index 0 is Method(NULL), refused as well.
   */
  function ScopeAtAsWritten(nm: NMethod, mem: seq<Byte>, offset: int): (r: ScopeResult)
    ensures r.ScopeFailed?
  {
    match ReadIntAt(mem, nm.scopesDataBegin + offset)
    case None => ScopeFailed(MemoryError)
    case Some(Decoded(_, p1)) =>
      match ReadIntAt(mem, p1)
      case None => ScopeFailed(MemoryError)
      case Some(Decoded(index, _)) =>
        if index == 0 then ScopeFailed(NullMethod) else ScopeFailed(NotAnAddress)
  }

  /**
    The frame loop of gdb/gdb_utilities_python3.py. Offset 0 yields no
    frame; from any other offset the first turn raises, because
    ScopeAtAsWritten never yields a scope, so the loop has no second turn.
   */
  function WalkFromAsWritten(nm: NMethod, mem: seq<Byte>, offset: int): WalkResult
  {
    if offset == 0 then Frames([]) else Failed(ScopeAtAsWritten(nm, mem, offset).failure)
  }

  /**
    The as-written frame loop yields no frame: from a non-zero offset it
    fails on the first scope, and once the first two ints of that scope read
    the failure is the wrapper's refusal of the Method.
   */
  lemma AsWrittenWalkFails(nm: NMethod, mem: seq<Byte>, offset: int)
    requires offset != 0
    ensures WalkFromAsWritten(nm, mem, offset).Failed?
    ensures var first := ReadIntAt(mem, nm.scopesDataBegin + offset);
      first.Some? && ReadIntAt(mem, first.value.next).Some? ==>
        WalkFromAsWritten(nm, mem, offset).failure
          == (if ReadIntAt(mem, first.value.next).value.value == 0 then NullMethod else NotAnAddress)
  {
  }

  /**
    On every scope record the compiler writes for a Method, oops index k >= 1,
    the as-written loop fails with NotAnAddress while the corrected reader
    yields that Method's frame whenever its line reads.
   */
  lemma AsWrittenRefusesEveryMethod(nm: NMethod, mem: seq<Byte>, methods: map<int, ConstMethod>, offset: int,
                                    next: nat, k: nat, bci: int)
    requires next < JuintModulus && 1 <= k < JuintModulus && 0 <= bci - InvocationEntryBci < JuintModulus
    requires var at := nm.scopesDataBegin + offset;
      var record := EncodeUnsigned(next) + (EncodeUnsigned(k) + EncodeUnsigned(bci - InvocationEntryBci));
      0 <= at && at + |record| <= |mem| && mem[at..at + |record|] == record
    requires k <= |nm.oops| && nm.oops[k - 1] != 0 && nm.oops[k - 1] in methods
    requires LegalBci(methods[nm.oops[k - 1]], bci)
    requires offset != 0
    ensures ScopeAtAsWritten(nm, mem, offset) == ScopeFailed(NotAnAddress)
    ensures WalkFromAsWritten(nm, mem, offset) == Failed(NotAnAddress)
    ensures LineAt(methods[nm.oops[k - 1]], mem, bci).Some? ==>
      ScopeAt(nm, mem, methods, offset) == Scope(Frame(nm.oops[k - 1], bci, LineAt(methods[nm.oops[k - 1]], mem, bci).value), next)
  {
    var at1, at2 := ThreeUnsignedRoundTrip(mem, nm.scopesDataBegin + offset, next, k, bci - InvocationEntryBci);
    ScopeRecordRoundTrip(nm, mem, methods, offset, next, k, bci);
  }


  /** DebugInfoReadStream: a CompressedReadStream over the scopes data of an nmethod. */
  class DebugInfoReadStream {
    const stream: CompressedReadStream

    constructor (nm: NMethod, mem: seq<Byte>, offset: int)
      ensures fresh(stream) && stream.mem == mem && stream.buffer == nm.scopesDataBegin && stream.position == offset
    {
      stream := new CompressedReadStream(mem, nm.scopesDataBegin, offset);
    }

    /** read_bci: the stored unsigned int plus InvocationEntryBci. */
    method ReadBci() returns (bci: int)
      requires ReadIntAt(stream.mem, stream.Cursor()).Some?
      modifies stream
      ensures var d := ReadIntAt(stream.mem, old(stream.Cursor())).value;
        bci == d.value + InvocationEntryBci && stream.Cursor() == d.next
    {
      var v := stream.ReadInt();
      bci := v + InvocationEntryBci;
    }
  }

  /** The walk's frames behind `done`, the frames already produced. */
  function Behind(done: seq<Frame>, w: WalkResult): WalkResult
  {
    match w
    case Frames(fs) => Frames(done + fs)
    case other => other
  }

  /** One more scope read moves its frame from the walk's result to the frames already produced. */
  lemma BehindStep(nm: NMethod, mem: seq<Byte>, methods: map<int, ConstMethod>, done: seq<Frame>,
                   offset: int, fuel: nat, frame: Frame, next: int)
    requires offset != 0 && fuel > 0
    requires ScopeAt(nm, mem, methods, offset) == Scope(frame, next)
    ensures Behind(done + [frame], WalkFrom(nm, mem, methods, next, fuel - 1))
         == Behind(done, WalkFrom(nm, mem, methods, offset, fuel))
  {
    var w := WalkFrom(nm, mem, methods, next, fuel - 1);
    if w.Frames? {
      assert done + [frame] + w.frames == done + ([frame] + w.frames);
    }
  }

  /**
    One turn of the frame loop: read the enclosing offset and the oops index
    with a fresh DebugInfoReadStream, resolve the Method, read the bci and
    look up its line.
   */
  method ReadScope(nm: NMethod, mem: seq<Byte>, methods: map<int, ConstMethod>, offset: int) returns (r: ScopeResult)
    ensures r == ScopeAt(nm, mem, methods, offset)
  {
    var s := new DebugInfoReadStream(nm, mem, offset);
    if ReadIntAt(mem, s.stream.Cursor()).None? {
      return ScopeFailed(MemoryError);
    }
    var next := s.stream.ReadInt();
    if ReadIntAt(mem, s.stream.Cursor()).None? {
      return ScopeFailed(MemoryError);
    }
    var index := s.stream.ReadInt();
    var m := OopAt(nm.oops, index);
    if m.None? {
      return ScopeFailed(MemoryError);
    }
    if index == 0 {
      return ScopeFailed(NullMethod);
    }
    if m.value == 0 || m.value !in methods {
      return ScopeFailed(MemoryError);
    }
    if ReadIntAt(mem, s.stream.Cursor()).None? {
      return ScopeFailed(MemoryError);
    }
    var bci := s.ReadBci();
    var cm := methods[m.value];
    if !LegalBci(cm, bci) {
      return ScopeFailed(IllegalBci);
    }
    var line := LineNumberFromBci(cm, mem, bci);
    if line.None? {
      return ScopeFailed(MemoryError);
    }
    return Scope(Frame(m.value, bci, line.value), next);
  }

  /**
    The frame loop of NM_print_inlining_at: from the PcDesc's scope decode
    offset, read scope records and collect their frames until the offset
    read is 0. The ghost fuel bounds the chain, which the source assumes
    acyclic.
   */
  method WalkScopes(nm: NMethod, mem: seq<Byte>, methods: map<int, ConstMethod>, offset: int, ghost fuel: nat) returns (r: WalkResult)
    requires WalkFrom(nm, mem, methods, offset, fuel) != OutOfFuel
    ensures r == WalkFrom(nm, mem, methods, offset, fuel)
    ensures r.Frames? ==> ChainFrom(nm, mem, methods, offset, r.frames)
  {
    var frames: seq<Frame> := [];
    var decodeOffset := offset;
    ghost var f := fuel;
    while decodeOffset != 0
      invariant WalkFrom(nm, mem, methods, decodeOffset, f) != OutOfFuel
      invariant Behind(frames, WalkFrom(nm, mem, methods, decodeOffset, f)) == WalkFrom(nm, mem, methods, offset, fuel)
      decreases f
    {
      var s := ReadScope(nm, mem, methods, decodeOffset);
      if s.ScopeFailed? {
        assert WalkFrom(nm, mem, methods, decodeOffset, f) == Failed(s.failure);
        return Failed(s.failure);
      }
      BehindStep(nm, mem, methods, frames, decodeOffset, f, s.frame, s.next);
      frames := frames + [s.frame];
      decodeOffset := s.next;
      f := f - 1;
    }
    assert frames + [] == frames;
    r := Frames(frames);
    WalkIsChain(nm, mem, methods, offset, fuel, frames);
  }

  /**
    The nmethod find_blob_unsafe leads to from pc: the blob holding pc, when
    that blob is an nmethod. `nmethods` holds the nmethods by header address.
   */
  function NMethodFor(h: CodeHeap, blobs: map<int, BlobHeader>, nmethods: map<int, NMethod>, pc: int): Option<NMethod>
    requires CanWalkFrom(h, pc) && (StartOf(h, pc) != 0 ==> StartOf(h, pc) in blobs)
  {
    match BlobFor(h, blobs, pc)
    case None => None
    case Some(b) => if b.headerBegin in nmethods then Some(nmethods[b.headerBegin]) else None
  }

  /** Every nmethod is the blob at its address and its PcDesc table can be searched. */
  predicate NMethodsLaidOut(blobs: map<int, BlobHeader>, nmethods: map<int, NMethod>)
  {
    forall a :: a in nmethods ==> a in blobs && nmethods[a].blob == BlobAt(blobs, a) && Layout(nmethods[a])
  }

  /** No scope chain that starts at a PcDesc of an nmethod is longer than `fuel`. */
  predicate ChainsWithin(nmethods: map<int, NMethod>, mem: seq<Byte>, methods: map<int, ConstMethod>, fuel: nat)
  {
    forall a, i :: a in nmethods && nmethods[a].begin <= i < nmethods[a].end <= |nmethods[a].descs| ==>
      WalkFrom(nmethods[a], mem, methods, nmethods[a].descs[i].scopeDecodeOffset, fuel) != OutOfFuel
  }

  /**
    NM_print_inlining_at without its output: find the blob, take it as an
    nmethod, find the PcDesc (exact, else approximate, and once more
    approximate), and walk its scope chain. None stands for the NULL the
    function returns when there is no nmethod or no PcDesc.
   */
  method InliningAt(h: CodeHeap, blobs: map<int, BlobHeader>, nmethods: map<int, NMethod>,
                    mem: seq<Byte>, methods: map<int, ConstMethod>, pc: int, ghost fuel: nat)
    returns (r: Option<WalkResult>)
    requires CanWalkFrom(h, pc) && (StartOf(h, pc) != 0 ==> StartOf(h, pc) in blobs)
    requires NMethodsLaidOut(blobs, nmethods) && ChainsWithin(nmethods, mem, methods, fuel)
    ensures NMethodFor(h, blobs, nmethods, pc).None? ==> r.None?
    ensures BlobForAsWritten(h, blobs, pc).NotAGdbValue? ==> r.None?
    ensures r.Some? ==>
      var nm := NMethodFor(h, blobs, nmethods, pc).value;
      exists i :: nm.begin <= i < nm.end && r.value == WalkFrom(nm, mem, methods, nm.descs[i].scopeDecodeOffset, fuel)
    ensures NMethodFor(h, blobs, nmethods, pc).Some? ==>
      var nm := NMethodFor(h, blobs, nmethods, pc).value;
      WellFormed(nm) && InRange(nm, pc) ==>
        if nm.begin == nm.end then r.None?
        else
          var k := FirstAtLeast(nm.descs, nm.begin, nm.end, pc - InstructionsBegin(nm));
          r == Some(WalkFrom(nm, mem, methods, nm.descs[k].scopeDecodeOffset, fuel))
  {
    var blob := FindBlobUnsafe(h, blobs, pc);
    if blob.None? || blob.value.headerBegin !in nmethods {
      return None;
    }
    var nm := nmethods[blob.value.headerBegin];
    var desc := PcDescAt(nm, pc, false);
    if desc.Null? {
      desc := PcDescAt(nm, pc, true);
    }
    if desc.Null? {
      return None;
    }
    var w := WalkScopes(nm, mem, methods, nm.descs[desc.index].scopeDecodeOffset, fuel);
    r := Some(w);
    if WellFormed(nm) && InRange(nm, pc) && nm.begin < nm.end {
      ApproximateAnswer(nm, pc);
    }
  }
}
