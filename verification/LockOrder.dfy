/** Every spinlock of the kernel at once: the calls that nest them
    (kernel/src/terminal/terminal.cpp, kernel/src/mm/heap.cpp, kernel/src/mm/pmm.cpp,
    kernel/src/libs/kernel.cpp) on any number of cores, with the test-and-set
    lock of kernel/src/hal/spinlock.c. */
module LockOrder {

  datatype Lock =
    | PanicLock | LogSpinlock | PrintLock | PutCharLock
    | ReallocSpinlock | MallocSpinlock | FreeSpinlock | PageAllocLock | PageFreeLock
  {
    /** Position in the order in which one core takes locks. */
    function Rank(): nat {
      match this
      case PanicLock => 0
      case LogSpinlock => 1
      case PrintLock => 2
      case PutCharLock => 3
      case ReallocSpinlock => 4
      case MallocSpinlock => 5
      case FreeSpinlock => 6
      case PageAllocLock => 7
      case PageFreeLock => 8
    }
  }

  /** What a function does as far as locks are concerned. */
  datatype Code =
    | Done
    | Work(rest: Code)
    | Locked(lock: Lock, body: Code, rest: Code)

  function Then(first: Code, next: Code): Code {
    match first
    case Done => next
    case Work(rest) => Work(Then(rest, next))
    case Locked(l, body, rest) => Locked(l, body, Then(rest, next))
  }

  // The functions that take locks, with their loops unrolled.

  function PutChar(): Code { Locked(PutCharLock, Work(Done), Done) }

  function Chars(n: nat): Code { if n == 0 then Done else Then(PutChar(), Chars(n - 1)) }

  /** Print of a string of n characters. */
  function Print(n: nat): Code { Locked(PrintLock, Chars(n), Done) }

  /** A piece of a log line: one character, or a string printed whole. */
  datatype Piece = Character | Text(length: nat)

  function Pieces(ps: seq<Piece>): Code {
    if |ps| == 0 then Done
    else Then(if ps[0].Character? then PutChar() else Print(ps[0].length), Pieces(ps[1..]))
  }

  function Log(ps: seq<Piece>): Code { Locked(LogSpinlock, Pieces(ps), Done) }

  function Panic(a: seq<Piece>, b: seq<Piece>, c: seq<Piece>): Code {
    Locked(PanicLock, Then(Log(a), Then(Log(b), Log(c))), Done)
  }

  function AllocatePage(): Code { Locked(PageAllocLock, Work(Done), Done) }

  function FreePage(): Code { Locked(PageFreeLock, Work(Done), Done) }

  function AllocatePages(n: nat): Code { if n == 0 then Done else Then(AllocatePage(), AllocatePages(n - 1)) }

  /** Allocate, taking n pages to grow the heap. */
  function Allocate(n: nat): Code { Locked(MallocSpinlock, Then(AllocatePages(n), Work(Done)), Done) }

  function Free(): Code { Locked(FreeSpinlock, Work(Done), Done) }

  function Reallocate(n: nat): Code { Locked(ReallocSpinlock, Then(Allocate(n), Work(Free())), Done) }

  /** MemoryMap takes no lock of its own but takes n pages for tables. */
  function MemoryMap(n: nat): Code { Then(AllocatePages(n), Work(Done)) }

  datatype Call =
    | CallPutChar
    | CallPrint(n: nat)
    | CallLog(ps: seq<Piece>)
    | CallPanic(a: seq<Piece>, b: seq<Piece>, c: seq<Piece>)
    | CallAllocatePage
    | CallFreePage
    | CallAllocate(n: nat)
    | CallFree
    | CallReallocate(n: nat)
    | CallMemoryMap(n: nat)

  function CodeOf(call: Call): Code {
    match call
    case CallPutChar => PutChar()
    case CallPrint(n) => Print(n)
    case CallLog(ps) => Log(ps)
    case CallPanic(a, b, c) => Panic(a, b, c)
    case CallAllocatePage => AllocatePage()
    case CallFreePage => FreePage()
    case CallAllocate(n) => Allocate(n)
    case CallFree => Free()
    case CallReallocate(n) => Reallocate(n)
    case CallMemoryMap(n) => MemoryMap(n)
  }

  /** Locks are taken in rising order, above floor. */
  predicate Rising(code: Code, floor: int) {
    match code
    case Done => true
    case Work(rest) => Rising(rest, floor)
    case Locked(l, body, rest) => l.Rank() > floor && Rising(body, l.Rank()) && Rising(rest, floor)
  }

  lemma {:induction false} RisingThen(first: Code, next: Code, floor: int)
    requires Rising(first, floor) && Rising(next, floor)
    ensures Rising(Then(first, next), floor)
  {
    match first
    case Done =>
    case Work(rest) => RisingThen(rest, next, floor);
    case Locked(l, body, rest) => RisingThen(rest, next, floor);
  }

  lemma {:induction false} CharsRise(n: nat, floor: int)
    requires floor < PutCharLock.Rank()
    ensures Rising(Chars(n), floor)
  {
    if n > 0 {
      CharsRise(n - 1, floor);
      RisingThen(PutChar(), Chars(n - 1), floor);
    }
  }

  lemma {:induction false} PiecesRise(ps: seq<Piece>)
    ensures Rising(Pieces(ps), LogSpinlock.Rank())
  {
    if |ps| > 0 {
      var first := if ps[0].Character? then PutChar() else Print(ps[0].length);
      if ps[0].Text? { CharsRise(ps[0].length, PrintLock.Rank()); }
      PiecesRise(ps[1..]);
      RisingThen(first, Pieces(ps[1..]), LogSpinlock.Rank());
    }
  }

  lemma {:induction false} PagesRise(n: nat, floor: int)
    requires floor < PageAllocLock.Rank()
    ensures Rising(AllocatePages(n), floor)
  {
    if n > 0 {
      PagesRise(n - 1, floor);
      RisingThen(AllocatePage(), AllocatePages(n - 1), floor);
    }
  }

  /** Every call of the kernel takes its locks in rising order. */
  lemma CallsRise(call: Call)
    ensures Rising(CodeOf(call), -1)
  {
    match call
    case CallPrint(n) => CharsRise(n, PrintLock.Rank());
    case CallLog(ps) => PiecesRise(ps);
    case CallPanic(a, b, c) =>
      PiecesRise(a);
      PiecesRise(b);
      PiecesRise(c);
      RisingThen(Log(b), Log(c), 0);
      RisingThen(Log(a), Then(Log(b), Log(c)), 0);
    case CallAllocate(n) =>
      PagesRise(n, MallocSpinlock.Rank());
      RisingThen(AllocatePages(n), Work(Done), MallocSpinlock.Rank());
    case CallReallocate(n) =>
      PagesRise(n, MallocSpinlock.Rank());
      RisingThen(AllocatePages(n), Work(Done), MallocSpinlock.Rank());
      RisingThen(Allocate(n), Work(Free()), ReallocSpinlock.Rank());
    case CallMemoryMap(n) =>
      PagesRise(n, -1);
      RisingThen(AllocatePages(n), Work(Done), -1);
    case _ =>
  }

  // The machine: each core has a stack of frames, the locks it holds from the
  // outermost to the innermost with the code still to run once each is released.

  datatype Frame = Frame(held: Lock, after: Code)

  /** now is what the core runs next; frames[0] is its innermost lock. */
  datatype Core = Core(now: Code, frames: seq<Frame>)

  datatype State = State(taken: set<Lock>, cores: seq<Core>)

  predicate Pending(core: Core) { core.now != Done || core.frames != [] }

  /** What core does next: spin on a lock, or get ahead. */
  predicate Spins(s: State, c: nat)
    requires c < |s.cores|
  {
    s.cores[c].now.Locked? && s.cores[c].now.lock in s.taken
  }

  /** One step of a pending core. */
  function StepOf(s: State, c: nat): State
    requires c < |s.cores| && Pending(s.cores[c])
  {
    var core := s.cores[c];
    match core.now
    case Work(rest) => s.(cores := s.cores[c := core.(now := rest)])
    case Locked(l, body, rest) =>
      if l in s.taken then s  // the flag was already set: pause and try again
      else State(s.taken + {l}, s.cores[c := Core(body, [Frame(l, rest)] + core.frames)])
    case Done =>
      State(s.taken - {core.frames[0].held}, s.cores[c := Core(core.frames[0].after, core.frames[1..])])
  }

  /** A core takes a step, or an idle core calls one of the functions. */
  ghost predicate Next(s: State, s': State) {
    (exists c: nat :: c < |s.cores| && Pending(s.cores[c]) && s' == StepOf(s, c)) ||
    (exists c: nat, call: Call :: c < |s.cores| && !Pending(s.cores[c]) && s' == s.(cores := s.cores[c := Core(CodeOf(call), [])]))
  }

  ghost predicate Init(s: State) {
    s.taken == {} && forall c :: 0 <= c < |s.cores| ==> s.cores[c] == Core(Done, [])
  }

  /** The rank of the innermost lock of a stack of frames. */
  function Top(frames: seq<Frame>): int { if |frames| == 0 then -1 else frames[0].held.Rank() }

  /** A core's locks, from the innermost outwards, fall in rank, and all code
      still to run takes its locks above those then held. */
  ghost predicate FramesOk(frames: seq<Frame>) {
    |frames| > 0 ==>
      && frames[0].held.Rank() > Top(frames[1..])
      && Rising(frames[0].after, Top(frames[1..]))
      && FramesOk(frames[1..])
  }

  ghost predicate CoreOk(core: Core) {
    Rising(core.now, Top(core.frames)) && FramesOk(core.frames)
  }

  ghost predicate HoldsLock(core: Core, l: Lock) {
    exists i :: 0 <= i < |core.frames| && core.frames[i].held == l
  }

  /** Every lock taken has exactly one holder, and no other lock has any. */
  ghost predicate Inv(s: State) {
    && (forall c :: 0 <= c < |s.cores| ==> CoreOk(s.cores[c]))
    && (forall l :: l in s.taken <==> exists c :: 0 <= c < |s.cores| && HoldsLock(s.cores[c], l))
    && (forall c, d, l :: 0 <= c < |s.cores| && 0 <= d < |s.cores| && HoldsLock(s.cores[c], l) && HoldsLock(s.cores[d], l) ==> c == d)
  }

  lemma {:induction false} HeldBelowTop(frames: seq<Frame>, i: nat)
    requires FramesOk(frames) && i < |frames|
    ensures frames[i].held.Rank() <= Top(frames)
    ensures i > 0 ==> frames[i].held.Rank() < Top(frames)
  {
    if i > 0 {
      HeldBelowTop(frames[1..], i - 1);
    }
  }

  lemma InitInv(s: State)
    requires Init(s)
    ensures Inv(s)
  {
  }

  /** A core takes a free lock. */
  lemma TakeInv(s: State, c: nat)
    requires Inv(s) && c < |s.cores| && s.cores[c].now.Locked? && s.cores[c].now.lock !in s.taken
    ensures Inv(StepOf(s, c))
  {
    var core, s' := s.cores[c], StepOf(s, c);
    var l := core.now.lock;
    var frames := [Frame(l, core.now.rest)] + core.frames;
    assert frames[1..] == core.frames;
    forall k: Lock
      ensures HoldsLock(s'.cores[c], k) <==> k == l || HoldsLock(core, k)
    {
      if HoldsLock(core, k) {
        var i :| 0 <= i < |core.frames| && core.frames[i].held == k;
        assert frames[i + 1].held == k;
      }
      if k == l { assert frames[0].held == l; }
    }
    OthersSame(s, s', c);
  }

  lemma OthersSame(s: State, s': State, c: nat)
    requires c < |s.cores| == |s'.cores| && s'.cores == s.cores[c := s'.cores[c]]
    ensures forall d :: 0 <= d < |s.cores| && d != c ==> s'.cores[d] == s.cores[d]
  {
  }

  /** A core releases its innermost lock. */
  lemma ReleaseInv(s: State, c: nat)
    requires Inv(s) && c < |s.cores| && s.cores[c].now == Done && s.cores[c].frames != []
    ensures Inv(StepOf(s, c))
  {
    var core, s' := s.cores[c], StepOf(s, c);
    var l := core.frames[0].held;
    forall k: Lock
      ensures HoldsLock(s'.cores[c], k) <==> k != l && HoldsLock(core, k)
    {
      ReleaseHolds(core.frames, s'.cores[c], core, k);
    }
    OthersSame(s, s', c);
    assert HoldsLock(core, l);
  }

  lemma ReleaseHolds(frames: seq<Frame>, after: Core, core: Core, k: Lock)
    requires FramesOk(frames) && |frames| > 0 && core.frames == frames && after.frames == frames[1..]
    ensures HoldsLock(after, k) <==> k != frames[0].held && HoldsLock(core, k)
  {
    if HoldsLock(after, k) {
      var i :| 0 <= i < |after.frames| && after.frames[i].held == k;
      HeldBelowTop(frames, i + 1);
      assert core.frames[i + 1].held == k;
    }
    if k != frames[0].held && HoldsLock(core, k) {
      var i :| 0 <= i < |core.frames| && core.frames[i].held == k;
      assert after.frames[i - 1].held == k;
    }
  }

  lemma StepInv(s: State, c: nat)
    requires Inv(s) && c < |s.cores| && Pending(s.cores[c])
    ensures Inv(StepOf(s, c))
  {
    var core := s.cores[c];
    match core.now
    case Done => ReleaseInv(s, c);
    case Locked(l, _, _) =>
      if l !in s.taken { TakeInv(s, c); }
    case Work(rest) =>
      SameFramesInv(s, StepOf(s, c), c, rest);
  }

  lemma SameFramesInv(s: State, s': State, c: nat, now: Code)
    requires Inv(s) && c < |s.cores| && s' == s.(cores := s.cores[c := Core(now, s.cores[c].frames)])
    requires Rising(now, Top(s.cores[c].frames))
    ensures Inv(s')
  {
    forall d, l | 0 <= d < |s.cores|
      ensures HoldsLock(s'.cores[d], l) <==> HoldsLock(s.cores[d], l)
    {
    }
  }

  lemma NextInv(s: State, s': State)
    requires Inv(s) && Next(s, s')
    ensures Inv(s')
  {
    hide Inv;
    if exists c: nat :: c < |s.cores| && Pending(s.cores[c]) && s' == StepOf(s, c) {
      var c: nat :| c < |s.cores| && Pending(s.cores[c]) && s' == StepOf(s, c);
      StepInv(s, c);
    } else {
      var c: nat, call: Call :| c < |s.cores| && !Pending(s.cores[c]) && s' == s.(cores := s.cores[c := Core(CodeOf(call), [])]);
      CallsRise(call);
      SameFramesInv(s, s', c, CodeOf(call));
    }
  }

  ghost predicate Run(states: seq<State>) {
    && |states| > 0 && Init(states[0])
    && forall i :: 0 <= i < |states| - 1 ==> Next(states[i], states[i + 1])
  }

  /** In every state of every run each lock has at most one holder, and its flag
      is set exactly while it has one. */
  lemma {:induction false} MutualExclusion(states: seq<State>, k: nat)
    requires Run(states) && k < |states|
    ensures Inv(states[k])
  {
    hide Inv, Init, Next;
    if k == 0 {
      InitInv(states[0]);
    } else {
      MutualExclusion(states, k - 1);
      NextInv(states[k - 1], states[k]);
    }
  }

  /** The core that holds the lock core c spins on, and so on: the locks spun on
      rise in rank, so the chain ends at a core that is not spinning. */
  lemma {:induction false} ChainEnds(s: State, c: nat) returns (d: nat)
    requires Inv(s) && c < |s.cores| && Pending(s.cores[c])
    ensures d < |s.cores| && Pending(s.cores[d]) && !Spins(s, d)
    decreases if s.cores[c].now.Locked? then 9 - s.cores[c].now.lock.Rank() else 0
  {
    d := c;
    if Spins(s, c) {
      var l := s.cores[c].now.lock;
      d :| 0 <= d < |s.cores| && HoldsLock(s.cores[d], l);
      var i :| 0 <= i < |s.cores[d].frames| && s.cores[d].frames[i].held == l;
      HeldBelowTop(s.cores[d].frames, i);
      if Spins(s, d) {
        d := ChainEnds(s, d);
      }
    }
  }

  /** No deadlock: in every state of every run with a pending call, some core
      takes a step that is not a spin. */
  lemma NoDeadlock(states: seq<State>, k: nat, c: nat)
    requires Run(states) && k < |states| && c < |states[k].cores| && Pending(states[k].cores[c])
    ensures exists d: nat :: d < |states[k].cores| && Pending(states[k].cores[d]) && !Spins(states[k], d) && StepOf(states[k], d) != states[k]
  {
    MutualExclusion(states, k);
    var d := ChainEnds(states[k], c);
    StepMoves(states[k], d);
  }

  lemma StepMoves(s: State, c: nat)
    requires c < |s.cores| && Pending(s.cores[c]) && !Spins(s, c)
    ensures StepOf(s, c) != s
  {
  }

  // What a call does, act by act, from the time it is made to its end.

  datatype Act = Takes(lock: Lock) | Works | Releases(held: Lock)

  function ActsOf(code: Code): seq<Act> {
    match code
    case Done => []
    case Work(rest) => [Works] + ActsOf(rest)
    case Locked(l, body, rest) => [Takes(l)] + ActsOf(body) + [Releases(l)] + ActsOf(rest)
  }

  function Under(l: Lock, acts: seq<Act>): seq<Act> { [Takes(l)] + acts + [Releases(l)] }

  function Times(n: nat, acts: seq<Act>): seq<Act> { if n == 0 then [] else acts + Times(n - 1, acts) }

  function PrintActs(n: nat): seq<Act> { Under(PrintLock, Times(n, Under(PutCharLock, [Works]))) }

  function LogActs(ps: seq<Piece>): seq<Act> { Under(LogSpinlock, PieceActs(ps)) }

  function PieceActs(ps: seq<Piece>): seq<Act> {
    if |ps| == 0 then []
    else (if ps[0].Character? then Under(PutCharLock, [Works]) else PrintActs(ps[0].length)) + PieceActs(ps[1..])
  }

  function AllocateActs(n: nat): seq<Act> { Under(MallocSpinlock, Times(n, Under(PageAllocLock, [Works])) + [Works]) }

  /** What each call has to do, and under which locks. */
  function Acts(call: Call): seq<Act> {
    match call
    case CallPutChar => Under(PutCharLock, [Works])
    case CallPrint(n) => PrintActs(n)
    case CallLog(ps) => LogActs(ps)
    case CallPanic(a, b, c) => Under(PanicLock, LogActs(a) + LogActs(b) + LogActs(c))
    case CallAllocatePage => Under(PageAllocLock, [Works])
    case CallFreePage => Under(PageFreeLock, [Works])
    case CallAllocate(n) => AllocateActs(n)
    case CallFree => Under(FreeSpinlock, [Works])
    case CallReallocate(n) => Under(ReallocSpinlock, AllocateActs(n) + [Works] + Under(FreeSpinlock, [Works]))
    case CallMemoryMap(n) => Times(n, Under(PageAllocLock, [Works])) + [Works]
  }

  lemma {:induction false} ActsOfThen(first: Code, next: Code)
    ensures ActsOf(Then(first, next)) == ActsOf(first) + ActsOf(next)
  {
    match first
    case Done => assert [] + ActsOf(next) == ActsOf(next);
    case Work(rest) => ActsOfThen(rest, next);
    case Locked(l, body, rest) => ActsOfThen(rest, next);
  }

  lemma ActsOfLocked(l: Lock, body: Code)
    ensures ActsOf(Locked(l, body, Done)) == Under(l, ActsOf(body))
  {
  }

  lemma ActsOfOneWork(l: Lock)
    ensures ActsOf(Work(Done)) == [Works] && ActsOf(Locked(l, Work(Done), Done)) == Under(l, [Works])
  {
    ActsOfLocked(l, Work(Done));
  }

  lemma {:induction false} CharsActs(n: nat)
    ensures ActsOf(Chars(n)) == Times(n, Under(PutCharLock, [Works]))
  {
    if n > 0 {
      CharsActs(n - 1);
      ActsOfThen(PutChar(), Chars(n - 1));
      ActsOfOneWork(PutCharLock);
    }
  }

  lemma PrintsActs(n: nat)
    ensures ActsOf(Print(n)) == PrintActs(n)
  {
    CharsActs(n);
    ActsOfLocked(PrintLock, Chars(n));
  }

  lemma {:induction false} PiecesActs(ps: seq<Piece>)
    ensures ActsOf(Pieces(ps)) == PieceActs(ps)
  {
    hide Print, PutChar, PrintActs, Under;
    if |ps| > 0 {
      PiecesActs(ps[1..]);
      PutCharActs();
      if ps[0].Text? { PrintsActs(ps[0].length); }
      ActsOfThen(if ps[0].Character? then PutChar() else Print(ps[0].length), Pieces(ps[1..]));
    }
  }

  lemma PutCharActs()
    ensures ActsOf(PutChar()) == Under(PutCharLock, [Works])
  {
    ActsOfOneWork(PutCharLock);
  }

  lemma LogsActs(ps: seq<Piece>)
    ensures ActsOf(Log(ps)) == LogActs(ps)
  {
    PiecesActs(ps);
    ActsOfLocked(LogSpinlock, Pieces(ps));
  }

  lemma {:induction false} PagesActs(n: nat)
    ensures ActsOf(AllocatePages(n)) == Times(n, Under(PageAllocLock, [Works]))
  {
    if n > 0 {
      PagesActs(n - 1);
      ActsOfThen(AllocatePage(), AllocatePages(n - 1));
      ActsOfOneWork(PageAllocLock);
    }
  }

  lemma AllocatesActs(n: nat)
    ensures ActsOf(Allocate(n)) == AllocateActs(n)
  {
    PagesActs(n);
    ActsOfThen(AllocatePages(n), Work(Done));
    ActsOfOneWork(PageAllocLock);
    ActsOfLocked(MallocSpinlock, Then(AllocatePages(n), Work(Done)));
  }

  /** The code of every call does these acts in this order. */
  lemma CallsAsListed(call: Call)
    ensures ActsOf(CodeOf(call)) == Acts(call)
  {
    hide Under, LogActs, PrintActs, AllocateActs, Log, Print, Allocate, ActsOf;
    match call
    case CallPutChar => ActsOfOneWork(PutCharLock);
    case CallPrint(n) => PrintsActs(n);
    case CallLog(ps) => LogsActs(ps);
    case CallPanic(a, b, c) =>
      LogsActs(a);
      LogsActs(b);
      LogsActs(c);
      ActsOfThen(Log(b), Log(c));
      ActsOfThen(Log(a), Then(Log(b), Log(c)));
      ActsOfLocked(PanicLock, Then(Log(a), Then(Log(b), Log(c))));
      assert LogActs(a) + (LogActs(b) + LogActs(c)) == LogActs(a) + LogActs(b) + LogActs(c);
    case CallAllocatePage => ActsOfOneWork(PageAllocLock);
    case CallFreePage => ActsOfOneWork(PageFreeLock);
    case CallAllocate(n) => AllocatesActs(n);
    case CallFree => ActsOfOneWork(FreeSpinlock);
    case CallReallocate(n) =>
      AllocatesActs(n);
      ActsOfOneWork(FreeSpinlock);
      WorkFirst(Free());
      ActsOfThen(Allocate(n), Work(Free()));
      ActsOfLocked(ReallocSpinlock, Then(Allocate(n), Work(Free())));
      assert AllocateActs(n) + ([Works] + ActsOf(Free())) == AllocateActs(n) + [Works] + ActsOf(Free());
    case CallMemoryMap(n) =>
      PagesActs(n);
      ActsOfOneWork(PageAllocLock);
      ActsOfThen(AllocatePages(n), Work(Done));
  }

  lemma WorkFirst(rest: Code)
    ensures ActsOf(Work(rest)) == [Works] + ActsOf(rest)
  {
  }

  /** What core c does in this step: nothing while it spins or others go on. */
  function Did(s: State, s': State, c: nat): seq<Act>
    requires c < |s.cores| && c < |s'.cores| && Pending(s.cores[c])
  {
    if s'.cores[c] == s.cores[c] then []
    else
      match s.cores[c].now
      case Work(_) => [Works]
      case Locked(l, _, _) => [Takes(l)]
      case Done => [Releases(s.cores[c].frames[0].held)]
  }

  /** What a core still has to do. */
  function Remaining(core: Core): seq<Act> { ActsOf(core.now) + AfterRelease(core.frames) }

  function AfterRelease(frames: seq<Frame>): seq<Act> {
    if |frames| == 0 then [] else [Releases(frames[0].held)] + ActsOf(frames[0].after) + AfterRelease(frames[1..])
  }

  lemma StepAccounts(s: State, c: nat)
    requires c < |s.cores| && Pending(s.cores[c])
    ensures Did(s, StepOf(s, c), c) + Remaining(StepOf(s, c).cores[c]) == Remaining(s.cores[c])
  {
    var core, s' := s.cores[c], StepOf(s, c);
    match core.now
    case Work(rest) =>
    case Locked(l, body, rest) =>
      if l !in s.taken {
        var frames := [Frame(l, rest)] + core.frames;
        assert frames[1..] == core.frames;
      }
    case Done =>
  }

  /** Core c's acts from state i to state j, while its call is pending. */
  ghost function Trace(states: seq<State>, c: nat, i: nat, j: nat): seq<Act>
    requires i <= j < |states|
    requires forall t :: i <= t <= j ==> c < |states[t].cores|
    requires forall t :: i <= t < j ==> Pending(states[t].cores[c])
    decreases j - i
  {
    if i == j then [] else Trace(states, c, i, j - 1) + Did(states[j - 1], states[j], c)
  }

  lemma NextAccounts(s: State, s': State, c: nat)
    requires Next(s, s') && c < |s.cores| && Pending(s.cores[c])
    ensures |s'.cores| == |s.cores| && Did(s, s', c) + Remaining(s'.cores[c]) == Remaining(s.cores[c])
  {
    hide StepOf, Did, Remaining;
    if d: nat :| d < |s.cores| && Pending(s.cores[d]) && s' == StepOf(s, d) {
      OnlyOwnCore(s, d);
      if d == c {
        StepAccounts(s, c);
      } else {
        NothingDone(s, s', c);
      }
    } else {
      NothingDone(s, s', c);
    }
  }

  lemma OnlyOwnCore(s: State, c: nat)
    requires c < |s.cores| && Pending(s.cores[c])
    ensures var s' := StepOf(s, c); |s'.cores| == |s.cores| && forall d :: 0 <= d < |s.cores| && d != c ==> s'.cores[d] == s.cores[d]
  {
  }

  lemma NothingDone(s: State, s': State, c: nat)
    requires c < |s.cores| && c < |s'.cores| && Pending(s.cores[c]) && s'.cores[c] == s.cores[c]
    ensures Did(s, s', c) + Remaining(s'.cores[c]) == Remaining(s.cores[c])
  {
    assert [] + Remaining(s.cores[c]) == Remaining(s.cores[c]);
  }

  /** In every run, what a call has done and what it has still to do are together, in
      order, what its function is listed with; so a call that has ended has done it
      all, each piece of work between taking and releasing its locks. */
  lemma {:induction false} CallDoesItsWork(states: seq<State>, c: nat, i: nat, j: nat, call: Call)
    requires Run(states) && i <= j < |states|
    requires forall t :: i <= t <= j ==> c < |states[t].cores|
    requires states[i].cores[c] == Core(CodeOf(call), []) && forall t :: i <= t < j ==> Pending(states[t].cores[c])
    ensures Trace(states, c, i, j) + Remaining(states[j].cores[c]) == Acts(call)
    ensures !Pending(states[j].cores[c]) ==> Trace(states, c, i, j) == Acts(call)
    decreases j - i
  {
    hide Remaining, Did, Next, Acts, CodeOf;
    if i == j {
      CallsAsListed(call);
      FreshCall(CodeOf(call));
      assert Trace(states, c, i, j) == [];
    } else {
      CallDoesItsWork(states, c, i, j - 1, call);
      var s, s' := states[j - 1], states[j];
      assert Next(s, s');
      NextAccounts(s, s', c);
      var earlier := Trace(states, c, i, j - 1);
      assert earlier + Did(s, s', c) + Remaining(s'.cores[c]) == earlier + (Did(s, s', c) + Remaining(s'.cores[c]));
    }
    if !Pending(states[j].cores[c]) { NothingRemains(states[j].cores[c]); }
  }

  lemma FreshCall(code: Code)
    ensures Remaining(Core(code, [])) == ActsOf(code)
  {
  }

  lemma NothingRemains(core: Core)
    requires !Pending(core)
    ensures Remaining(core) == []
  {
  }
}
