/** Bringing up the other cores (kernel/src/hal/cpu/smp/smp.cpp): each one sets
    itself up and increments CoresInitialized without atomicity, while the boot
    core waits for the count to reach CoreCount. */
module StartupBarrier {

  /** What an application processor does next in CPUStartPayload. */
  datatype Stage =
    | Parked                 // goto_address not yet written
    | LoadGdt
    | InstallIdt
    | InitLapic
    | LoadCr3
    | LogOnline
    | ReadCount              // CoresInitialized++: the read ...
    | WriteCount(read: nat)  // ... and the write of read + 1
    | Halted

  /** The boot core in SetupAllCPUs: releasing core next, waiting, or past the loop. */
  datatype Boot = Releasing(next: nat) | Waiting | Passed

  /** What has happened to a core: its descriptor tables are loaded, its LAPIC is
      initialized, the kernel's page tables are in CR3, and it has said so. */
  datatype Facts = Facts(gdt: bool, idt: bool, lapicReady: bool, kernelCr3: bool, logged: bool)

  /** Cores 1 .. CoreCount - 1 are aps[0] .., with facts[0] .. */
  datatype State = State(count: nat, boot: Boot, aps: seq<Stage>, facts: seq<Facts>)

  function CoreCount(s: State): nat { |s.aps| + 1 }

  function AfterStage(stage: Stage, count: nat): Stage {
    match stage
    case Parked => Parked
    case LoadGdt => InstallIdt
    case InstallIdt => InitLapic
    case InitLapic => LoadCr3
    case LoadCr3 => LogOnline
    case LogOnline => ReadCount
    case ReadCount => WriteCount(count)
    case WriteCount(_) => Halted
    case Halted => Halted
  }

  /** What a core's next step does to it. */
  function Effect(stage: Stage, f: Facts): Facts {
    match stage
    case LoadGdt => f.(gdt := true)
    case InstallIdt => f.(idt := true)
    case InitLapic => f.(lapicReady := true)
    case LoadCr3 => f.(kernelCr3 := true)
    case LogOnline => f.(logged := true)
    case _ => f
  }

  /** One step of application processor c. */
  function ApStep(s: State, c: nat): State
    requires c < |s.aps|
  {
    s.(aps := s.aps[c := AfterStage(s.aps[c], s.count)],
       facts := if c < |s.facts| then s.facts[c := Effect(s.aps[c], s.facts[c])] else s.facts,
       count := if s.aps[c].WriteCount? then s.aps[c].read + 1 else s.count)
  }

  /** One step of the boot core. */
  function BootStep(s: State): State {
    match s.boot
    case Releasing(i) =>
      if i < CoreCount(s) && 0 < i then
        s.(boot := Releasing(i + 1), aps := s.aps[i - 1 := if s.aps[i - 1].Parked? then LoadGdt else s.aps[i - 1]])
      else s.(boot := Waiting)
    case Waiting => if s.count < CoreCount(s) then s else s.(boot := Passed)
    case Passed => s
  }

  ghost predicate Next(s: State, s': State) {
    s' == BootStep(s) || exists c: nat :: c < |s.aps| && s' == ApStep(s, c)
  }

  ghost predicate Init(s: State) {
    && s.count == 1 && s.boot == Releasing(1) && |s.facts| == |s.aps|
    && forall c :: 0 <= c < |s.aps| ==> s.aps[c] == Parked && s.facts[c] == Facts(false, false, false, false, false)
  }

  ghost predicate Run(states: seq<State>) {
    && |states| > 0 && Init(states[0])
    && forall i :: 0 <= i < |states| - 1 ==> Next(states[i], states[i + 1])
  }

  /** How many cores have finished their write. */
  function Finished(aps: seq<Stage>): nat {
    if |aps| == 0 then 0 else (if aps[0].Halted? then 1 else 0) + Finished(aps[1..])
  }

  lemma {:induction false} FinishedUpdate(aps: seq<Stage>, c: nat, stage: Stage)
    requires c < |aps|
    ensures Finished(aps[c := stage]) == Finished(aps) - (if aps[c].Halted? then 1 else 0) + (if stage.Halted? then 1 else 0)
  {
    if c == 0 {
      assert aps[c := stage][1..] == aps[1..];
    } else {
      assert aps[c := stage][1..] == aps[1..][c - 1 := stage];
      FinishedUpdate(aps[1..], c - 1, stage);
    }
  }

  lemma {:induction false} AllFinished(aps: seq<Stage>)
    ensures Finished(aps) <= |aps|
    ensures Finished(aps) == |aps| <==> forall c :: 0 <= c < |aps| ==> aps[c] == Halted
  {
    if |aps| > 0 {
      AllFinished(aps[1..]);
      assert forall c :: 0 < c < |aps| ==> aps[c] == aps[1..][c - 1];
    }
  }

  /** How far a core has come. */
  function Position(stage: Stage): nat {
    match stage
    case Parked => 0
    case LoadGdt => 1
    case InstallIdt => 2
    case InitLapic => 3
    case LoadCr3 => 4
    case LogOnline => 5
    case ReadCount => 6
    case WriteCount(_) => 7
    case Halted => 8
  }

  /** What is true of a core there, and nothing else. */
  predicate FactsAt(stage: Stage, f: Facts) {
    var n := Position(stage);
    f == Facts(n > 1, n > 2, n > 3, n > 4, n > 5)
  }

  /** Each core is set up as far as it has come; the boot core has released the cores
      it is past. */
  ghost predicate SetUpInv(s: State) {
    && |s.facts| == |s.aps|
    && (forall c :: 0 <= c < |s.aps| ==> FactsAt(s.aps[c], s.facts[c]))
    && (s.boot.Releasing? ==> s.boot.next > 0)
    && (forall c :: 0 <= c < |s.aps| && (s.boot.Releasing? ==> c < s.boot.next - 1) ==> s.aps[c] != Parked)
  }

  lemma SetUpStays(s: State, s': State)
    requires SetUpInv(s) && Next(s, s')
    ensures SetUpInv(s')
  {
  }

  lemma {:induction false} SetUpAlways(states: seq<State>, k: nat)
    requires Run(states) && k < |states|
    ensures SetUpInv(states[k])
  {
    if k > 0 {
      SetUpAlways(states, k - 1);
      assert Next(states[k - 1], states[k]);
      SetUpStays(states[k - 1], states[k]);
    }
  }

  /** Neither the count nor any value about to be written back exceeds one plus
      the number of cores that have finished. */
  ghost predicate Inv(s: State) {
    && s.count <= 1 + Finished(s.aps)
    && (forall c :: 0 <= c < |s.aps| && s.aps[c].WriteCount? ==> s.aps[c].read <= 1 + Finished(s.aps))
    && (s.boot == Passed ==> forall c :: 0 <= c < |s.aps| ==> s.aps[c] == Halted)
  }

  lemma ApInv(s: State, c: nat)
    requires Inv(s) && c < |s.aps|
    ensures Inv(ApStep(s, c))
  {
    FinishedUpdate(s.aps, c, AfterStage(s.aps[c], s.count));
  }

  lemma BootInv(s: State)
    requires Inv(s)
    ensures Inv(BootStep(s))
  {
    AllFinished(s.aps);
    if s.boot.Releasing? && 0 < s.boot.next < CoreCount(s) {
      var c := s.boot.next - 1;
      FinishedUpdate(s.aps, c, if s.aps[c].Parked? then LoadGdt else s.aps[c]);
    }
  }

  lemma {:induction false} RunInv(states: seq<State>, k: nat)
    requires Run(states) && k < |states|
    ensures Inv(states[k])
  {
    if k > 0 {
      RunInv(states, k - 1);
      assert Next(states[k - 1], states[k]);
      if states[k] == BootStep(states[k - 1]) {
        BootInv(states[k - 1]);
      } else {
        var c: nat :| c < |states[k - 1].aps| && states[k] == ApStep(states[k - 1], c);
        ApInv(states[k - 1], c);
      }
    }
  }

  /** A core counts itself only after all of its set-up, and once the boot core waits
      every other core has been released. */
  lemma CountedAfterSetUp(states: seq<State>, k: nat, c: nat)
    requires Run(states) && k < |states| && c < |states[k].aps|
    ensures |states[k].facts| == |states[k].aps|
    ensures states[k].aps[c].ReadCount? || states[k].aps[c].WriteCount? || states[k].aps[c].Halted? ==>
              states[k].facts[c] == Facts(true, true, true, true, true)
    ensures states[k].boot.Waiting? ==> states[k].aps[c] != Parked
  {
    SetUpAlways(states, k);
  }

  /** Safety despite lost updates: once the boot core is past its loop, every other core
      has its descriptor tables, its LAPIC and the kernel's page tables, and has
      finished its write. */
  lemma BarrierIsSafe(states: seq<State>, k: nat)
    requires Run(states) && k < |states|
    ensures states[k].count <= 1 + Finished(states[k].aps)
    ensures states[k].boot == Passed ==>
              && |states[k].facts| == |states[k].aps|
              && forall c :: 0 <= c < |states[k].aps| ==>
                   states[k].aps[c] == Halted && states[k].facts[c] == Facts(true, true, true, true, true)
  {
    RunInv(states, k);
    SetUpAlways(states, k);
  }

  /** The price of the plain increment: with every core finished and the count short
      of CoreCount, the boot core waits forever. */
  lemma {:induction false} LostUpdateIsForever(states: seq<State>, k: nat, j: nat)
    requires Run(states) && k <= j < |states|
    requires states[k].boot == Waiting && (forall c :: 0 <= c < |states[k].aps| ==> states[k].aps[c] == Halted)
    requires states[k].count < CoreCount(states[k])
    ensures states[j] == states[k]
  {
    if j > k {
      LostUpdateIsForever(states, k, j - 1);
      SetUpAlways(states, k);
      var s := states[j - 1];
      assert Next(s, states[j]);
      forall c: nat | c < |s.aps|
        ensures ApStep(s, c) == s
      {
        assert s.aps[c := Halted] == s.aps && s.facts[c := s.facts[c]] == s.facts;
      }
    }
  }

  lemma Extend(states: seq<State>, s': State) returns (longer: seq<State>)
    requires Run(states) && Next(states[|states| - 1], s')
    ensures Run(longer) && longer[|longer| - 1] == s'
  {
    longer := states + [s'];
    forall i | 0 <= i < |longer| - 1
      ensures Next(longer[i], longer[i + 1])
    {
      if i < |states| - 1 { assert Next(states[i], states[i + 1]); }
    }
  }

  /** A run in which the boot core waits and core c goes on until it reads. */
  lemma ToReadCount(states: seq<State>, s: State, c: nat) returns (longer: seq<State>)
    requires Run(states) && states[|states| - 1] == s && c < |s.aps| == |s.facts| && s.aps[c] == LoadGdt
    ensures Run(longer)
    ensures longer[|longer| - 1] == s.(aps := s.aps[c := ReadCount], facts := s.facts[c := Facts(true, true, true, true, true)])
  {
    var s1 := ApStep(s, c);
    longer := Extend(states, s1);
    var s2 := ApStep(s1, c);
    longer := Extend(longer, s2);
    var s3 := ApStep(s2, c);
    longer := Extend(longer, s3);
    var s4 := ApStep(s3, c);
    longer := Extend(longer, s4);
    var s5 := ApStep(s4, c);
    longer := Extend(longer, s5);
    assert s5.aps == s.aps[c := ReadCount] && s5.facts == s.facts[c := Facts(true, true, true, true, true)];
  }

  /** It does happen: a run of three cores in which both others read 1 before
      either writes 2, so that all are done and the boot core still waits. */
  lemma UpdatesCanBeLost() returns (states: seq<State>)
    ensures Run(states)
    ensures var s := states[|states| - 1]; s.count == 2 && s.boot == Waiting && s.aps == [Halted, Halted] && s.count < CoreCount(s)
  {
    var no, all := Facts(false, false, false, false, false), Facts(true, true, true, true, true);
    var s := State(1, Releasing(1), [Parked, Parked], [no, no]);
    states := Extend([s], State(1, Releasing(2), [LoadGdt, Parked], [no, no]));
    states := Extend(states, State(1, Releasing(3), [LoadGdt, LoadGdt], [no, no]));
    var s0 := State(1, Waiting, [LoadGdt, LoadGdt], [no, no]);
    states := Extend(states, s0);
    states := ToReadCount(states, s0, 0);
    states := ToReadCount(states, State(1, Waiting, [ReadCount, LoadGdt], [all, no]), 1);
    var s1 := State(1, Waiting, [ReadCount, ReadCount], [all, all]);
    states := ApGoes(states, s1, 0, s1.(aps := [WriteCount(1), ReadCount]));
    states := ApGoes(states, s1.(aps := [WriteCount(1), ReadCount]), 1, s1.(aps := [WriteCount(1), WriteCount(1)]));
    var s2 := State(2, Waiting, [Halted, WriteCount(1)], [all, all]);
    states := ApGoes(states, s1.(aps := [WriteCount(1), WriteCount(1)]), 0, s2);
    states := ApGoes(states, s2, 1, s2.(aps := [Halted, Halted]));
  }

  lemma ApGoes(states: seq<State>, s: State, c: nat, s': State) returns (longer: seq<State>)
    requires Run(states) && states[|states| - 1] == s && c < |s.aps| && s' == ApStep(s, c)
    ensures Run(longer) && longer[|longer| - 1] == s'
  {
    longer := Extend(states, s');
  }

  /** Increments that do not overlap are never lost: if no core reads the count
      while another is between its read and its write, the count is exact. */
  ghost predicate OneWriter(s: State) {
    forall c, d :: 0 <= c < |s.aps| && 0 <= d < |s.aps| && s.aps[c].WriteCount? && s.aps[d].WriteCount? ==> c == d
  }

  ghost predicate Serial(states: seq<State>) {
    forall k :: 0 <= k < |states| ==> OneWriter(states[k])
  }

  ghost predicate ExactInv(s: State) {
    && s.count == 1 + Finished(s.aps)
    && forall c :: 0 <= c < |s.aps| && s.aps[c].WriteCount? ==> s.aps[c].read == s.count
  }

  lemma {:induction false} SerialIsExact(states: seq<State>, k: nat)
    requires Run(states) && Serial(states) && k < |states|
    ensures ExactInv(states[k])
  {
    if k == 0 {
      NoneFinished(states[0].aps);
    } else {
      SerialIsExact(states, k - 1);
      var s := states[k - 1];
      assert Next(s, states[k]) && OneWriter(s);
      if states[k] == BootStep(s) {
        BootKeepsExact(s);
      } else {
        var c: nat :| c < |s.aps| && states[k] == ApStep(s, c);
        ApKeepsExact(s, c);
      }
    }
  }

  lemma BootKeepsExact(s: State)
    requires ExactInv(s)
    ensures ExactInv(BootStep(s))
  {
    if s.boot.Releasing? && 0 < s.boot.next < CoreCount(s) {
      var c := s.boot.next - 1;
      FinishedUpdate(s.aps, c, if s.aps[c].Parked? then LoadGdt else s.aps[c]);
    }
  }

  lemma ApKeepsExact(s: State, c: nat)
    requires ExactInv(s) && OneWriter(s) && c < |s.aps|
    ensures ExactInv(ApStep(s, c))
  {
    FinishedUpdate(s.aps, c, AfterStage(s.aps[c], s.count));
  }

  lemma {:induction false} NoneFinished(aps: seq<Stage>)
    requires forall c :: 0 <= c < |aps| ==> aps[c] == Parked
    ensures Finished(aps) == 0
  {
    if |aps| > 0 {
      NoneFinished(aps[1..]);
    }
  }

  /** An update is lost, or sure to be: two cores are between read and write, or one
      that is will write back too little, or too little is in the count and in all
      that will be written. */
  ghost predicate Lost(s: State) {
    || !OneWriter(s)
    || (exists c :: 0 <= c < |s.aps| && s.aps[c].WriteCount? && s.aps[c].read <= Finished(s.aps))
    || (s.count <= Finished(s.aps) && forall c :: 0 <= c < |s.aps| && s.aps[c].WriteCount? ==> s.aps[c].read <= Finished(s.aps))
  }

  /** From the first overlap on, an update stays lost. */
  lemma LostStaysLost(s: State, s': State)
    requires Inv(s) && Next(s, s') && Lost(s)
    ensures Lost(s')
  {
    if s' == BootStep(s) {
      BootLeavesCount(s);
    } else {
      var c: nat :| c < |s.aps| && s' == ApStep(s, c);
      LostApStep(s, c);
    }
  }

  lemma BootLeavesCount(s: State)
    requires Lost(s)
    ensures Lost(BootStep(s))
  {
    var s' := BootStep(s);
    if s.boot.Releasing? && 0 < s.boot.next < CoreCount(s) {
      var c := s.boot.next - 1;
      FinishedUpdate(s.aps, c, if s.aps[c].Parked? then LoadGdt else s.aps[c]);
    }
    assert |s'.aps| == |s.aps| && s'.count == s.count && Finished(s'.aps) == Finished(s.aps);
    forall d | 0 <= d < |s.aps|
      ensures s'.aps[d].WriteCount? == s.aps[d].WriteCount? && (s.aps[d].WriteCount? ==> s'.aps[d] == s.aps[d])
    {
    }
  }

  lemma LostApStep(s: State, c: nat)
    requires Inv(s) && Lost(s) && c < |s.aps|
    ensures Lost(ApStep(s, c))
  {
    var s', stage := ApStep(s, c), s.aps[c];
    FinishedUpdate(s.aps, c, AfterStage(stage, s.count));
    assert forall d :: 0 <= d < |s.aps| && d != c ==> s'.aps[d] == s.aps[d];
    if stage.WriteCount? && !OneWriter(s) {
      var d, e :| 0 <= d < |s.aps| && 0 <= e < |s.aps| && s.aps[d].WriteCount? && s.aps[e].WriteCount? && d != e;
      var other := if d == c then e else d;
      assert s'.aps[other].read <= Finished(s'.aps);
    } else if !OneWriter(s) {
      var d, e :| 0 <= d < |s.aps| && 0 <= e < |s.aps| && s.aps[d].WriteCount? && s.aps[e].WriteCount? && d != e;
      assert s'.aps[d].WriteCount? && s'.aps[e].WriteCount?;
    } else if d :| 0 <= d < |s.aps| && s.aps[d].WriteCount? && s.aps[d].read <= Finished(s.aps) {
      if d != c { assert s'.aps[d].WriteCount? && s'.aps[d].read <= Finished(s'.aps); }
    }
  }

  /** A run is lost from its first overlap on. */
  lemma {:induction false} OverlapLoses(states: seq<State>, j: nat, k: nat)
    requires Run(states) && j <= k < |states| && !OneWriter(states[j])
    ensures Lost(states[k])
  {
    if j < k {
      OverlapLoses(states, j, k - 1);
      RunInv(states, k - 1);
      assert Next(states[k - 1], states[k]);
      LostStaysLost(states[k - 1], states[k]);
    }
  }

  lemma Prefix(states: seq<State>, k: nat)
    requires Run(states) && k < |states|
    ensures Run(states[..k + 1]) && states[..k + 1][k] == states[k]
  {
    var p := states[..k + 1];
    forall i | 0 <= i < |p| - 1
      ensures Next(p[i], p[i + 1])
    {
      assert Next(states[i], states[i + 1]);
    }
  }

  /** The exact condition, for every run: once every other core has finished, the
      count has reached CoreCount exactly if no two increments overlapped. */
  lemma ExactExactlyWhenSerial(states: seq<State>, k: nat)
    requires Run(states) && k < |states| && forall c :: 0 <= c < |states[k].aps| ==> states[k].aps[c] == Halted
    ensures states[k].count == CoreCount(states[k]) <==> Serial(states[..k + 1])
  {
    var s, p := states[k], states[..k + 1];
    AllFinished(s.aps);
    if Serial(p) {
      Prefix(states, k);
      SerialIsExact(p, k);
    } else {
      var j :| 0 <= j < |p| && !OneWriter(p[j]);
      OverlapLoses(states, j, k);
    }
  }

  /** So the boot core gets past its loop exactly if every other core has finished
      and no two increments overlapped ... */
  lemma PassesExactly(states: seq<State>, k: nat)
    requires Run(states) && k < |states| && states[k].boot == Waiting
    ensures BootStep(states[k]).boot == Passed <==>
            Serial(states[..k + 1]) && forall c :: 0 <= c < |states[k].aps| ==> states[k].aps[c] == Halted
  {
    RunInv(states, k);
    AllFinished(states[k].aps);
    if forall c :: 0 <= c < |states[k].aps| ==> states[k].aps[c] == Halted {
      ExactExactlyWhenSerial(states, k);
    }
  }

  /** ... and if two did, and all have finished, it waits forever. */
  lemma OverlapHangs(states: seq<State>, k: nat, j: nat)
    requires Run(states) && k <= j < |states| && states[k].boot == Waiting && !Serial(states[..k + 1])
    requires forall c :: 0 <= c < |states[k].aps| ==> states[k].aps[c] == Halted
    ensures states[j] == states[k]
  {
    ExactExactlyWhenSerial(states, k);
    RunInv(states, k);
    AllFinished(states[k].aps);
    LostUpdateIsForever(states, k, j);
  }
}
