/** The seccomp filter of the release broker: the emitted classic-BPF program, a step-by-step
    interpreter for it, and the proof that the program computes the intended decision. */
module Containment {
  newtype u8 = x: int | 0 <= x < 0x100
  newtype u16 = x: int | 0 <= x < 0x1_0000
  type u32 = bv32

  // ----- The constants of the filter and of the Linux x86-64 ABI

  const LD_W_ABS: u16 := 0x20
  const JMP_JEQ_K: u16 := 0x15
  const JMP_JGE_K: u16 := 0x35
  const ALU_AND_K: u16 := 0x54
  const RET_K: u16 := 0x06

  const AUDIT_ARCH_X86_64: u32 := 0xc000_003e
  const X32_SYSCALL_BIT: u32 := 0x4000_0000
  const RET_KILL_PROCESS: u32 := 0x8000_0000
  const RET_ERRNO: u32 := 0x0005_0000
  const RET_ALLOW: u32 := 0x7fff_0000
  const EPERM: u32 := 1
  const ENOSYS: u32 := 38

  const SYS_CLONE: u32 := 56
  const SYS_CLONE3: u32 := 435

  // CLONE_VM, CLONE_FS, CLONE_FILES, CLONE_SIGHAND, CLONE_SYSVSEM and CLONE_THREAD
  const CLONE_REQUIRED: u32 := 0x100 | 0x200 | 0x400 | 0x800 | 0x4_0000 | 0x1_0000
  // ... and CLONE_SETTLS, CLONE_PARENT_SETTID, CLONE_CHILD_SETTID and CLONE_CHILD_CLEARTID
  const CLONE_ALLOWED: u32 := CLONE_REQUIRED | 0x8_0000 | 0x10_0000 | 0x100_0000 | 0x20_0000

  // fork, vfork, setsid, setpgid, unshare, setns, mount, umount2, pivot_root, move_mount, open_tree,
  // fsopen, fsconfig, fsmount, mount_setattr, chroot, ptrace, process_vm_writev and pidfd_getfd
  const DENIED: seq<u32> :=
    [57, 58, 112, 109, 272, 308, 165, 166, 155, 429, 428, 430, 431, 432, 442, 161, 101, 311, 438]

  datatype SockFilter = SockFilter(code: u16, jt: u8, jf: u8, k: u32)

  /** The four words of struct seccomp_data that the filter loads. */
  datatype SeccompData = SeccompData(nr: u32, arch: u32, arg0Low: u32, arg0High: u32)

  // ----- The machine

  datatype Outcome = Returned(action: u32) | Fault

  function Load(d: SeccompData, offset: u32): (word: u32)
    requires KnownWord(offset)
  {
    if offset == 0 then d.nr else if offset == 4 then d.arch else if offset == 16 then d.arg0Low else d.arg0High
  }

  predicate AtLeast(a: u32, k: u32) { a >= k }

  predicate KnownWord(offset: u32) { offset == 0 || offset == 4 || offset == 16 || offset == 20 }

  /** What one instruction does: skip that many instructions with a new accumulator, or stop. */
  datatype Effect = Continue(skip: nat, a: u32) | Stop(outcome: Outcome)

  function Step(i: SockFilter, a: u32, d: SeccompData): Effect {
    if i.code == LD_W_ABS then if KnownWord(i.k) then Continue(0, Load(d, i.k)) else Stop(Fault)
    else if i.code == ALU_AND_K then Continue(0, a & i.k)
    else if i.code == RET_K then Stop(Returned(i.k))
    else if i.code == JMP_JEQ_K then Continue(if a == i.k then i.jt as nat else i.jf as nat, a)
    else if i.code == JMP_JGE_K then Continue(if AtLeast(a, i.k) then i.jt as nat else i.jf as nat, a)
    else Stop(Fault)
  }

  /** Runs the program from `pc` with the given accumulator. Leaving the program, an unknown
      instruction and a load outside the four known words are faults. */
  function Run(program: seq<SockFilter>, pc: nat, a: u32, d: SeccompData): (r: Outcome)
    decreases |program| - pc
  {
    if pc >= |program| then Fault
    else
      match Step(program[pc], a, d)
      case Stop(outcome) => outcome
      case Continue(skip, a') => Run(program, pc + 1 + skip, a', d)
  }

  // ----- The intended decision

  /** A clone call that only starts a thread: the high flag word is zero, every required flag is set
      and no flag outside the allowlist is. */
  predicate StartsThreadOnly(d: SeccompData) {
    && d.arg0High == 0
    && d.arg0Low & CLONE_REQUIRED == CLONE_REQUIRED
    && d.arg0Low & !CLONE_ALLOWED == 0
  }

  /** The decision for a call of the native ABI. */
  function NativeDecision(denied: seq<u32>, d: SeccompData): (action: u32) {
    if d.nr == SYS_CLONE3 then RET_ERRNO | ENOSYS
    else if d.nr == SYS_CLONE then if StartsThreadOnly(d) then RET_ALLOW else RET_ERRNO | EPERM
    else if d.nr in denied then RET_ERRNO | EPERM
    else RET_ALLOW
  }

  function Decision(denied: seq<u32>, d: SeccompData): (action: u32) {
    if d.arch != AUDIT_ARCH_X86_64 || AtLeast(d.nr, X32_SYSCALL_BIT) then RET_KILL_PROCESS
    else NativeDecision(denied, d)
  }

  // ----- The compiler

  function Statement(code: u16, k: u32): SockFilter { SockFilter(code, 0, 0, k) }
  function Jump(code: u16, k: u32, jt: u8, jf: u8): SockFilter { SockFilter(code, jt, jf, k) }

  function Prologue(): (filters: seq<SockFilter>)
    ensures |filters| == 20
  {
    [ Statement(LD_W_ABS, 4),
      Jump(JMP_JEQ_K, AUDIT_ARCH_X86_64, 1, 0),
      Statement(RET_K, RET_KILL_PROCESS),
      Statement(LD_W_ABS, 0),
      Jump(JMP_JGE_K, X32_SYSCALL_BIT, 0, 1),
      Statement(RET_K, RET_KILL_PROCESS),
      Jump(JMP_JEQ_K, SYS_CLONE3, 0, 1),
      Statement(RET_K, RET_ERRNO | ENOSYS),
      Jump(JMP_JEQ_K, SYS_CLONE, 0, 10),
      Statement(LD_W_ABS, 20),
      Jump(JMP_JEQ_K, 0, 0, 6),
      Statement(LD_W_ABS, 16),
      Statement(ALU_AND_K, CLONE_REQUIRED),
      Jump(JMP_JEQ_K, CLONE_REQUIRED, 0, 3),
      Statement(LD_W_ABS, 16),
      Statement(ALU_AND_K, !CLONE_ALLOWED),
      Jump(JMP_JEQ_K, 0, 1, 0),
      Statement(RET_K, RET_ERRNO | EPERM),
      Statement(RET_K, RET_ALLOW),
      Statement(LD_W_ABS, 0) ]
  }

  function Tail(denied: seq<u32>): (filters: seq<SockFilter>)
    ensures |filters| == 2 * |denied| + 1
  {
    if denied == [] then [Statement(RET_K, RET_ALLOW)]
    else [Jump(JMP_JEQ_K, denied[0], 0, 1), Statement(RET_K, RET_ERRNO | EPERM)] + Tail(denied[1..])
  }

  /** What the kernel demands of a filter before it runs it: only the instructions above, every load
      at a known word, every jump inside the program, and a return at the end. */
  ghost predicate WellFormed(program: seq<SockFilter>) {
    && 0 < |program| && program[|program| - 1].code == RET_K
    && forall pc | 0 <= pc < |program| :: InstructionOk(program[pc], |program| - pc)
  }

  /** An instruction with `left` instructions of its program from itself to the end. */
  predicate InstructionOk(i: SockFilter, left: nat) {
    || (i.code == LD_W_ABS && KnownWord(i.k))
    || i.code == ALU_AND_K
    || i.code == RET_K
    || ((i.code == JMP_JEQ_K || i.code == JMP_JGE_K) && 1 + i.jt as nat < left && 1 + i.jf as nat < left)
  }

  lemma StepStaysInside(i: SockFilter, left: nat, a: u32, d: SeccompData)
    requires InstructionOk(i, left) && (left == 1 ==> i.code == RET_K)
    requires left > 0
    ensures match Step(i, a, d)
            case Stop(outcome) => outcome.Returned?
            case Continue(skip, _) => 1 + skip < left
  {}

  /** A well-formed program returns from wherever it is started. */
  lemma {:induction false} WellFormedReturns(program: seq<SockFilter>, pc: nat, a: u32, d: SeccompData)
    requires WellFormed(program) && pc < |program|
    ensures Run(program, pc, a, d).Returned?
    decreases |program| - pc
  {
    hide InstructionOk, Step;
    StepStaysInside(program[pc], |program| - pc, a, d);
    match Step(program[pc], a, d)
    case Stop(_) =>
    case Continue(skip, a') => WellFormedReturns(program, pc + 1 + skip, a', d);
  }

  /** The chain of comparisons for the denied calls, wherever it starts in the program. */
  lemma {:induction false} RunTail(program: seq<SockFilter>, pc: nat, denied: seq<u32>, d: SeccompData)
    requires pc <= |program| && program[pc..] == Tail(denied)
    ensures Run(program, pc, d.nr, d) == Returned(if d.nr in denied then RET_ERRNO | EPERM else RET_ALLOW)
    decreases denied
  {
    var t := Tail(denied);
    assert program[pc] == t[0];
    if denied != [] {
      assert program[pc + 1] == t[1];
      assert program[pc + 2..] == t[2..] == Tail(denied[1..]);
      if d.nr != denied[0] {
        RunTail(program, pc + 2, denied[1..], d);
      }
    }
  }

  function Program(denied: seq<u32>): seq<SockFilter> { Prologue() + Tail(denied) }

  // The blocks of the prologue, last first. Each takes the machine from the start of its block.

  lemma RunDenied(denied: seq<u32>, d: SeccompData, a: u32)
    ensures Run(Program(denied), 19, a, d)
            == Returned(if d.nr in denied then RET_ERRNO | EPERM else RET_ALLOW)
  {
    var p := Program(denied);
    assert p[19] == Statement(LD_W_ABS, 0);
    assert p[20..] == Tail(denied);
    RunTail(p, 20, denied, d);
  }

  lemma RunCloneVerdicts(denied: seq<u32>, d: SeccompData, a: u32)
    ensures Run(Program(denied), 17, a, d) == Returned(RET_ERRNO | EPERM)
    ensures Run(Program(denied), 18, a, d) == Returned(RET_ALLOW)
  {
    var p := Program(denied);
    assert p[17] == Statement(RET_K, RET_ERRNO | EPERM) && p[18] == Statement(RET_K, RET_ALLOW);
  }

  lemma RunCloneForbidden(denied: seq<u32>, d: SeccompData, a: u32)
    ensures Run(Program(denied), 14, a, d)
            == Returned(if d.arg0Low & !CLONE_ALLOWED == 0 then RET_ALLOW else RET_ERRNO | EPERM)
  {
    var p := Program(denied);
    assert p[14] == Statement(LD_W_ABS, 16) && p[15] == Statement(ALU_AND_K, !CLONE_ALLOWED);
    assert p[16] == Jump(JMP_JEQ_K, 0, 1, 0);
    var low, masked := d.arg0Low, d.arg0Low & !CLONE_ALLOWED;
    RunCloneVerdicts(denied, d, masked);
    assert Run(p, 15, low, d) == Run(p, 16, masked, d);
  }

  lemma RunCloneRequired(denied: seq<u32>, d: SeccompData, a: u32)
    ensures Run(Program(denied), 11, a, d)
            == Returned(if d.arg0Low & CLONE_REQUIRED == CLONE_REQUIRED && d.arg0Low & !CLONE_ALLOWED == 0
                        then RET_ALLOW else RET_ERRNO | EPERM)
  {
    var p := Program(denied);
    assert p[11] == Statement(LD_W_ABS, 16) && p[12] == Statement(ALU_AND_K, CLONE_REQUIRED);
    assert p[13] == Jump(JMP_JEQ_K, CLONE_REQUIRED, 0, 3);
    var low, masked := d.arg0Low, d.arg0Low & CLONE_REQUIRED;
    RunCloneVerdicts(denied, d, masked);
    RunCloneForbidden(denied, d, masked);
    assert Run(p, 12, low, d) == Run(p, 13, masked, d);
  }

  lemma RunLoad(p: seq<SockFilter>, pc: nat, k: u32, a: u32, d: SeccompData)
    requires pc < |p| && p[pc] == Statement(LD_W_ABS, k) && KnownWord(k)
    ensures Run(p, pc, a, d) == Run(p, pc + 1, Load(d, k), d)
  {}

  lemma RunEqual(p: seq<SockFilter>, pc: nat, k: u32, jt: u8, jf: u8, a: u32, d: SeccompData)
    requires pc < |p| && p[pc] == Jump(JMP_JEQ_K, k, jt, jf)
    ensures Run(p, pc, a, d) == Run(p, pc + 1 + (if a == k then jt as nat else jf as nat), a, d)
  {}

  lemma RunAtLeast(p: seq<SockFilter>, pc: nat, k: u32, jt: u8, jf: u8, a: u32, d: SeccompData)
    requires pc < |p| && p[pc] == Jump(JMP_JGE_K, k, jt, jf)
    ensures Run(p, pc, a, d) == Run(p, pc + 1 + (if AtLeast(a, k) then jt as nat else jf as nat), a, d)
  {
    hide AtLeast;
  }

  lemma RunReturn(p: seq<SockFilter>, pc: nat, k: u32, a: u32, d: SeccompData)
    requires pc < |p| && p[pc] == Statement(RET_K, k)
    ensures Run(p, pc, a, d) == Returned(k)
  {}

  lemma RunClone(denied: seq<u32>, d: SeccompData)
    ensures Run(Program(denied), 8, d.nr, d)
            == Returned(if d.nr == SYS_CLONE then if StartsThreadOnly(d) then RET_ALLOW else RET_ERRNO | EPERM
                        else if d.nr in denied then RET_ERRNO | EPERM else RET_ALLOW)
  {
    hide Run;
    var p := Program(denied);
    RunEqual(p, 8, SYS_CLONE, 0, 10, d.nr, d);
    if d.nr == SYS_CLONE {
      RunLoad(p, 9, 20, d.nr, d);
      RunEqual(p, 10, 0, 0, 6, d.arg0High, d);
      RunCloneRequired(denied, d, d.arg0High);
      RunCloneVerdicts(denied, d, d.arg0High);
    } else {
      RunDenied(denied, d, d.nr);
    }
  }

  lemma RunNative(denied: seq<u32>, d: SeccompData)
    ensures Run(Program(denied), 6, d.nr, d) == Returned(NativeDecision(denied, d))
  {
    hide Run, StartsThreadOnly;
    var p := Program(denied);
    RunEqual(p, 6, SYS_CLONE3, 0, 1, d.nr, d);
    RunReturn(p, 7, RET_ERRNO | ENOSYS, d.nr, d);
    RunClone(denied, d);
  }

  lemma RunX32(denied: seq<u32>, d: SeccompData, a: u32)
    ensures Run(Program(denied), 3, a, d)
            == Returned(if AtLeast(d.nr, X32_SYSCALL_BIT) then RET_KILL_PROCESS else NativeDecision(denied, d))
  {
    hide Run, AtLeast, NativeDecision;
    var p := Program(denied);
    RunLoad(p, 3, 0, a, d);
    RunAtLeast(p, 4, X32_SYSCALL_BIT, 0, 1, d.nr, d);
    RunReturn(p, 5, RET_KILL_PROCESS, d.nr, d);
    RunNative(denied, d);
  }

  /** For any denied list and any call, the program halts with exactly the intended decision. */
  lemma ProgramMeansDecision(denied: seq<u32>, d: SeccompData)
    ensures Run(Program(denied), 0, 0, d) == Returned(Decision(denied, d))
  {
    hide Run, AtLeast, NativeDecision;
    var p := Program(denied);
    RunLoad(p, 0, 4, 0, d);
    RunEqual(p, 1, AUDIT_ARCH_X86_64, 1, 0, d.arch, d);
    RunReturn(p, 2, RET_KILL_PROCESS, d.arch, d);
    RunX32(denied, d, d.arch);
  }

  /** The decision in words: nothing outside the native ABI runs, no denied call and no clone that
      makes a process is allowed, and every other call is. */
  lemma DecisionIsContainment(denied: seq<u32>, d: SeccompData)
    requires SYS_CLONE !in denied
    ensures Decision(denied, d) == RET_ALLOW <==>
            && d.arch == AUDIT_ARCH_X86_64 && !AtLeast(d.nr, X32_SYSCALL_BIT)
            && d.nr !in denied && d.nr != SYS_CLONE3
            && (d.nr == SYS_CLONE ==> StartsThreadOnly(d))
    ensures Decision(denied, d) == RET_KILL_PROCESS <==> d.arch != AUDIT_ARCH_X86_64 || AtLeast(d.nr, X32_SYSCALL_BIT)
  {
    hide AtLeast, StartsThreadOnly;
  }

  /** The codes of the instructions are put together as the kernel's headers do: class, size and mode of a load, class and
      operation of a jump or an operation on the accumulator. */
  lemma InstructionCodes()
    ensures LD_W_ABS == 0x00 + 0x00 + 0x20
    ensures JMP_JEQ_K == 0x05 + 0x10 && JMP_JGE_K == 0x05 + 0x30
    ensures ALU_AND_K == 0x04 + 0x50 && RET_K == 0x06
  {}

  /** The words of struct seccomp_data: the number, the architecture, the instruction pointer, the first argument. */
  lemma WordsOfCall(d: SeccompData, pointerLow: u32, pointerHigh: u32, i: nat)
    requires i < 6 && KnownWord(4 * i as u32)
    ensures Load(d, 4 * i as u32) == [d.nr, d.arch, pointerLow, pointerHigh, d.arg0Low, d.arg0High][i]
  {}

  lemma ThreadFlags(d: SeccompData)
    ensures StartsThreadOnly(d) <==> d.arg0High == 0 && d.arg0Low & 0x5_0f00 == 0x5_0f00 && d.arg0Low & 0xfec2_f0ff == 0
    ensures StartsThreadOnly(d) ==> d.arg0Low & 0x1_0000 == 0x1_0000 && d.arg0Low & 0x100 == 0x100
  {
    Masks();
    if StartsThreadOnly(d) { RequiredBits(d.arg0Low); }
  }

  /** CLONE_THREAD and CLONE_VM are among the required flags. */
  lemma RequiredBits(flags: u32)
    requires flags & 0x5_0f00 == 0x5_0f00
    ensures flags & 0x1_0000 == 0x1_0000 && flags & 0x100 == 0x100
  {
    assert flags & 0x5_0f00 & 0x1_0000 == flags & 0x1_0000;
    assert flags & 0x5_0f00 & 0x100 == flags & 0x100;
  }

  lemma Masks()
    ensures CLONE_REQUIRED == 0x5_0f00 && !CLONE_ALLOWED == 0xfec2_f0ff
  {}

  /** The denied calls of the shipped filter, by number. */
  predicate IsDenied(nr: u32) {
    nr in {57, 58, 101, 109, 112, 155, 161, 165, 166, 272, 308, 311, 428, 429, 430, 431, 432, 438, 442}
  }

  lemma DeniedNumbers(nr: u32)
    ensures nr in DENIED <==> IsDenied(nr)
  {}

  /** What the shipped filter answers, in numbers: 59 instructions; kill outside the x86-64 ABI and for x32 calls, "no such
      call" for clone3, "not permitted" for the denied calls and for a clone with other than the flags of a thread, and
      otherwise allow. */
  lemma ShippedFilterContains(d: SeccompData)
    ensures |Program(DENIED)| == 59
    ensures Run(Program(DENIED), 0, 0, d) == Returned(
      if d.arch != 0xc000_003e || d.nr >= 0x4000_0000 then 0x8000_0000
      else if d.nr == 435 then 0x0005_0026
      else if IsDenied(d.nr) then 0x0005_0001
      else if d.nr == 56 && !(d.arg0High == 0 && d.arg0Low & 0x5_0f00 == 0x5_0f00 && d.arg0Low & 0xfec2_f0ff == 0) then 0x0005_0001
      else 0x7fff_0000)
  {
    hide AtLeast, StartsThreadOnly, Run, Decision, NativeDecision, IsDenied;
    ProgramMeansDecision(DENIED, d);
    ThreadFlags(d);
    DeniedNumbers(d.nr);
    ShippedListSparesClone();
    DecisionInNumbers(d);
  }

  lemma DecisionInNumbers(d: SeccompData)
    ensures Decision(DENIED, d) ==
      if d.arch != 0xc000_003e || d.nr >= 0x4000_0000 then 0x8000_0000
      else if d.nr == 435 then 0x0005_0026
      else if d.nr == 56 then if StartsThreadOnly(d) then 0x7fff_0000 else 0x0005_0001
      else if d.nr in DENIED then 0x0005_0001
      else 0x7fff_0000
  {
    hide StartsThreadOnly;
    assert RET_ERRNO | ENOSYS == 0x0005_0026 && RET_ERRNO | EPERM == 0x0005_0001;
  }

  lemma ShippedListSparesClone()
    ensures SYS_CLONE !in DENIED
  {}

  lemma {:induction false} TailWellFormed(denied: seq<u32>)
    ensures WellFormed(Tail(denied))
  {
    if denied != [] {
      var (t, rest) := (Tail(denied), Tail(denied[1..]));
      TailWellFormed(denied[1..]);
      forall pc | 0 <= pc < |t| ensures InstructionOk(t[pc], |t| - pc) {
        if pc >= 2 {
          assert t[pc] == rest[pc - 2] && InstructionOk(rest[pc - 2], |rest| - (pc - 2));
        }
      }
      assert t[|t| - 1] == rest[|rest| - 1];
    }
  }

  lemma PrologueWellFormed(pc: nat, left: nat)
    requires pc < 20 && left >= 21 - pc
    ensures InstructionOk(Prologue()[pc], left)
  {}

  lemma ProgramWellFormed(denied: seq<u32>)
    ensures WellFormed(Program(denied))
  {
    hide Prologue, InstructionOk;
    var (p, t, q) := (Program(denied), Tail(denied), Prologue());
    TailWellFormed(denied);
    forall pc | 0 <= pc < |p| ensures InstructionOk(p[pc], |p| - pc) {
      if pc < 20 {
        assert p[pc] == q[pc];
        PrologueWellFormed(pc, |p| - pc);
      } else {
        assert p[pc] == t[pc - 20] && InstructionOk(t[pc - 20], |t| - (pc - 20));
      }
    }
    assert p[|p| - 1] == t[|t| - 1];
  }

  lemma {:induction false} TailPrefix(denied: seq<u32>, pairs: seq<SockFilter>, rest: seq<u32>)
    requires pairs + Tail(rest) == Tail(denied) && rest != []
    ensures pairs + [Jump(JMP_JEQ_K, rest[0], 0, 1)] + [Statement(RET_K, RET_ERRNO | EPERM)] + Tail(rest[1..])
            == Tail(denied)
  {}

  /** Builds the filter by appending two instructions for every denied call. */
  method ProcessContainmentFilter(denied: seq<u32>) returns (filters: seq<SockFilter>)
    ensures forall d :: Run(filters, 0, 0, d) == Returned(Decision(denied, d))
    ensures WellFormed(filters)
    ensures |filters| == 21 + 2 * |denied|
  {
    filters := Prologue();
    ghost var pairs := [];
    for i := 0 to |denied|
      invariant filters == Prologue() + pairs
      invariant pairs + Tail(denied[i..]) == Tail(denied)
    {
      ghost var rest := denied[i..];
      TailPrefix(denied, pairs, rest);
      assert rest[1..] == denied[i + 1..];
      filters := filters + [Jump(JMP_JEQ_K, denied[i], 0, 1)];
      filters := filters + [Statement(RET_K, RET_ERRNO | EPERM)];
      pairs := pairs + [Jump(JMP_JEQ_K, denied[i], 0, 1)] + [Statement(RET_K, RET_ERRNO | EPERM)];
    }
    filters := filters + [Statement(RET_K, RET_ALLOW)];
    assert denied[|denied|..] == [];
    assert filters == Prologue() + (pairs + [Statement(RET_K, RET_ALLOW)]);
    forall d ensures Run(filters, 0, 0, d) == Returned(Decision(denied, d)) {
      ProgramMeansDecision(denied, d);
    }
    ProgramWellFormed(denied);
  }
}
