/** The two system call filters (src/jail/jail.c and src/jail/subjail.c), as classic
    BPF programs. */
module Seccomp {

  // ---------- the machine ----------

  /** Jump distances are bytes. */
  type Distance = n: nat | n < 256

  datatype Verdict = Allow | Kill | Invalid

  datatype Ins = LoadWord(offset: nat) | JumpEq(k: nat, jt: Distance, jf: Distance) | Ret(verdict: Verdict)

  const WORD32: nat := 0x1_0000_0000

  /** What the kernel shows a filter of a system call (`struct seccomp_data`). */
  datatype Call = Call(nr: nat, arch: nat, ip: nat, args: seq<nat>)

  ghost predicate WellFormed(c: Call) {
    c.nr < WORD32 && c.arch < WORD32 && |c.args| == 6
  }

  const NR: nat := 0
  const ARCH: nat := 4

  /** The 32-bit word at an offset; the low half of an argument comes first. */
  function Word(c: Call, offset: nat): nat
    requires |c.args| == 6
  {
    if offset == NR then c.nr
    else if offset == ARCH then c.arch
    else if offset == 8 then c.ip % WORD32
    else if offset == 12 then c.ip / WORD32 % WORD32
    else if offset % 4 == 0 && 16 <= offset < 64 then
      var arg := c.args[(offset - 16) / 8];
      if offset % 8 == 0 then arg % WORD32 else arg / WORD32 % WORD32
    else 0
  }

  /** The words hold all that the kernel shows: every field can be put together from them. */
  lemma {:induction false} WordsAreFields(c: Call, i: nat)
    requires WellFormed(c) && i < 6 && c.ip < WORD32 * WORD32 && c.args[i] < WORD32 * WORD32
    ensures Word(c, NR) == c.nr && Word(c, ARCH) == c.arch
    ensures Word(c, 8) + WORD32 * Word(c, 12) == c.ip
    ensures Word(c, 16 + 8 * i) + WORD32 * Word(c, 20 + 8 * i) == c.args[i]
  {
    assert (16 + 8 * i) % 4 == 0 && (16 + 8 * i) % 8 == 0 && (16 + 8 * i - 16) / 8 == i;
    assert (20 + 8 * i) % 4 == 0 && (20 + 8 * i) % 8 == 4 && (20 + 8 * i - 16) / 8 == i;
  }

  /** Runs a program from `pc` on; jumps are relative to the next instruction, and only
      go forward. */
  function Run(program: seq<Ins>, c: Call, pc: nat, acc: nat): Verdict
    requires |c.args| == 6
    decreases |program| - pc
  {
    if pc >= |program| then Invalid
    else match program[pc]
      case LoadWord(offset) => Run(program, c, pc + 1, Word(c, offset))
      case JumpEq(k, jt, jf) => Run(program, c, pc + 1 + if acc == k then jt else jf, acc)
      case Ret(verdict) => verdict
  }

  function Judge(program: seq<Ins>, c: Call): Verdict
    requires |c.args| == 6
  {
    Run(program, c, 0, 0)
  }

  // ---------- ladders ----------

  /** One comparison per entry; entry `i` of `n` jumps `n - i` ahead. */
  function Ladder(list: seq<nat>): (r: seq<Ins>)
    requires |list| < 256
    ensures |r| == |list|
  {
    seq(|list|, i requires 0 <= i < |list| => JumpEq(list[i], |list| - i, 0))
  }

  /** From any entry of a ladder: a hit ends behind the verdict for a miss. */
  lemma {:induction false} LadderIsMembership(program: seq<Ins>, list: seq<nat>, start: nat, miss: Verdict,
                                              hit: Verdict, c: Call, i: nat, acc: nat)
    requires |c.args| == 6 && |list| < 256 && i <= |list|
    requires start + |list| + 2 <= |program|
    requires program[start..start + |list| + 2] == Ladder(list) + [Ret(miss), Ret(hit)]
    ensures Run(program, c, start + i, acc) == if acc in list[i..] then hit else miss
    decreases |list| - i
  {
    var end := start + |list|;
    var part := program[start..start + |list| + 2];
    assert program[end] == part[|list|] == Ret(miss) && program[end + 1] == part[|list| + 1] == Ret(hit);
    if i < |list| {
      assert program[start + i] == part[i] == JumpEq(list[i], |list| - i, 0);
      if acc != list[i] {
        LadderIsMembership(program, list, start, miss, hit, c, i + 1, acc);
      }
      assert list[i..] == [list[i]] + list[i + 1..];
    }
  }

  // ---------- the filters ----------

  const X86_64: nat := 0xC000_003E

  const F_GETFL: nat := 3
  const TCGETS: nat := 0x5401

  const FCNTL: nat := 72
  const IOCTL: nat := 16
  const WAIT4: nat := 61
  const KILL: nat := 62
  const FORK: nat := 57
  const CLONE: nat := 56

  /** The calls that need no look at their arguments, in the order of the source:
      clock_gettime, mremap, ftruncate, fsync, lseek, seccomp, wait4, kill, futex,
      recvmsg, sendmsg, close, set_robust_list, clone, poll, fstat, msync, munmap,
      mprotect, mmap, gettid, getpid, recvfrom, recvmsg, sendto, clock_nanosleep,
      getrandom, brk, write, read, exit, exit_group. */
  const ALLOWED: seq<nat> := [
    228, 25, 77, 74, 8, 317, 61, 62, 202, 47, 46, 3, 273, 56, 7, 5, 26, 11, 10, 9, 186, 39, 45, 47, 44, 230, 318, 12,
        1, 0, 60, 231]

  const DENIED_IN_SUBJAIL: seq<nat> := [61, 57, 62]

  const HEAD: seq<Ins> := [
    LoadWord(ARCH),
    JumpEq(0xC000_003E, 1, 0),
    Ret(Kill),
    LoadWord(NR)]

  const ARGUMENT_CHECKS: seq<Ins> := [
    JumpEq(72, 0, 4),
    LoadWord(24),
    JumpEq(3, 0, 1),
    Ret(Allow),
    Ret(Kill),
    JumpEq(16, 0, 4),
    LoadWord(24),
    JumpEq(0x5401, 0, 1),
    Ret(Allow),
    Ret(Kill)]

  /** The jumps of the first filter, with the distances of the source. */
  const JAIL_JUMPS: seq<Ins> := [
    JumpEq(228, 32, 0), JumpEq(25, 31, 0), JumpEq(77, 30, 0), JumpEq(74, 29, 0), JumpEq(8, 28, 0), JumpEq(317, 27, 0),
    JumpEq(61, 26, 0), JumpEq(62, 25, 0), JumpEq(202, 24, 0), JumpEq(47, 23, 0), JumpEq(46, 22, 0), JumpEq(3, 21, 0),
    JumpEq(273, 20, 0), JumpEq(56, 19, 0), JumpEq(7, 18, 0), JumpEq(5, 17, 0), JumpEq(26, 16, 0), JumpEq(11, 15, 0),
    JumpEq(10, 14, 0), JumpEq(9, 13, 0), JumpEq(186, 12, 0), JumpEq(39, 11, 0), JumpEq(45, 10, 0), JumpEq(47, 9, 0),
    JumpEq(44, 8, 0), JumpEq(230, 7, 0), JumpEq(318, 6, 0), JumpEq(12, 5, 0), JumpEq(1, 4, 0), JumpEq(0, 3, 0),
    JumpEq(60, 2, 0), JumpEq(231, 1, 0)]

  const SUBJAIL_JUMPS: seq<Ins> := [JumpEq(61, 3, 0), JumpEq(57, 2, 0), JumpEq(62, 1, 0)]

  /** `gh_jail_lockdown` */
  const JAIL: seq<Ins> := HEAD + ARGUMENT_CHECKS + JAIL_JUMPS + [Ret(Kill), Ret(Allow)]

  /** `gh_subjail_lockdown` */
  const SUBJAIL: seq<Ins> := HEAD + SUBJAIL_JUMPS + [Ret(Allow), Ret(Kill)]

  /** The distances written out in the source are those of a ladder. */
  lemma {:induction false} JumpsAreLadders()
    ensures JAIL_JUMPS == Ladder(ALLOWED) && SUBJAIL_JUMPS == Ladder(DENIED_IN_SUBJAIL)
  {
  }

  /** A call that the first filter looks at the argument of, in its low half. */
  predicate ArgumentPasses(c: Call)
    requires |c.args| == 6
  {
    (c.nr == FCNTL && c.args[1] % WORD32 == F_GETFL) || (c.nr == IOCTL && c.args[1] % WORD32 == TCGETS)
  }

  lemma {:induction false} AfterHead(program: seq<Ins>, c: Call)
    requires |c.args| == 6 && HEAD <= program
    ensures Judge(program, c) == if c.arch == X86_64 then Run(program, c, 4, c.nr) else Kill
  {
    assert program[0] == HEAD[0] && program[1] == HEAD[1] && program[2] == HEAD[2] && program[3] == HEAD[3];
    assert Run(program, c, 1, c.arch) == Run(program, c, if c.arch == X86_64 then 3 else 2, c.arch);
  }

  lemma {:induction false} AfterChecks(program: seq<Ins>, c: Call)
    requires |c.args| == 6 && |program| >= 14 && program[4..14] == ARGUMENT_CHECKS
    ensures Run(program, c, 4, c.nr) == if c.nr == FCNTL || c.nr == IOCTL
            then (if ArgumentPasses(c) then Allow else Kill) else Run(program, c, 14, c.nr)
  {
    var part := program[4..14];
    assert program[4] == part[0] && program[5] == part[1] && program[6] == part[2] && program[7] == part[3]
      && program[8] == part[4];
    assert program[9] == part[5] && program[10] == part[6] && program[11] == part[7] && program[12] == part[8]
      && program[13] == part[9];
    var arg := c.args[1] % WORD32;
    assert Word(c, 24) == arg;
    if c.nr == FCNTL {
      assert Run(program, c, 6, arg) == if arg == F_GETFL then Allow else Kill;
    } else {
      assert Run(program, c, 4, c.nr) == Run(program, c, 9, c.nr);
      if c.nr == IOCTL {
        assert Run(program, c, 11, arg) == if arg == TCGETS then Allow else Kill;
        assert Run(program, c, 9, c.nr) == Run(program, c, 10, c.nr) == Run(program, c, 11, arg);
      } else {
        assert Run(program, c, 9, c.nr) == Run(program, c, 14, c.nr);
      }
    }
  }

  /** The first filter allows exactly the listed calls, and `fcntl` and `ioctl` with their
      one argument. */
  lemma {:induction false} JailMeans(c: Call)
    requires WellFormed(c)
    ensures Judge(JAIL, c) == if c.arch == X86_64 && (c.nr in ALLOWED || ArgumentPasses(c)) then Allow else Kill
  {
    hide Run, Ladder, Judge, ArgumentPasses;
    JumpsAreLadders();
    JailParts();
    AfterHead(JAIL, c);
    AfterChecks(JAIL, c);
    LadderIsMembership(JAIL, ALLOWED, 14, Kill, Allow, c, 0, c.nr);
    assert ALLOWED[0..] == ALLOWED;
    ArgumentsNeedALook(c);
  }

  lemma {:induction false} JailParts()
    ensures |JAIL| == 48 && HEAD <= JAIL && JAIL[4..14] == ARGUMENT_CHECKS
            && JAIL[14..48] == JAIL_JUMPS + [Ret(Kill), Ret(Allow)]
  {
  }

  lemma {:induction false} ArgumentsNeedALook(c: Call)
    requires |c.args| == 6
    ensures FCNTL !in ALLOWED && IOCTL !in ALLOWED
    ensures ArgumentPasses(c) ==> c.nr == FCNTL || c.nr == IOCTL
  {
  }

  lemma {:induction false} SubjailMeans(c: Call)
    requires WellFormed(c)
    ensures Judge(SUBJAIL, c) == if c.arch == X86_64 && c.nr !in DENIED_IN_SUBJAIL then Allow else Kill
  {
    JumpsAreLadders();
    assert SUBJAIL[4..4 + |DENIED_IN_SUBJAIL| + 2] == Ladder(DENIED_IN_SUBJAIL) + [Ret(Allow), Ret(Kill)];
    AfterHead(SUBJAIL, c);
    LadderIsMembership(SUBJAIL, DENIED_IN_SUBJAIL, 4, Allow, Kill, c, 0, c.nr);
    assert DENIED_IN_SUBJAIL[0..] == DENIED_IN_SUBJAIL;
  }

  // ---------- all filters together ----------

  /** The kernel runs every installed filter and takes the strictest verdict. */
  function Together(filters: seq<seq<Ins>>, c: Call): Verdict
    requires |c.args| == 6
  {
    if filters == [] then Allow
    else if Judge(filters[0], c) != Allow then Judge(filters[0], c)
    else Together(filters[1..], c)
  }

  lemma {:induction false} TogetherAllows(filters: seq<seq<Ins>>, c: Call)
    requires |c.args| == 6
    ensures Together(filters, c) == Allow <==> forall i | 0 <= i < |filters| :: Judge(filters[i], c) == Allow
  {
    if filters != [] {
      TogetherAllows(filters[1..], c);
      var rest := filters[1..];
      assert forall i | 0 <= i < |rest| :: rest[i] == filters[i + 1];
      if forall i | 0 <= i < |rest| :: Judge(rest[i], c) == Allow {
        forall i | 0 <= i < |filters| ensures i > 0 ==> Judge(filters[i], c) == Allow {
          if i > 0 { assert filters[i] == rest[i - 1]; }
        }
      }
    }
  }

  /** What a script may call: the first list without waiting for and killing processes. More
      filters, which scripts may install, never allow more. */
  lemma {:induction false} SubjailMayCallIff(more: seq<seq<Ins>>, c: Call)
    requires WellFormed(c)
    ensures Together([JAIL, SUBJAIL], c) == Allow <==>
            c.arch == X86_64 && ((c.nr in ALLOWED && c.nr != WAIT4 && c.nr != KILL) || ArgumentPasses(c))
    ensures Together([JAIL, SUBJAIL] + more, c) == Allow ==> Together([JAIL, SUBJAIL], c) == Allow
  {
    hide Judge, Together;
    JailMeans(c);
    SubjailMeans(c);
    TogetherAllows([JAIL, SUBJAIL], c);
    TogetherAllows([JAIL, SUBJAIL] + more, c);
    var all := [JAIL, SUBJAIL] + more;
    assert all[0] == JAIL && all[1] == SUBJAIL;
    assert [JAIL, SUBJAIL][0] == JAIL && [JAIL, SUBJAIL][1] == SUBJAIL;
  }

  /** Of the calls that make processes, `fork` is denied by the second filter, and by the first
      one already; `clone` passes both, though creating processes is what the second filter
      is said to block. */
  lemma {:induction false} CloneStaysAllowed(c: Call)
    requires WellFormed(c) && c.arch == X86_64
    ensures c.nr == FORK ==> Judge(JAIL, c) == Kill && Judge(SUBJAIL, c) == Kill
    ensures c.nr == CLONE ==> Together([JAIL, SUBJAIL], c) == Allow
  {
    hide Judge, Together;
    JailMeans(c);
    SubjailMeans(c);
    SubjailMayCallIff([], c);
  }
}
