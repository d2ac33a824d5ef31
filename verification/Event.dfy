/** The multi-CPU event of val/src/val_shemaphore.c: any number of CPUs send to and wait for one
    event, one atomic step at a time, in any interleaving. */
module Event {

  const WRAP := 0x1_0000_0000    // event->cnt is an unsigned int

  // Where a CPU is in send_event_common or val_wait_for_event.
  datatype Pc =
    | Idle
    | SendLock(inc: nat)            // taking the lock
    | SendInc(inc: nat)             // about to add to the count
    | SendUnlock                    // added, about to release the lock
    | SendSev                       // about to signal every CPU
    | WaitTest                      // about to read the count without the lock
    | WaitWfe                       // read zero: asleep, or about to be
    | WaitLock                      // read non-zero, taking the lock
    | WaitRetest                    // about to read the count again
    | WaitUnlock(received: bool)    // about to release the lock

  datatype Lock = Free | Held(cpu: nat)

  // The shared event, the CPUs with their event registers, and what has happened so far: tokens sent
  // and taken, waits that returned, and how often the count wrapped around.
  datatype State = State(count: nat, lock: Lock, pc: seq<Pc>, register: seq<bool>,
                         sent: nat, taken: nat, returned: nat, wraps: nat)

  predicate Holds(p: Pc) {
    p.SendInc? || p.SendUnlock? || p.WaitRetest? || p.WaitUnlock?
  }

  predicate Signalling(p: Pc) {
    p.SendUnlock? || p.SendSev?
  }

  // val_init_event, with every CPU outside the two operations.
  ghost predicate Init(s: State) {
    && s.count == 0 && s.lock == Free && s.sent == s.taken == s.returned == s.wraps == 0
    && |s.register| == |s.pc| && forall i | 0 <= i < |s.pc| :: s.pc[i] == Idle
  }

  // s with CPU i moved on to p.
  function Goto(s: State, i: nat, p: Pc): State
    requires i < |s.pc|
  {
    s.(pc := s.pc[i := p])
  }

  // WFE and the lock's own SEVL and WFE may leave CPU i's event register either way.
  function Set(s: State, i: nat, r: bool): State
    requires i < |s.register|
  {
    s.(register := s.register[i := r])
  }

  ghost predicate Acquire(s: State, s': State, i: nat, p: Pc)
    requires i < |s.pc| && i < |s.register| == |s'.register|
  {
    || (s.lock == Free && s' == Set(Goto(s, i, p), i, s'.register[i]).(lock := Held(i)))
    || s' == Set(s, i, s'.register[i])
  }

  function Increment(s: State, inc: nat): State {
    s.(count := (s.count + inc) % WRAP, sent := s.sent + inc, wraps := s.wraps + (s.count + inc) / WRAP)
  }

  // One step of CPU i.
  ghost predicate CpuStep(s: State, s': State, i: nat)
    requires i < |s.pc| == |s.register|
  {
    |s'.register| == |s.register| &&
    match s.pc[i]
    case Idle => s' == Goto(s, i, WaitTest) || exists inc: nat | inc < WRAP :: s' == Goto(s, i, SendLock(inc))
    case SendLock(inc) => Acquire(s, s', i, SendInc(inc))
    case SendInc(inc) => s' == Goto(Increment(s, inc), i, SendUnlock)
    case SendUnlock => s' == Goto(s, i, SendSev).(lock := Free)
    case SendSev => s' == Goto(s, i, Idle).(register := seq(|s.register|, _ => true))
    case WaitTest => s' == Goto(s, i, if s.count == 0 then WaitWfe else WaitLock)
    case WaitWfe => s.register[i] && s' == Set(Goto(s, i, WaitTest), i, false)
    case WaitLock => Acquire(s, s', i, WaitRetest)
    case WaitRetest =>
      s' == if s.count != 0 then Goto(s, i, WaitUnlock(true)).(count := s.count - 1, taken := s.taken + 1)
            else Goto(s, i, WaitUnlock(false))
    case WaitUnlock(received) =>
      s' == if received then Goto(s, i, Idle).(lock := Free, returned := s.returned + 1)
            else Goto(s, i, WaitTest).(lock := Free)
  }

  // An event from outside sets one CPU's register.
  ghost predicate Spurious(s: State, s': State, i: nat)
    requires i < |s.pc| == |s.register|
  {
    s' == Set(s, i, true)
  }

  ghost predicate Next(s: State, s': State) {
    |s.pc| == |s.register| && exists i: nat | i < |s.pc| :: CpuStep(s, s', i) || Spurious(s, s', i)
  }

  ghost predicate Run(r: seq<State>) {
    |r| > 0 && Init(r[0]) && forall k | 0 < k < |r| :: Next(r[k - 1], r[k])
  }

  // ---------------------------------------------------------------- what every run keeps

  // The lock is held by the one CPU inside a critical section.
  ghost predicate Exclusive(s: State) {
    forall i | 0 <= i < |s.pc| :: Holds(s.pc[i]) <==> s.lock == Held(i)
  }

  // A CPU that will sleep although the count is positive has its register set, or a sender that added
  // to the count has yet to signal.
  ghost predicate NoLostWakeup(s: State)
    requires |s.register| == |s.pc|
  {
    forall i | 0 <= i < |s.pc| && s.pc[i] == WaitWfe && s.count > 0 ::
      s.register[i] || exists j :: 0 <= j < |s.pc| && Signalling(s.pc[j])
  }

  // Every token sent is in the count, taken, or was dropped by a wrap-around; every wait that
  // returned took one, and so did the wait that is about to return.
  ghost predicate Conserved(s: State) {
    && s.count < WRAP
    && s.sent == s.count + s.taken + WRAP * s.wraps
    && s.taken == s.returned + (if Returning(s) then 1 else 0)
  }

  // The lock holder took a token and is about to return from its wait.
  ghost predicate Returning(s: State) {
    s.lock.Held? && s.lock.cpu < |s.pc| && s.pc[s.lock.cpu] == WaitUnlock(true)
  }

  ghost predicate Inv(s: State) {
    && |s.register| == |s.pc| && (s.lock.Held? ==> s.lock.cpu < |s.pc|)
    && Exclusive(s) && NoLostWakeup(s) && Conserved(s)
  }

  lemma ExclusiveNext(s: State, s': State, i: nat)
    requires Inv(s) && i < |s.pc| && CpuStep(s, s', i)
    ensures |s'.pc| == |s.pc| && Exclusive(s')
  {
    hide NoLostWakeup, Conserved;
    assert Holds(s.pc[i]) <==> s.lock == Held(i);
  }

  lemma ConservedNext(s: State, s': State, i: nat)
    requires Inv(s) && i < |s.pc| && CpuStep(s, s', i)
    ensures Conserved(s')
  {
    hide NoLostWakeup;
    assert Holds(s.pc[i]) <==> s.lock == Held(i);
    if s.pc[i].SendInc? {
      Wrapping(s.count, s.pc[i].inc, s.wraps);
    }
  }

  lemma Wrapping(count: nat, inc: nat, wraps: nat)
    ensures count + inc + WRAP * wraps == (count + inc) % WRAP + WRAP * (wraps + (count + inc) / WRAP)
  {
  }

  // What a step leaves as it was: the other CPUs, and all registers but its own unless it signals.
  lemma StepFrame(s: State, s': State, i: nat)
    requires i < |s.pc| == |s.register| && CpuStep(s, s', i)
    ensures |s'.pc| == |s'.register| == |s.pc| && (forall k | 0 <= k < |s.pc| && k != i :: s'.pc[k] == s.pc[k])
    ensures s.pc[i].SendSev? ==> forall k | 0 <= k < |s.pc| :: s'.register[k]
    ensures !s.pc[i].SendSev? ==> forall k | 0 <= k < |s.pc| && k != i :: s'.register[k] == s.register[k]
    ensures s.pc[i].SendInc? ==> s'.pc[i] == SendUnlock
    ensures s.pc[i].SendUnlock? ==> s'.pc[i] == SendSev
    ensures s'.pc[i] == WaitWfe ==> s'.count == 0
    ensures !s.pc[i].SendInc? ==> s'.count <= s.count
  {
  }

  lemma WakeupNext(s: State, s': State, i: nat)
    requires Inv(s) && i < |s.pc| && CpuStep(s, s', i)
    ensures |s'.pc| == |s'.register| == |s.pc| && NoLostWakeup(s')
  {
    hide Exclusive, Conserved, CpuStep;
    StepFrame(s, s', i);
    forall k | 0 <= k < |s'.pc| && s'.pc[k] == WaitWfe && s'.count > 0
      ensures s'.register[k] || exists j :: 0 <= j < |s'.pc| && Signalling(s'.pc[j])
    {
      if s.pc[i].SendInc? {
        assert Signalling(s'.pc[i]);
      } else if !s.pc[i].SendSev? && k != i {
        assert s.pc[k] == WaitWfe && s.count > 0;
        if j :| 0 <= j < |s.pc| && Signalling(s.pc[j]) {
          assert Signalling(s'.pc[j]);
        }
      }
    }
  }

  lemma InvNext(s: State, s': State)
    requires Inv(s) && Next(s, s')
    ensures Inv(s')
  {
    hide Conserved, Exclusive, NoLostWakeup, CpuStep;
    var i: nat :| i < |s.pc| && (CpuStep(s, s', i) || Spurious(s, s', i));
    if CpuStep(s, s', i) {
      ExclusiveNext(s, s', i);
      ConservedNext(s, s', i);
      WakeupNext(s, s', i);
      LockNext(s, s', i);
    } else {
      SpuriousKeeps(s, s', i);
    }
  }

  lemma LockNext(s: State, s': State, i: nat)
    requires i < |s.pc| == |s.register| && CpuStep(s, s', i) && (s.lock.Held? ==> s.lock.cpu < |s.pc|)
    ensures |s'.pc| == |s.pc| && (s'.lock.Held? ==> s'.lock.cpu < |s.pc|)
  {
  }

  lemma SpuriousKeeps(s: State, s': State, i: nat)
    requires Inv(s) && i < |s.pc| && Spurious(s, s', i)
    ensures Inv(s')
  {
    assert s'.pc == s.pc && s'.lock == s.lock;
    forall k | 0 <= k < |s'.pc| && s'.pc[k] == WaitWfe && s'.count > 0
      ensures s'.register[k] || exists j :: 0 <= j < |s'.pc| && Signalling(s'.pc[j])
    {
    }
  }

  lemma {:induction false} Reachable(r: seq<State>, k: nat)
    requires Run(r) && k < |r|
    ensures Inv(r[k])
  {
    if k > 0 {
      hide Inv;
      Reachable(r, k - 1);
      assert Next(r[k - 1], r[k]);
      InvNext(r[k - 1], r[k]);
    }
  }

  // ---------------------------------------------------------------- the promises

  // A sender adds more than the 32-bit count has room for.
  ghost predicate Overflows(s: State, s': State) {
    |s.pc| == |s.register| && exists i: nat | i < |s.pc| ::
      s.pc[i].SendInc? && s.count + s.pc[i].inc >= WRAP && |s'.pc| == |s.pc| && s'.pc[i] == SendUnlock
  }

  lemma WrapsNext(s: State, s': State)
    requires Inv(s) && Next(s, s')
    ensures s'.wraps >= s.wraps && (s'.wraps == s.wraps <==> !Overflows(s, s'))
  {
    hide NoLostWakeup, Conserved;
    var i: nat :| i < |s.pc| && (CpuStep(s, s', i) || Spurious(s, s', i));
    if CpuStep(s, s', i) {
      assert Exclusive(s);
      if s.pc[i].SendInc? && s.count + s.pc[i].inc >= WRAP { assert Overflows(s, s'); }
    }
  }

  lemma RunNext(r: seq<State>, k: nat)
    requires Run(r) && k + 1 < |r|
    ensures Next(r[k], r[k + 1])
  {
    assert Next(r[k + 1 - 1], r[k + 1]);
  }

  // No send in the first k steps found the count too full for it.
  ghost predicate NoOverflow(r: seq<State>, k: nat)
    requires k < |r|
  {
    forall j | 0 <= j < k :: !Overflows(r[j], r[j + 1])
  }

  lemma {:induction false} NoWrapsIff(r: seq<State>, k: nat)
    requires Run(r) && k < |r|
    ensures r[k].wraps == 0 <==> NoOverflow(r, k)
  {
    if k > 0 {
      hide Inv, Next, Overflows, Run;
      NoWrapsIff(r, k - 1);
      Reachable(r, k - 1);
      RunNext(r, k - 1);
      WrapsNext(r[k - 1], r[k]);
      assert NoOverflow(r, k) <==> NoOverflow(r, k - 1) && !Overflows(r[k - 1], r[k]);
    }
  }

  // ---------------------------------------------------------------- counted from the run itself

  predicate Waiting(p: Pc) {
    p.WaitTest? || p.WaitWfe? || p.WaitLock? || p.WaitRetest? || p.WaitUnlock?
  }

  // A CPU returns from val_wait_for_event.
  function Returned(p: Pc, q: Pc): nat {
    if Waiting(p) && q == Idle then 1 else 0
  }

  // A CPU calls one of the send operations, with that many tokens.
  function Called(p: Pc, q: Pc): nat {
    if p == Idle && q.SendLock? then q.inc else 0
  }

  // Tokens of a send that has been called and has not added them yet.
  function Carried(p: Pc, q: Pc): nat {
    if p.SendLock? || p.SendInc? then p.inc else 0
  }

  // A count over all CPUs, from where each was and is.
  function Sum(f: (Pc, Pc) -> nat, before: seq<Pc>, after: seq<Pc>): nat
    requires |before| == |after|
  {
    if before == [] then 0
    else Sum(f, before[..|before| - 1], after[..|before| - 1]) + f(before[|before| - 1], after[|before| - 1])
  }

  // If the two counts differ for one CPU only, so do the sums, by that much.
  lemma {:induction false} SumOne(f: (Pc, Pc) -> nat, a: seq<Pc>, b: seq<Pc>, a': seq<Pc>, b': seq<Pc>, i: nat)
    requires |a| == |b| == |a'| == |b'| && i < |a|
    requires forall k | 0 <= k < |a| && k != i :: f(a[k], b[k]) == f(a'[k], b'[k])
    ensures Sum(f, a, b) + f(a'[i], b'[i]) == Sum(f, a', b') + f(a[i], b[i])
  {
    var n := |a| - 1;
    if i < n {
      SumOne(f, a[..n], b[..n], a'[..n], b'[..n], i);
    } else {
      SumSame(f, a[..n], b[..n], a'[..n], b'[..n]);
    }
  }

  lemma {:induction false} SumSame(f: (Pc, Pc) -> nat, a: seq<Pc>, b: seq<Pc>, a': seq<Pc>, b': seq<Pc>)
    requires |a| == |b| == |a'| == |b'|
    requires forall k | 0 <= k < |a| :: f(a[k], b[k]) == f(a'[k], b'[k])
    ensures Sum(f, a, b) == Sum(f, a', b')
  {
    var n := |a| - 1;
    if a != [] { SumSame(f, a[..n], b[..n], a'[..n], b'[..n]); }
  }

  lemma {:induction false} SumZero(f: (Pc, Pc) -> nat, a: seq<Pc>, b: seq<Pc>)
    requires |a| == |b| && forall k | 0 <= k < |a| :: f(a[k], b[k]) == 0
    ensures Sum(f, a, b) == 0
  {
    var n := |a| - 1;
    if a != [] { SumZero(f, a[..n], b[..n]); }
  }

  // Waits that have returned in the first k steps.
  ghost function Returns(r: seq<State>, k: nat): nat
    requires k < |r| && forall j | 0 <= j < |r| :: |r[j].pc| == |r[0].pc|
  {
    if k == 0 then 0 else Returns(r, k - 1) + Sum(Returned, r[k - 1].pc, r[k].pc)
  }

  // Tokens that all sends called in the first k steps were asked to send.
  ghost function Asked(r: seq<State>, k: nat): nat
    requires k < |r| && forall j | 0 <= j < |r| :: |r[j].pc| == |r[0].pc|
  {
    if k == 0 then 0 else Asked(r, k - 1) + Sum(Called, r[k - 1].pc, r[k].pc)
  }

  // Tokens of the sends that have not added them yet.
  ghost function InFlight(s: State): nat {
    Sum(Carried, s.pc, s.pc)
  }

  lemma SameCpus(r: seq<State>)
    requires Run(r)
    ensures forall j | 0 <= j < |r| :: |r[j].pc| == |r[0].pc|
  {
    hide Run;
    forall j | 0 <= j < |r| ensures |r[j].pc| == |r[0].pc| { SameCpusAt(r, j); }
  }

  lemma {:induction false} SameCpusAt(r: seq<State>, j: nat)
    requires Run(r) && j < |r|
    ensures |r[j].pc| == |r[0].pc|
  {
    if j > 0 {
      SameCpusAt(r, j - 1);
      Reachable(r, j - 1);
      RunNext(r, j - 1);
    }
  }

  // What one step does to the three counts.
  lemma CountsStep(s: State, s': State, i: nat)
    requires Inv(s) && i < |s.pc| && CpuStep(s, s', i)
    ensures |s'.pc| == |s.pc| && s'.returned == s.returned + Sum(Returned, s.pc, s'.pc)
    ensures InFlight(s') + s'.sent == InFlight(s) + s.sent + Sum(Called, s.pc, s'.pc)
  {
    hide Exclusive, NoLostWakeup, Conserved;
    StepFrame(s, s', i);
    OneMoves(s, s', i);
    StepCounts(s, s', i);
  }

  lemma OneMoves(s: State, s': State, i: nat)
    requires |s'.pc| == |s.pc| && i < |s.pc| && forall k | 0 <= k < |s.pc| && k != i :: s'.pc[k] == s.pc[k]
    ensures Sum(Returned, s.pc, s'.pc) == Returned(s.pc[i], s'.pc[i])
    ensures Sum(Called, s.pc, s'.pc) == Called(s.pc[i], s'.pc[i])
    ensures InFlight(s') + Carried(s.pc[i], s.pc[i]) == InFlight(s) + Carried(s'.pc[i], s'.pc[i])
  {
    SumZero(Returned, s.pc, s.pc);
    SumZero(Called, s.pc, s.pc);
    SumOne(Returned, s.pc, s'.pc, s.pc, s.pc, i);
    SumOne(Called, s.pc, s'.pc, s.pc, s.pc, i);
    SumOne(Carried, s'.pc, s'.pc, s.pc, s.pc, i);
  }

  lemma StepCounts(s: State, s': State, i: nat)
    requires i < |s.pc| == |s.register| && CpuStep(s, s', i)
    ensures |s'.pc| == |s.pc| && s'.returned == s.returned + Returned(s.pc[i], s'.pc[i])
    ensures Carried(s'.pc[i], s'.pc[i]) + s'.sent == Carried(s.pc[i], s.pc[i]) + s.sent + Called(s.pc[i], s'.pc[i])
  {
  }

  lemma CountsNext(s: State, s': State)
    requires Inv(s) && Next(s, s')
    ensures |s'.pc| == |s.pc| && s'.returned == s.returned + Sum(Returned, s.pc, s'.pc)
    ensures InFlight(s') + s'.sent == InFlight(s) + s.sent + Sum(Called, s.pc, s'.pc)
  {
    hide Inv, CpuStep, Sum;
    var i: nat :| i < |s.pc| && (CpuStep(s, s', i) || Spurious(s, s', i));
    if CpuStep(s, s', i) {
      CountsStep(s, s', i);
    } else {
      SumZero(Returned, s.pc, s.pc);
      SumZero(Called, s.pc, s.pc);
    }
  }

  // The recorded numbers are those of the run.
  lemma {:induction false} CountsRun(r: seq<State>, k: nat)
    requires Run(r) && k < |r|
    ensures forall j | 0 <= j < |r| :: |r[j].pc| == |r[0].pc|
    ensures Returns(r, k) == r[k].returned && Asked(r, k) == InFlight(r[k]) + r[k].sent
  {
    SameCpus(r);
    if k == 0 {
      SumZero(Carried, r[0].pc, r[0].pc);
    } else {
      hide Run, Inv, Next, Sum;
      CountsRun(r, k - 1);
      Reachable(r, k - 1);
      RunNext(r, k - 1);
      CountsNext(r[k - 1], r[k]);
    }
  }

  // In every state of every run: the tokens asked for are in the count, in a send that has yet to add
  // them, or were taken by a wait that has returned or is about to, one each, exactly when no send so far
  // found the 32-bit count too full for what it added; in particular while fewer than 2^32 were asked for.
  lemma TokensExactIff(r: seq<State>, k: nat)
    requires Run(r) && k < |r|
    ensures forall j | 0 <= j < |r| :: |r[j].pc| == |r[0].pc|
    ensures var waits := Returns(r, k) + if Returning(r[k]) then 1 else 0;
            && (Asked(r, k) == r[k].count + InFlight(r[k]) + waits <==> NoOverflow(r, k))
            && (Asked(r, k) < WRAP ==> Asked(r, k) == r[k].count + InFlight(r[k]) + waits)
            && waits <= Asked(r, k) && waits == r[k].taken
  {
    hide Exclusive, NoLostWakeup, NoOverflow, Run, Sum;
    Reachable(r, k);
    NoWrapsIff(r, k);
    CountsRun(r, k);
    assert r[k].wraps > 0 ==> WRAP * r[k].wraps >= WRAP;
  }

  // The count of one CPU sending WRAP - 1 tokens and then one more wraps to zero: all are lost.
  lemma OverflowRun() returns (r: seq<State>)
    ensures Run(r) && |r| == 9 && r[8].sent == WRAP && r[8].count == 0 && r[8].taken == 0
  {
    var s0 := State(0, Free, [Idle], [false], 0, 0, 0, 0);
    var a := SendOnce(s0, WRAP - 1);
    var s5 := a[4].(pc := [Idle], register := [true]);
    assert CpuStep(a[4], s5, 0) by { assert seq(1, _ => true) == [true]; }
    var b := SendOnce(s5, 1);
    r := a + b[..4];
    assert r[5..] == b[..4];
    forall k | 0 < k < |r| ensures Next(r[k - 1], r[k]) {
      if k < 5 {
        assert r[k] == a[k];
      } else if k == 5 {
        assert r[4] == a[4] && r[5] == s5;
      } else {
        assert r[k] == b[k - 5] && r[k - 1] == b[k - 6];
      }
    }
  }

  // One CPU alone carries a send as far as the lock's release.
  lemma SendOnce(s: State, inc: nat) returns (r: seq<State>)
    requires s.pc == [Idle] && |s.register| == 1 && s.lock == Free && inc < WRAP
    ensures |r| == 5 && r[0] == s && forall k | 0 < k < |r| :: Next(r[k - 1], r[k])
    ensures r[3] == Increment(s, inc).(pc := [SendUnlock], lock := Held(0))
    ensures r[4] == Increment(s, inc).(pc := [SendSev])
  {
    var s1 := s.(pc := [SendLock(inc)]);
    var s2 := s.(pc := [SendInc(inc)], lock := Held(0));
    var s3 := Increment(s, inc).(pc := [SendUnlock], lock := Held(0));
    var s4 := Increment(s, inc).(pc := [SendSev]);
    assert s1 == Goto(s, 0, SendLock(inc)) && CpuStep(s, s1, 0);
    assert s2 == Set(Goto(s1, 0, SendInc(inc)), 0, s2.register[0]).(lock := Held(0)) && CpuStep(s1, s2, 0);
    assert s3 == Goto(Increment(s2, inc), 0, SendUnlock) && CpuStep(s2, s3, 0);
    assert s4 == Goto(s3, 0, SendSev).(lock := Free) && CpuStep(s3, s4, 0);
    r := [s, s1, s2, s3, s4];
  }

  // A CPU that can move by itself.
  ghost predicate Enabled(s: State, i: nat)
    requires i < |s.pc| == |s.register|
  {
    match s.pc[i]
    case Idle => false
    case SendLock(_) => s.lock == Free
    case WaitLock => s.lock == Free
    case WaitWfe => s.register[i]
    case _ => true
  }

  // A CPU in the middle of an operation takes a step that gets it further.
  ghost predicate MovesOn(s: State, s': State, i: nat) {
    |s.pc| == |s.register| && i < |s.pc| && CpuStep(s, s', i) && s.pc[i] != Idle && s'.pc != s.pc
  }

  lemma EnabledMoves(s: State, i: nat)
    requires |s.pc| == |s.register| && i < |s.pc| && Enabled(s, i)
    ensures exists s' :: MovesOn(s, s', i)
  {
    var s' := match s.pc[i]
      case SendLock(inc) => Goto(s, i, SendInc(inc)).(lock := Held(i))
      case SendInc(inc) => Goto(Increment(s, inc), i, SendUnlock)
      case SendUnlock => Goto(s, i, SendSev).(lock := Free)
      case SendSev => Goto(s, i, Idle).(register := seq(|s.register|, _ => true))
      case WaitTest => Goto(s, i, if s.count == 0 then WaitWfe else WaitLock)
      case WaitWfe => Set(Goto(s, i, WaitTest), i, false)
      case WaitLock => Goto(s, i, WaitRetest).(lock := Held(i))
      case WaitRetest =>
        if s.count != 0 then Goto(s, i, WaitUnlock(true)).(count := s.count - 1, taken := s.taken + 1)
        else Goto(s, i, WaitUnlock(false))
      case WaitUnlock(received) =>
        if received then Goto(s, i, Idle).(lock := Free, returned := s.returned + 1)
        else Goto(s, i, WaitTest).(lock := Free)
      case Idle => s;
    assert s'.pc[i] != s.pc[i];
    assert s.pc[i].SendLock? || s.pc[i].WaitLock? ==> s' == Set(Goto(s, i, s'.pc[i]), i, s'.register[i]).(lock := Held(i));
    assert MovesOn(s, s', i);
  }

  // While tokens are left and somebody waits, some CPU in the middle of an operation can move: the
  // system never falls asleep with a token in hand.
  lemma NeverStuck(r: seq<State>, k: nat, w: nat)
    requires Run(r) && k < |r| && w < |r[k].pc| && Waiting(r[k].pc[w]) && r[k].count > 0
    ensures exists i: nat, s' :: MovesOn(r[k], s', i)
  {
    hide Conserved;
    Reachable(r, k);
    var s := r[k];
    if s.pc[w] == WaitWfe && !s.register[w] {
      var j :| 0 <= j < |s.pc| && Signalling(s.pc[j]);
      EnabledMoves(s, j);
    } else if s.pc[w] == WaitLock && s.lock != Free {
      assert Holds(s.pc[s.lock.cpu]);
      EnabledMoves(s, s.lock.cpu);
    } else {
      EnabledMoves(s, w);
    }
  }

  // Once every send has signalled, a sleeping CPU with a token left runs its wait to the end by
  // itself, and takes exactly one token.
  lemma WaiterFinishes(s: State, w: nat) returns (run: seq<State>)
    requires Inv(s) && w < |s.pc| && s.pc[w] == WaitWfe && s.count > 0 && s.lock == Free
    requires forall j | 0 <= j < |s.pc| :: !Signalling(s.pc[j])
    ensures |run| == 6 && run[0] == s && forall k | 0 < k < |run| :: Next(run[k - 1], run[k])
    ensures run[5].pc == s.pc[w := Idle] && run[5].count == s.count - 1 && run[5].returned == s.returned + 1
    ensures run[5].lock == Free
  {
    var s1 := Set(Goto(s, w, WaitTest), w, false);
    var s2 := Goto(s1, w, WaitLock);
    var s3 := Goto(s2, w, WaitRetest).(lock := Held(w));
    var s4 := Goto(s3, w, WaitUnlock(true)).(count := s.count - 1, taken := s.taken + 1);
    var s5 := Goto(s4, w, Idle).(lock := Free, returned := s.returned + 1);
    assert s.register[w];
    assert CpuStep(s, s1, w) && CpuStep(s1, s2, w);
    assert s3 == Set(Goto(s2, w, WaitRetest), w, s3.register[w]).(lock := Held(w));
    assert CpuStep(s2, s3, w) && CpuStep(s3, s4, w) && CpuStep(s4, s5, w);
    run := [s, s1, s2, s3, s4, s5];
    assert s5.pc == s.pc[w := Idle];
  }
}
