/** The TPM CRB service of val/src/val_tpm_crb_service.c as a machine over whole values: what each
    request does to the localities, to the notification state and to the TPM, and what every run of
    requests and client register writes keeps. */
module CrbMachine {

  const LOCALITIES := 5        // CRB_LOCALITY_MAX + 1
  const NO_LOCALITY := 5
  const BUFFER := 0x400        // VAL_TPM_CRB_DATA_BUFFER_SIZE
  const GRANTED := 1           // TPM_LOC_STS_GRANTED

  const OK := 0x05000001
  const OK_RESULTS := 0x05000002
  const NOFUNC := 0x8e000001
  const NOTSUP := 0x8e000002
  const INVARG := 0x8e000005
  const INV_CRB_CTRL_DATA := 0x8e000006
  const ALREADY := 0x8e000009
  const DENIED := 0x8e00000a

  const GET_INTERFACE_VERSION := 0x0f000001
  const GET_FEATURE_INFO := 0x0f000101
  const START := 0x0f000201
  const REGISTER_NOTIFICATION := 0x0f000301
  const UNREGISTER_NOTIFICATION := 0x0f000401
  const FINISH_NOTIFIED := 0x0f000501

  const SERVICE_VERSION := 0x10000
  const FEATURE_NOTIFICATION := 0xfea70000
  const START_COMMAND := 0
  const START_LOCALITY := 1

  type Bytes = seq<nat>

  // One locality's registers and data buffer.
  datatype Regs = Regs(ctrl: nat, sts: nat, start: nat, data: Bytes)

  datatype Option<T> = None | Some(value: T)

  datatype Registration = Registration(client: nat, service: nat, id: nat)

  // A START request that waits for FINISH_NOTIFIED, with what it saved.
  datatype Pending = Nothing | Locality(loc: nat, ctrl: nat) | Command(loc: nat, bytes: Bytes)

  // A command buffer accepted for a locality.
  datatype Accepted = Accepted(loc: nat, bytes: Bytes)

  // `history` is what the TPM has executed, `resolved` every accepted buffer that has been answered.
  datatype State = State(regs: seq<Regs>, active: nat, registration: Option<Registration>, pending: Pending,
                         history: seq<Bytes>, resolved: seq<Accepted>)

  // The TPM behind pal_tpm_execute_command: its reply to a command depends on those before it.
  datatype Reply = Failed | Reply(rsp: Bytes)
  datatype Config = Config(supported: bool, tpm: (seq<Bytes>, Bytes) -> Reply)

  datatype Request = Request(sender: nat, receiver: nat, func: nat, arg5: nat, arg6: nat)
  datatype Answer = Answer(status: nat, value: nat, rc: nat)

  // ---------------------------------------------------------------- big-endian fields

  function Be32(b: Bytes, i: nat): nat
    requires i + 4 <= |b|
  {
    ((b[i] * 0x100 + b[i + 1]) * 0x100 + b[i + 2]) * 0x100 + b[i + 3]
  }

  function PutBe32(b: Bytes, i: nat, v: nat): (r: Bytes)
    requires i + 4 <= |b|
    ensures |r| == |b|
  {
    b[i := v / 0x1000000 % 0x100][i + 1 := v / 0x10000 % 0x100][i + 2 := v / 0x100 % 0x100][i + 3 := v % 0x100]
  }

  lemma Digits(v: nat)
    ensures v / 0x10000 == v / 0x100 / 0x100 && v / 0x1000000 == v / 0x100 / 0x100 / 0x100
  {
  }

  // val_tpm_be32_read undoes val_tpm_be32_write on every 32-bit value ...
  lemma Be32RoundTrip(b: Bytes, i: nat, v: nat)
    requires i + 4 <= |b| && v < 0x1_0000_0000
    ensures Be32(PutBe32(b, i, v), i) == v
  {
    Digits(v);
  }

  lemma BytesBack(a: nat, b: nat, c: nat, d: nat)
    requires a < 0x100 && b < 0x100 && c < 0x100 && d < 0x100
    ensures var v := ((a * 0x100 + b) * 0x100 + c) * 0x100 + d;
            v / 0x1000000 % 0x100 == a && v / 0x10000 % 0x100 == b && v / 0x100 % 0x100 == c && v % 0x100 == d
  {
    Digits(((a * 0x100 + b) * 0x100 + c) * 0x100 + d);
    LastByte((a * 0x100 + b) * 0x100 + c, d);
    LastByte(a * 0x100 + b, c);
    LastByte(a, b);
  }

  lemma LastByte(high: nat, d: nat)
    requires d < 0x100
    ensures (high * 0x100 + d) / 0x100 == high && (high * 0x100 + d) % 0x100 == d
  {
  }

  // ... and writing back what was read changes no byte.
  lemma Be32WriteBack(b: Bytes, i: nat)
    requires i + 4 <= |b| && forall j | i <= j < i + 4 :: b[j] < 0x100
    ensures PutBe32(b, i, Be32(b, i)) == b
  {
    BytesBack(b[i], b[i + 1], b[i + 2], b[i + 3]);
  }

  function CommandSize(b: Bytes): nat
    requires |b| == BUFFER
  {
    Be32(b, 2)
  }

  function ResponseCode(rsp: Bytes): nat {
    if |rsp| >= 10 then Be32(rsp, 6) else INV_CRB_CTRL_DATA
  }

  // ---------------------------------------------------------------- what a request does

  predicate Shape(s: State) {
    |s.regs| == LOCALITIES && (forall l | 0 <= l < LOCALITIES :: |s.regs[l].data| == BUFFER)
    && (s.pending.Locality? ==> s.pending.loc < LOCALITIES)
    && (s.pending.Command? ==> s.pending.loc < LOCALITIES && |s.pending.bytes| == BUFFER)
  }

  // val_tpm_crb_apply_locality_request
  function ApplyLocality(s: State, l: nat, ctrl: nat): (r: State)
    requires Shape(s) && l < LOCALITIES
    ensures Shape(r)
  {
    var bits := ctrl % 4;
    if bits == 0 then s.(regs := s.regs[l := s.regs[l].(sts := if s.active == l then GRANTED else 0)])
    else if bits % 2 == 1 then
      if s.active >= LOCALITIES || s.active == l then
        s.(active := l, regs := s.regs[l := s.regs[l].(sts := GRANTED)])
      else s.(regs := s.regs[l := s.regs[l].(sts := 0)])
    else s.(active := if s.active == l then NO_LOCALITY else s.active, regs := s.regs[l := s.regs[l].(sts := 0)])
  }

  function ClearCtrl(s: State, l: nat): (r: State)
    requires Shape(s) && l < LOCALITIES
    ensures Shape(r)
  {
    s.(regs := s.regs[l := s.regs[l].(ctrl := 0)])
  }

  // START(COMMAND) is accepted from the locality that owns the TPM, once it set CTRL_START.
  predicate Eligible(s: State, l: nat)
    requires Shape(s) && l < LOCALITIES
  {
    s.active == l && s.regs[l].sts % 2 == 1 && s.regs[l].start % 2 == 1
  }

  function Overlay(data: Bytes, rsp: Bytes): (r: Bytes)
    requires |rsp| <= |data|
    ensures |r| == |data|
  {
    rsp + data[|rsp|..]
  }

  // The TPM runs a command buffer, and its response goes back to locality l.
  function Execute(c: Config, s: State, l: nat, bytes: Bytes): (r: (State, Answer))
    requires Shape(s) && l < LOCALITIES && |bytes| == BUFFER
    ensures Shape(r.0)
  {
    var done := s.resolved + [Accepted(l, bytes)];
    if CommandSize(bytes) > BUFFER then (s.(resolved := done), Answer(INV_CRB_CTRL_DATA, 0, 0))
    else
      var cmd := bytes[..CommandSize(bytes)];
      var t := s.(history := s.history + [cmd], resolved := done);
      var reply := c.tpm(s.history, cmd);
      if reply.Failed? || |reply.rsp| > BUFFER then (t, Answer(INV_CRB_CTRL_DATA, 0, 0))
      else
        (t.(regs := s.regs[l := s.regs[l].(data := Overlay(s.regs[l].data, reply.rsp), start := 0)]),
         Answer(OK, |reply.rsp|, ResponseCode(reply.rsp)))
  }

  // What is pending plays no part in either.
  lemma PendingUnused(c: Config, s: State, l: nat, ctrl: nat, bytes: Bytes, p: Pending)
    requires Shape(s) && Shape(s.(pending := p)) && l < LOCALITIES && |bytes| == BUFFER
    ensures ApplyLocality(s.(pending := p), l, ctrl) == ApplyLocality(s, l, ctrl).(pending := p)
    ensures Execute(c, s.(pending := p), l, bytes)
         == (Execute(c, s, l, bytes).0.(pending := p), Execute(c, s, l, bytes).1)
  {
  }

  // A START request carried out at once.
  function Immediate(c: Config, s: State, kind: nat, l: nat): (r: (State, Answer))
    requires Shape(s) && l < LOCALITIES
    ensures Shape(r.0)
  {
    if kind == START_LOCALITY then (ApplyLocality(ClearCtrl(s, l), l, s.regs[l].ctrl), Answer(OK, 0, 0))
    else if Eligible(s, l) then Execute(c, s, l, s.regs[l].data)
    else (s, Answer(OK, 0, 0))
  }

  // The same request put off until FINISH_NOTIFIED.
  function Deferred(s: State, kind: nat, l: nat): (r: State)
    requires Shape(s) && l < LOCALITIES
    ensures Shape(r)
  {
    if kind == START_LOCALITY then ClearCtrl(s, l).(pending := Locality(l, s.regs[l].ctrl))
    else s.(pending := Command(l, s.regs[l].data))
  }

  predicate Deferrable(s: State, r: Request, l: nat)
    requires Shape(s) && l < LOCALITIES
  {
    && s.registration.Some? && s.registration.value.client == r.sender && s.registration.value.service == r.receiver
    && s.pending == Nothing && (r.arg5 == START_LOCALITY || Eligible(s, l))
  }

  predicate StartRejected(r: Request) {
    r.arg5 > 0xff || r.arg6 >= LOCALITIES || (r.arg5 != START_LOCALITY && r.arg5 != START_COMMAND)
  }

  function HandleStart(c: Config, s: State, r: Request, notified: bool): (a: (State, Answer))
    requires Shape(s)
    ensures Shape(a.0)
  {
    if StartRejected(r) then (s, Answer(INVARG, 0, 0))
    else if Deferrable(s, r, r.arg6) && c.supported && notified then (Deferred(s, r.arg5, r.arg6), Answer(OK, 0, 0))
    else Immediate(c, s, r.arg5, r.arg6)
  }

  function HandleRegister(c: Config, s: State, r: Request): (a: (State, Answer))
    requires Shape(s)
    ensures Shape(a.0)
  {
    if r.arg5 > 0x1ffff || r.arg6 > 0xff || r.arg5 / 0x10000 != 0 || r.arg5 % 0x10000 != 0 then (s, Answer(INVARG, 0, 0))
    else if !c.supported then (s, Answer(NOTSUP, 0, 0))
    else if s.registration.Some? then (s, Answer(ALREADY, 0, 0))
    else (s.(registration := Some(Registration(r.sender, r.receiver, r.arg6))), Answer(OK, 0, 0))
  }

  predicate IsClient(s: State, sender: nat) {
    s.registration.Some? && s.registration.value.client == sender
  }

  function HandleUnregister(c: Config, s: State, r: Request): (a: (State, Answer))
    requires Shape(s)
    ensures Shape(a.0)
  {
    if !c.supported then (s, Answer(NOTSUP, 0, 0))
    else if !IsClient(s, r.sender) || s.pending != Nothing then (s, Answer(DENIED, 0, 0))
    else (s.(registration := None), Answer(OK, 0, 0))
  }

  // What FINISH_NOTIFIED completes.
  function Complete(c: Config, s: State): (a: (State, Answer))
    requires Shape(s)
    ensures Shape(a.0)
  {
    var t := s.(pending := Nothing);
    match s.pending
    case Nothing => (t, Answer(OK, 0, 0))
    case Locality(l, ctrl) => (ApplyLocality(t, l, ctrl), Answer(OK, 0, 0))
    case Command(l, bytes) => Execute(c, t, l, bytes)
  }

  function HandleFinish(c: Config, s: State, r: Request): (a: (State, Answer))
    requires Shape(s)
    ensures Shape(a.0)
  {
    if !c.supported then (s, Answer(NOTSUP, 0, 0))
    else if !IsClient(s, r.sender) || s.pending == Nothing then (s, Answer(DENIED, 0, 0))
    else Complete(c, s)
  }

  // val_tpm_crb_service_handle_request; notified is the outcome of FFA_NOTIFICATION_SET, if it is called.
  function Handle(c: Config, s: State, r: Request, notified: bool): (a: (State, Answer))
    requires Shape(s)
    ensures Shape(a.0)
  {
    if r.func == GET_INTERFACE_VERSION then (s, Answer(OK_RESULTS, SERVICE_VERSION, 0))
    else if r.func == GET_FEATURE_INFO then
      (s, Answer(if r.arg5 % 0x1_0000_0000 != FEATURE_NOTIFICATION then INVARG else if c.supported then OK else NOTSUP, 0, 0))
    else if r.func == START then HandleStart(c, s, r, notified)
    else if r.func == REGISTER_NOTIFICATION then HandleRegister(c, s, r)
    else if r.func == UNREGISTER_NOTIFICATION then HandleUnregister(c, s, r)
    else if r.func == FINISH_NOTIFIED then HandleFinish(c, s, r)
    else (s, Answer(NOFUNC, 0, 0))
  }

  // ---------------------------------------------------------------- runs

  // Requests interleaved with the clients' own writes; LOC_STS is read-only to them.
  datatype Step =
    | Call(r: Request, notified: bool)
    | WriteCtrl(loc: nat, value: nat)
    | WriteStart(loc: nat, value: nat)
    | WriteData(loc: nat, data: Bytes)

  predicate Possible(e: Step) {
    match e
    case Call(_, _) => true
    case WriteCtrl(l, _) => l < LOCALITIES
    case WriteStart(l, _) => l < LOCALITIES
    case WriteData(l, d) => l < LOCALITIES && |d| == BUFFER
  }

  function Next(c: Config, s: State, e: Step): (r: State)
    requires Shape(s) && Possible(e)
    ensures Shape(r)
  {
    match e
    case Call(q, n) => Handle(c, s, q, n).0
    case WriteCtrl(l, v) => s.(regs := s.regs[l := s.regs[l].(ctrl := v)])
    case WriteStart(l, v) => s.(regs := s.regs[l := s.regs[l].(start := v)])
    case WriteData(l, d) => s.(regs := s.regs[l := s.regs[l].(data := d)])
  }

  function Run(c: Config, s: State, es: seq<Step>): (r: State)
    requires Shape(s) && forall i | 0 <= i < |es| :: Possible(es[i])
    ensures Shape(r)
    decreases |es|
  {
    if es == [] then s else Run(c, Next(c, s, es[0]), es[1..])
  }

  // What every reachable state keeps: a pending request has a registered client, LOC_STS says
  // "granted" for the active locality and for no other, registration needs the feature, and the TPM
  // has executed exactly the answered buffers that fit, in order.
  ghost predicate Inv(c: Config, s: State) {
    && Shape(s) && s.active <= NO_LOCALITY
    && (s.pending != Nothing ==> s.registration.Some?)
    && (s.registration.Some? ==> c.supported)
    && (forall l | 0 <= l < LOCALITIES :: s.regs[l].sts == if s.active == l then GRANTED else 0)
    && s.history == Executed(s.resolved)
  }

  // What the TPM sees of a buffer: nothing if its size field exceeds the buffer, which is answered
  // with an error instead.
  function AsCommand(b: Bytes): seq<Bytes> {
    if |b| == BUFFER && CommandSize(b) <= BUFFER then [b[..CommandSize(b)]] else []
  }

  function Executed(rs: seq<Accepted>): seq<Bytes> {
    if rs == [] then [] else Executed(rs[..|rs| - 1]) + AsCommand(rs[|rs| - 1].bytes)
  }

  lemma InvLocality(c: Config, s: State, l: nat, ctrl: nat)
    requires Inv(c, s) && l < LOCALITIES
    ensures Inv(c, ApplyLocality(s, l, ctrl))
  {
  }

  lemma ExecuteInv(c: Config, s: State, l: nat, bytes: Bytes)
    requires Inv(c, s) && l < LOCALITIES && |bytes| == BUFFER
    ensures Inv(c, Execute(c, s, l, bytes).0)
  {
    var done := s.resolved + [Accepted(l, bytes)];
    assert done[..|done| - 1] == s.resolved;
  }

  lemma InvStart(c: Config, s: State, r: Request, notified: bool)
    requires Inv(c, s)
    ensures Inv(c, HandleStart(c, s, r, notified).0)
  {
    hide ApplyLocality, Execute, Executed;
    if !StartRejected(r) {
      InvLocality(c, ClearCtrl(s, r.arg6), r.arg6, s.regs[r.arg6].ctrl);
      ExecuteInv(c, s, r.arg6, s.regs[r.arg6].data);
    }
  }

  lemma InvFinish(c: Config, s: State, r: Request)
    requires Inv(c, s)
    ensures Inv(c, HandleFinish(c, s, r).0)
  {
    hide ApplyLocality, Execute, Executed;
    if s.pending.Locality? { InvLocality(c, s.(pending := Nothing), s.pending.loc, s.pending.ctrl); }
    if s.pending.Command? { ExecuteInv(c, s.(pending := Nothing), s.pending.loc, s.pending.bytes); }
  }

  lemma InvNext(c: Config, s: State, e: Step)
    requires Inv(c, s) && Possible(e)
    ensures Inv(c, Next(c, s, e))
  {
    hide HandleStart, HandleFinish;
    if e.Call? {
      InvStart(c, s, e.r, e.notified);
      InvFinish(c, s, e.r);
    }
  }

  lemma {:induction false} InvRun(c: Config, s: State, es: seq<Step>)
    requires Inv(c, s) && forall i | 0 <= i < |es| :: Possible(es[i])
    ensures Inv(c, Run(c, s, es))
    decreases |es|
  {
    if es != [] {
      InvNext(c, s, es[0]);
      InvRun(c, Next(c, s, es[0]), es[1..]);
    }
  }

  // ---------------------------------------------------------------- no command is lost or invented

  // The START(COMMAND) a step has accepted.
  function Submitted(s: State, e: Step): multiset<Accepted>
    requires Shape(s)
  {
    if e.Call? && e.r.func == START && !StartRejected(e.r) && e.r.arg5 == START_COMMAND && Eligible(s, e.r.arg6) then
      multiset{Accepted(e.r.arg6, s.regs[e.r.arg6].data)}
    else multiset{}
  }

  function Waiting(s: State): multiset<Accepted> {
    if s.pending.Command? then multiset{Accepted(s.pending.loc, s.pending.bytes)} else multiset{}
  }

  function AllSubmitted(c: Config, s: State, es: seq<Step>): multiset<Accepted>
    requires Shape(s) && forall i | 0 <= i < |es| :: Possible(es[i])
    decreases |es|
  {
    if es == [] then multiset{} else Submitted(s, es[0]) + AllSubmitted(c, Next(c, s, es[0]), es[1..])
  }

  lemma ExecuteRuns(c: Config, s: State, l: nat, bytes: Bytes)
    requires Shape(s) && l < LOCALITIES && |bytes| == BUFFER
    ensures multiset(Execute(c, s, l, bytes).0.resolved) == multiset(s.resolved) + multiset{Accepted(l, bytes)}
    ensures Execute(c, s, l, bytes).0.pending == s.pending
  {
  }

  lemma CommandStart(c: Config, s: State, r: Request, notified: bool)
    requires Inv(c, s) && r.func == START
    ensures var t := HandleStart(c, s, r, notified).0;
            multiset(t.resolved) + Waiting(t) == multiset(s.resolved) + Waiting(s) + Submitted(s, Call(r, notified))
  {
    hide Execute, ApplyLocality;
    if !StartRejected(r) && Eligible(s, r.arg6) {
      ExecuteRuns(c, s, r.arg6, s.regs[r.arg6].data);
    }
    if !StartRejected(r) && r.arg5 == START_LOCALITY { LocalityKeeps(ClearCtrl(s, r.arg6), r.arg6, s.regs[r.arg6].ctrl); }
  }

  lemma LocalityKeeps(s: State, l: nat, ctrl: nat)
    requires Shape(s) && l < LOCALITIES
    ensures var t := ApplyLocality(s, l, ctrl); t == s.(active := t.active, regs := t.regs)
  {
  }

  lemma CommandFinish(c: Config, s: State, r: Request)
    requires Inv(c, s)
    ensures var t := HandleFinish(c, s, r).0; multiset(t.resolved) + Waiting(t) == multiset(s.resolved) + Waiting(s)
  {
    hide Execute, ApplyLocality;
    var t := s.(pending := Nothing);
    match s.pending
    case Nothing =>
    case Locality(l, ctrl) => LocalityKeeps(t, l, ctrl);
    case Command(l, bytes) => ExecuteRuns(c, t, l, bytes);
  }

  lemma CommandOther(c: Config, s: State, e: Step)
    requires Inv(c, s) && Possible(e) && !(e.Call? && (e.r.func == START || e.r.func == FINISH_NOTIFIED))
    ensures Next(c, s, e).resolved == s.resolved && Next(c, s, e).pending == s.pending
    ensures Submitted(s, e) == multiset{}
  {
    hide Executed;
  }

  lemma StartNext(c: Config, s: State, e: Step)
    requires Shape(s) && Possible(e) && e.Call? && e.r.func == START
    ensures Next(c, s, e) == HandleStart(c, s, e.r, e.notified).0
  {
    hide HandleStart;
  }

  lemma FinishNext(c: Config, s: State, e: Step)
    requires Shape(s) && Possible(e) && e.Call? && e.r.func == FINISH_NOTIFIED
    ensures Next(c, s, e) == HandleFinish(c, s, e.r).0 && Submitted(s, e) == multiset{}
  {
    hide HandleFinish;
  }

  lemma CommandNext(c: Config, s: State, e: Step)
    requires Inv(c, s) && Possible(e)
    ensures multiset(Next(c, s, e).resolved) + Waiting(Next(c, s, e))
         == multiset(s.resolved) + Waiting(s) + Submitted(s, e)
  {
    hide Next, HandleStart, HandleFinish, Executed, Waiting, Submitted, Eligible, StartRejected;
    if e.Call? && e.r.func == START {
      CommandStart(c, s, e.r, e.notified);
      StartNext(c, s, e);
    } else if e.Call? && e.r.func == FINISH_NOTIFIED {
      CommandFinish(c, s, e.r);
      FinishNext(c, s, e);
    } else {
      CommandOther(c, s, e);
      WaitingIs(s, Next(c, s, e));
    }
  }

  lemma WaitingIs(s: State, t: State)
    requires t.pending == s.pending
    ensures Waiting(t) == Waiting(s)
  {
  }

  // Over any run: every START(COMMAND) accepted has been answered once or is the one still waiting, and
  // nothing else is; unregistering included.
  lemma {:induction false} CommandsConserved(c: Config, s: State, es: seq<Step>)
    requires Inv(c, s) && forall i | 0 <= i < |es| :: Possible(es[i])
    ensures multiset(Run(c, s, es).resolved) + Waiting(Run(c, s, es))
         == multiset(s.resolved) + Waiting(s) + AllSubmitted(c, s, es)
    decreases |es|
  {
    if es != [] {
      hide Next, Waiting, Submitted;
      InvNext(c, s, es[0]);
      CommandNext(c, s, es[0]);
      CommandsConserved(c, Next(c, s, es[0]), es[1..]);
    }
  }

  // ---------------------------------------------------------------- deferral

  // A step that completes the pending request.
  predicate Finishes(s: State, e: Step) {
    e.Call? && e.r.func == FINISH_NOTIFIED && IsClient(s, e.r.sender)
  }

  // Until then nothing changes what was saved, nor who may finish it.
  lemma PendingKept(c: Config, s: State, e: Step)
    requires Inv(c, s) && Possible(e) && s.pending != Nothing && !Finishes(s, e)
    ensures Next(c, s, e).pending == s.pending && Next(c, s, e).registration == s.registration
  {
  }

  ghost predicate NoFinish(s: State, es: seq<Step>) {
    forall i | 0 <= i < |es| :: Possible(es[i]) && !Finishes(s, es[i])
  }

  lemma {:induction false} PendingKeptRun(c: Config, s: State, es: seq<Step>)
    requires Inv(c, s) && s.pending != Nothing && NoFinish(s, es)
    ensures Run(c, s, es).pending == s.pending && Run(c, s, es).registration == s.registration
    decreases |es|
  {
    if es != [] {
      hide Next;
      PendingKept(c, s, es[0]);
      InvNext(c, s, es[0]);
      PendingKeptRun(c, Next(c, s, es[0]), es[1..]);
    }
  }

  // However the run goes on, the client's FINISH_NOTIFIED resolves the bytes that were in the buffer when
  // START was accepted, and gives them to the TPM if they fit.
  lemma DeferredRunsSnapshot(c: Config, s: State, q: Request, es: seq<Step>, f: Request)
    requires Inv(c, s) && q.func == START && !StartRejected(q) && q.arg5 == START_COMMAND && Deferrable(s, q, q.arg6)
    requires f.func == FINISH_NOTIFIED && f.sender == q.sender
    requires NoFinish(Handle(c, s, q, true).0, es)
    ensures var t := Run(c, Handle(c, s, q, true).0, es); var u := Handle(c, t, f, true).0;
            && u.resolved == t.resolved + [Accepted(q.arg6, s.regs[q.arg6].data)]
            && u.history == t.history + AsCommand(s.regs[q.arg6].data) && u.pending == Nothing
  {
    var d := Handle(c, s, q, true).0;
    InvNext(c, s, Call(q, true));
    PendingKeptRun(c, d, es);
    InvRun(c, d, es);
  }

  // START put off and then finished ends in the state, and with the answer, of START done at once.
  lemma DeferralEqualsImmediate(c: Config, s: State, q: Request, f: Request)
    requires Inv(c, s) && q.func == START && !StartRejected(q) && Deferrable(s, q, q.arg6)
    requires f.func == FINISH_NOTIFIED && f.sender == q.sender
    ensures Handle(c, s, q, true).0.pending != Nothing
    ensures Handle(c, Handle(c, s, q, true).0, f, true) == Handle(c, s, q, false)
  {
    hide Execute, ApplyLocality;
    var d := Handle(c, s, q, true).0;
    if q.arg5 == START_LOCALITY {
      assert d.(pending := Nothing) == ClearCtrl(s, q.arg6);
    } else {
      assert d.(pending := Nothing) == s;
    }
  }

  // A registered client's request whose notification fails is answered as if nobody were registered.
  lemma FallbackIsUnregistered(c: Config, s: State, q: Request)
    requires Inv(c, s) && q.func == START && s.pending == Nothing
    ensures var u := Handle(c, s.(registration := None), q, true);
            Handle(c, s, q, false) == (u.0.(registration := s.registration), u.1)
  {
  }

  // ---------------------------------------------------------------- locality ownership

  // The step applies a relinquish request of locality a, saved or fresh.
  predicate Relinquishes(c: Config, s: State, e: Step, a: nat)
    requires Shape(s) && a < LOCALITIES
  {
    e.Call? &&
    ( || (e.r.func == START && !StartRejected(e.r) && e.r.arg5 == START_LOCALITY && e.r.arg6 == a && s.regs[a].ctrl % 4 == 2
          && !(Deferrable(s, e.r, a) && c.supported && e.notified))
      || (Finishes(s, e) && c.supported && s.pending.Locality? && s.pending.loc == a && s.pending.ctrl % 4 == 2))
  }

  // The active locality loses the TPM exactly by relinquishing it, and then nobody holds it.
  lemma OwnerNext(c: Config, s: State, e: Step)
    requires Inv(c, s) && Possible(e) && s.active < LOCALITIES
    ensures Next(c, s, e).active == if Relinquishes(c, s, e, s.active) then NO_LOCALITY else s.active
  {
  }

  ghost predicate NeverRelinquishes(c: Config, s: State, es: seq<Step>, a: nat)
    requires Shape(s) && a < LOCALITIES && forall i | 0 <= i < |es| :: Possible(es[i])
    decreases |es|
  {
    es == [] || (!Relinquishes(c, s, es[0], a) && NeverRelinquishes(c, Next(c, s, es[0]), es[1..], a))
  }

  // No run takes the TPM from a locality that has not given it up, whatever the others request.
  lemma {:induction false} NoTakeover(c: Config, s: State, es: seq<Step>)
    requires Inv(c, s) && s.active < LOCALITIES && forall i | 0 <= i < |es| :: Possible(es[i])
    requires NeverRelinquishes(c, s, es, s.active)
    ensures var t := Run(c, s, es);
            t.active == s.active && forall l | 0 <= l < LOCALITIES :: t.regs[l].sts == if l == s.active then GRANTED else 0
    decreases |es|
  {
    if es != [] {
      hide Next, Relinquishes;
      OwnerNext(c, s, es[0]);
      InvNext(c, s, es[0]);
      NoTakeover(c, Next(c, s, es[0]), es[1..]);
    }
  }

  // A step carries out a command for a locality that does not hold the TPM exactly when it finishes a
  // deferred one whose locality is not the active one.
  lemma AbsentRunsIff(c: Config, s: State, e: Step)
    requires Inv(c, s) && Possible(e)
    ensures var t := Next(c, s, e);
            (|t.resolved| > |s.resolved| && t.resolved[|s.resolved|].loc != s.active)
            <==> Finishes(s, e) && s.pending.Command? && s.pending.loc != s.active
  {
    hide ApplyLocality;
    if e.Call? && e.r.func == START && !StartRejected(e.r) && e.r.arg5 == START_LOCALITY {
      LocalityKeeps(ClearCtrl(s, e.r.arg6), e.r.arg6, s.regs[e.r.arg6].ctrl);
    }
    if s.pending.Locality? { LocalityKeeps(s.(pending := Nothing), s.pending.loc, s.pending.ctrl); }
  }

  // Which takes a relinquish of that locality after its command was accepted.
  lemma AbsentOnlyRelinquished(c: Config, s: State, q: Request, es: seq<Step>)
    requires Inv(c, s) && q.func == START && !StartRejected(q) && q.arg5 == START_COMMAND && Deferrable(s, q, q.arg6)
    requires NoFinish(Handle(c, s, q, true).0, es)
    requires Run(c, Handle(c, s, q, true).0, es).active != q.arg6
    ensures !NeverRelinquishes(c, Handle(c, s, q, true).0, es, q.arg6)
  {
    var d := Handle(c, s, q, true).0;
    InvNext(c, s, Call(q, true));
    if NeverRelinquishes(c, d, es, q.arg6) { NoTakeover(c, d, es); }
  }

  // It happens: while a command of locality 0 waits, its client gives locality 0 up, locality 1 is
  // granted, and FINISH_NOTIFIED still carries out the command of locality 0.
  lemma AbsentRun(c: Config, s: State, client: nat, service: nat) returns (es: seq<Step>)
    requires Inv(c, s) && s.pending == Nothing && Eligible(s, 0)
    requires s.registration.Some? && s.registration.value.client == client && s.registration.value.service == service
    ensures (forall i | 0 <= i < |es| :: Possible(es[i])) && Run(c, s, es).active == 1
    ensures Run(c, s, es).pending == Command(0, s.regs[0].data)
    ensures var f := Call(Request(client, service, FINISH_NOTIFIED, 0, 0), true);
            Next(c, Run(c, s, es), f).resolved == Run(c, s, es).resolved + [Accepted(0, s.regs[0].data)]
  {
    hide Execute;
    var e0 := Call(Request(client, service, START, START_COMMAND, 0), true);
    var e1 := WriteCtrl(0, 2);
    var e2 := Call(Request(client, service, START, START_LOCALITY, 0), true);
    var e3 := WriteCtrl(1, 1);
    var e4 := Call(Request(client, service, START, START_LOCALITY, 1), true);
    es := [e0, e1, e2, e3, e4];
    var s1 := Next(c, s, e0);
    var s2 := Next(c, s1, e1);
    var s3 := Next(c, s2, e2);
    assert s3.active == NO_LOCALITY && s3.pending == s1.pending;
    var s4 := Next(c, s3, e3);
    var s5 := Next(c, s4, e4);
    RunFive(c, s, e0, e1, e2, e3, e4);
    ExecuteResolves(c, s5.(pending := Nothing), 0, s.regs[0].data);
  }

  lemma RunFive(c: Config, s: State, e0: Step, e1: Step, e2: Step, e3: Step, e4: Step)
    requires Shape(s) && Possible(e0) && Possible(e1) && Possible(e2) && Possible(e3) && Possible(e4)
    ensures Run(c, s, [e0, e1, e2, e3, e4]) == Next(c, Next(c, Next(c, Next(c, Next(c, s, e0), e1), e2), e3), e4)
  {
    hide Next;
    var s1 := Next(c, s, e0);
    var s2 := Next(c, s1, e1);
    var s3 := Next(c, s2, e2);
    RunCons(c, s, e0, [e1, e2, e3, e4]);
    RunCons(c, s1, e1, [e2, e3, e4]);
    RunCons(c, s2, e2, [e3, e4]);
    RunCons(c, s3, e3, [e4]);
    RunCons(c, Next(c, s3, e3), e4, []);
    assert [e0] + [e1, e2, e3, e4] == [e0, e1, e2, e3, e4] && [e1] + [e2, e3, e4] == [e1, e2, e3, e4];
    assert [e2] + [e3, e4] == [e2, e3, e4] && [e3] + [e4] == [e3, e4] && [e4] + [] == [e4];
  }

  lemma RunCons(c: Config, s: State, e: Step, es: seq<Step>)
    requires Shape(s) && Possible(e) && forall i | 0 <= i < |es| :: Possible(es[i])
    ensures Run(c, s, [e] + es) == Run(c, Next(c, s, e), es)
  {
    hide Next;
    assert ([e] + es)[1..] == es;
  }

  lemma ExecuteResolves(c: Config, s: State, l: nat, bytes: Bytes)
    requires Shape(s) && l < LOCALITIES && |bytes| == BUFFER
    ensures Execute(c, s, l, bytes).0.resolved == s.resolved + [Accepted(l, bytes)]
  {
  }
}
