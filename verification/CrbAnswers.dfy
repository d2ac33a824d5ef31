/** What a client of the TPM service sees of each request: registers, data buffer and answer, byte by
    byte and bit by bit, in terms of the state it called in. */
module CrbAnswers {
  import opened CrbMachine

  // The 32-bit big-endian number at b[i].
  ghost predicate Reads(b: Bytes, i: nat, v: nat) {
    i + 4 <= |b| && v == b[i] * 0x1000000 + b[i + 1] * 0x10000 + b[i + 2] * 0x100 + b[i + 3]
  }

  // Nothing but the registers of locality l, the active locality, what is pending and the TPM's own
  // record differs.
  ghost predicate OnlyLocality(s: State, t: State, l: nat) {
    && |t.regs| == |s.regs| && t.registration == s.registration
    && forall k | 0 <= k < |s.regs| && k != l :: t.regs[k] == s.regs[k]
  }

  // The first bytes are the response, the others and the other registers are as before, and
  // CTRL_START is cleared.
  ghost predicate HoldsResponse(before: Regs, after: Regs, rsp: Bytes) {
    && |after.data| == |before.data| && |rsp| <= |before.data|
    && (forall j | 0 <= j < |rsp| :: after.data[j] == rsp[j])
    && (forall j | |rsp| <= j < |before.data| :: after.data[j] == before.data[j])
    && after.start == 0 && after.ctrl == before.ctrl && after.sts == before.sts
  }

  // The command in `bytes`, run for locality l, has been answered.
  ghost predicate Answered(c: Config, s: State, t: State, a: Answer, l: nat, bytes: Bytes)
    requires l < |s.regs|
  {
    && OnlyLocality(s, t, l) && t.active == s.active
    && exists size: nat | Reads(bytes, 2, size) ::
         if size > 0x400 then
           a == Answer(0x8e000006, 0, 0) && t.regs == s.regs && t.history == s.history
         else
           && size <= |bytes| && t.history == s.history + [bytes[..size]]
           && match c.tpm(s.history, bytes[..size])
              case Failed => a == Answer(0x8e000006, 0, 0) && t.regs == s.regs
              case Reply(rsp) =>
                if |rsp| > 0x400 then a == Answer(0x8e000006, 0, 0) && t.regs == s.regs
                else
                  && a.status == 0x05000001 && a.value == |rsp|
                  && (if |rsp| >= 10 then Reads(rsp, 6, a.rc) else a.rc == 0x8e000006)
                  && HoldsResponse(s.regs[l], t.regs[l], rsp)
  }

  lemma ExecuteAnswers(c: Config, s: State, l: nat, bytes: Bytes)
    requires Shape(s) && l < LOCALITIES && |bytes| == BUFFER
    ensures Answered(c, s, Execute(c, s, l, bytes).0, Execute(c, s, l, bytes).1, l, bytes)
    ensures Execute(c, s, l, bytes).0.pending == s.pending
  {
    assert Reads(bytes, 2, CommandSize(bytes));
    var size := CommandSize(bytes);
    if size <= BUFFER {
      var reply := c.tpm(s.history, bytes[..size]);
      if reply.Reply? && |reply.rsp| <= BUFFER {
        var t := Execute(c, s, l, bytes).0;
        assert t.regs[l].data == reply.rsp + s.regs[l].data[|reply.rsp|..];
      }
    }
  }

  // The caller is the registered client of the registered service and nothing is outstanding.
  ghost predicate MayWait(c: Config, s: State, r: Request) {
    && c.supported && s.pending == Nothing
    && exists id: nat :: s.registration == Some(Registration(r.sender, r.receiver, id))
  }

  // START(COMMAND) of a locality that has the TPM and has set CTRL_START: put off with a copy of its
  // buffer if its client can be notified, and otherwise run and answered at once.
  lemma CommandAnswered(c: Config, s: State, r: Request, notified: bool)
    requires Shape(s) && r.func == 0x0f000201 && r.arg5 == 0 && r.arg6 < 5
    requires s.active == r.arg6 && s.regs[r.arg6].sts % 2 == 1 && s.regs[r.arg6].start % 2 == 1
    ensures var (t, a) := Handle(c, s, r, notified);
            if notified && MayWait(c, s, r) then
              a == Answer(0x05000001, 0, 0) && t == s.(pending := Command(r.arg6, s.regs[r.arg6].data))
            else Answered(c, s, t, a, r.arg6, s.regs[r.arg6].data) && t.pending == s.pending
  {
    hide Execute;
    ExecuteAnswers(c, s, r.arg6, s.regs[r.arg6].data);
    WaitIff(c, s, r);
  }

  lemma WaitIff(c: Config, s: State, r: Request)
    ensures MayWait(c, s, r) <==> c.supported && s.pending == Nothing && s.registration.Some?
                                  && s.registration.value.client == r.sender && s.registration.value.service == r.receiver
  {
    if s.registration.Some? && s.registration.value.client == r.sender && s.registration.value.service == r.receiver {
      assert s.registration == Some(Registration(r.sender, r.receiver, s.registration.value.id));
    }
  }

  // From any other locality it is answered with success and does nothing.
  lemma CommandIgnored(c: Config, s: State, r: Request, notified: bool)
    requires Shape(s) && r.func == 0x0f000201 && r.arg5 == 0 && r.arg6 < 5
    requires s.active != r.arg6 || s.regs[r.arg6].sts % 2 == 0 || s.regs[r.arg6].start % 2 == 0
    ensures Handle(c, s, r, notified) == (s, Answer(0x05000001, 0, 0))
  {
  }

  // FINISH_NOTIFIED of the registered client: the saved command is answered as if it had been run at once.
  lemma FinishAnswered(c: Config, s: State, r: Request, notified: bool)
    requires Inv(c, s) && r.func == 0x0f000501 && s.pending.Command?
    requires s.registration.Some? && s.registration.value.client == r.sender
    ensures var (t, a) := Handle(c, s, r, notified);
            Answered(c, s, t, a, s.pending.loc, s.pending.bytes) && t.pending == Nothing
  {
    hide Execute, Executed;
    var u := s.(pending := Nothing);
    ExecuteAnswers(c, u, s.pending.loc, s.pending.bytes);
  }

  // Bit 0 of the control value asks for the TPM and wins over bit 1, which gives it up.  A request is
  // granted exactly if nobody else has the TPM; afterwards LOC_STS says whether the locality has it.
  ghost predicate Decided(s: State, t: State, l: nat, ctrl: nat)
    requires l < |s.regs| == |t.regs|
  {
    && OnlyLocality(s, t, l) && t.history == s.history && t.resolved == s.resolved
    && t.active == (if ctrl % 2 == 1 then (if s.active < 5 then s.active else l)
                    else if ctrl / 2 % 2 == 1 && s.active == l then 5
                    else s.active)
    && t.regs[l].sts == (if t.active == l then 1 else 0)
    && t.regs[l].data == s.regs[l].data && t.regs[l].start == s.regs[l].start
  }

  lemma ApplyDecides(s: State, l: nat, ctrl: nat)
    requires Shape(s) && l < LOCALITIES
    ensures Decided(s, ApplyLocality(s, l, ctrl), l, ctrl)
    ensures ApplyLocality(s, l, ctrl).regs[l].ctrl == s.regs[l].ctrl && ApplyLocality(s, l, ctrl).pending == s.pending
  {
    assert ctrl % 4 == ctrl % 2 + 2 * (ctrl / 2 % 2);
  }

  // START(LOCALITY_REQUEST): the control register is read and cleared, and its value decided on at
  // once or saved.
  lemma LocalityAnswered(c: Config, s: State, r: Request, notified: bool)
    requires Shape(s) && r.func == 0x0f000201 && r.arg5 == 1 && r.arg6 < 5
    ensures var (t, a) := Handle(c, s, r, notified); var ctrl := s.regs[r.arg6].ctrl;
            && a == Answer(0x05000001, 0, 0) && t.regs[r.arg6].ctrl == 0
            && if notified && MayWait(c, s, r) then
                 t == s.(pending := Locality(r.arg6, ctrl), regs := s.regs[r.arg6 := s.regs[r.arg6].(ctrl := 0)])
               else Decided(s, t, r.arg6, ctrl) && t.pending == s.pending
  {
    hide ApplyLocality;
    var u := s.(regs := s.regs[r.arg6 := s.regs[r.arg6].(ctrl := 0)]);
    ApplyDecides(u, r.arg6, s.regs[r.arg6].ctrl);
    WaitIff(c, s, r);
  }

  lemma FinishDecided(c: Config, s: State, r: Request, notified: bool)
    requires Inv(c, s) && r.func == 0x0f000501 && s.pending.Locality?
    requires s.registration.Some? && s.registration.value.client == r.sender
    ensures var (t, a) := Handle(c, s, r, notified);
            a == Answer(0x05000001, 0, 0) && Decided(s, t, s.pending.loc, s.pending.ctrl) && t.pending == Nothing
  {
    hide ApplyLocality, Executed;
    ApplyDecides(s.(pending := Nothing), s.pending.loc, s.pending.ctrl);
  }

  // Everything else a request can be answered with; the state then stays as it is, except for the
  // registration itself.
  lemma OtherAnswers(c: Config, s: State, r: Request, notified: bool)
    requires Inv(c, s)
    ensures var (t, a) := Handle(c, s, r, notified); var mine := s.registration.Some? && s.registration.value.client == r.sender;
            && (r.func == 0x0f000001 ==> t == s && a == Answer(0x05000002, 0x10000, 0))
            && (r.func == 0x0f000101 ==>
                  t == s && a == Answer(if r.arg5 % 0x1_0000_0000 != 0xfea70000 then 0x8e000005
                                        else if c.supported then 0x05000001 else 0x8e000002, 0, 0))
            && (r.func == 0x0f000201 && (r.arg5 > 1 || r.arg6 > 4) ==> t == s && a == Answer(0x8e000005, 0, 0))
            && (r.func == 0x0f000301 ==>
                  if r.arg5 != 0 || r.arg6 > 0xff then t == s && a == Answer(0x8e000005, 0, 0)
                  else if !c.supported then t == s && a == Answer(0x8e000002, 0, 0)
                  else if s.registration.Some? then t == s && a == Answer(0x8e000009, 0, 0)
                  else t == s.(registration := Some(Registration(r.sender, r.receiver, r.arg6)))
                       && a == Answer(0x05000001, 0, 0))
            && (r.func == 0x0f000401 ==>
                  if !c.supported then t == s && a == Answer(0x8e000002, 0, 0)
                  else if !mine || s.pending != Nothing then t == s && a == Answer(0x8e00000a, 0, 0)
                  else t == s.(registration := None) && a == Answer(0x05000001, 0, 0))
            && (r.func == 0x0f000501 && !(mine && s.pending != Nothing) ==>
                  t == s && a == Answer(if c.supported then 0x8e00000a else 0x8e000002, 0, 0))
            && (r.func !in {0x0f000001, 0x0f000101, 0x0f000201, 0x0f000301, 0x0f000401, 0x0f000501} ==>
                  t == s && a == Answer(0x8e000001, 0, 0))
  {
    hide Execute, ApplyLocality, Executed, Immediate, Deferred;
    assert r.arg5 == 0x10000 * (r.arg5 / 0x10000) + r.arg5 % 0x10000;
  }
}
