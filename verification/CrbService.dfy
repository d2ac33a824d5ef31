/** val/src/val_tpm_crb_service.c: the service's globals and the CRB pages in memory, shown to carry
    out the machine of CrbMachine. */
module CrbService {
  import opened CrbMachine

  // ---------------------------------------------------------------- the CRB pages

  const PAGE := 0x1000         // VAL_TPM_CRB_LOCALITY_SIZE
  const LOC_CTRL := 0x008
  const LOC_STS := 0x00c
  const CTRL_START := 0x04c
  const DATA := 0x080

  type Cells = seq<nat>

  // The pages of all localities; a register is kept in its first cell.
  ghost predicate Pages(m: Cells) {
    |m| == LOCALITIES * PAGE
  }

  function RegsAt(m: Cells, l: nat): (r: Regs)
    requires Pages(m) && l < LOCALITIES
    ensures |r.data| == BUFFER
  {
    Regs(m[l * PAGE + LOC_CTRL], m[l * PAGE + LOC_STS], m[l * PAGE + CTRL_START],
         m[l * PAGE + DATA..l * PAGE + DATA + BUFFER])
  }

  function RegsOf(m: Cells): (r: seq<Regs>)
    requires Pages(m)
    ensures |r| == LOCALITIES && forall l | 0 <= l < LOCALITIES :: r[l] == RegsAt(m, l) && |r[l].data| == BUFFER
  {
    seq(LOCALITIES, l requires 0 <= l < LOCALITIES => RegsAt(m, l))
  }

  // A register write changes that register and nothing else.
  lemma WriteRegister(m: Cells, l: nat, v: nat)
    requires Pages(m) && l < LOCALITIES
    ensures RegsOf(m[l * PAGE + LOC_CTRL := v]) == RegsOf(m)[l := RegsAt(m, l).(ctrl := v)]
    ensures RegsOf(m[l * PAGE + LOC_STS := v]) == RegsOf(m)[l := RegsAt(m, l).(sts := v)]
    ensures RegsOf(m[l * PAGE + CTRL_START := v]) == RegsOf(m)[l := RegsAt(m, l).(start := v)]
  {
    forall k | 0 <= k < LOCALITIES
      ensures RegsAt(m[l * PAGE + LOC_CTRL := v], k) == if k == l then RegsAt(m, l).(ctrl := v) else RegsAt(m, k)
      ensures RegsAt(m[l * PAGE + LOC_STS := v], k) == if k == l then RegsAt(m, l).(sts := v) else RegsAt(m, k)
      ensures RegsAt(m[l * PAGE + CTRL_START := v], k) == if k == l then RegsAt(m, l).(start := v) else RegsAt(m, k)
    {
      SameData(m, l * PAGE + LOC_CTRL, v, k);
      SameData(m, l * PAGE + LOC_STS, v, k);
      SameData(m, l * PAGE + CTRL_START, v, k);
    }
  }

  lemma SameData(m: Cells, a: nat, v: nat, k: nat)
    requires Pages(m) && k < LOCALITIES && a < |m| && (a < k * PAGE + DATA || k * PAGE + DATA + BUFFER <= a)
    ensures RegsAt(m[a := v], k).data == RegsAt(m, k).data
  {
  }

  function PutData(m: Cells, l: nat, rsp: Bytes): (r: Cells)
    requires Pages(m) && l < LOCALITIES && |rsp| <= BUFFER
    ensures |r| == |m|
  {
    m[..l * PAGE + DATA] + rsp + m[l * PAGE + DATA + |rsp|..]
  }

  lemma DataAfter(m: Cells, l: nat, rsp: Bytes, k: nat)
    requires Pages(m) && l < LOCALITIES && k < LOCALITIES && |rsp| <= BUFFER
    ensures RegsAt(PutData(m, l, rsp), k) ==
              if k == l then RegsAt(m, l).(data := Overlay(RegsAt(m, l).data, rsp)) else RegsAt(m, k)
  {
    var r := PutData(m, l, rsp);
    if k == l {
      assert RegsAt(r, l).data == Overlay(RegsAt(m, l).data, rsp);
    } else {
      assert RegsAt(r, k).data == RegsAt(m, k).data;
    }
  }

  lemma WriteResponse(m: Cells, l: nat, rsp: Bytes)
    requires Pages(m) && l < LOCALITIES && |rsp| <= BUFFER
    ensures RegsOf(PutData(m, l, rsp)) == RegsOf(m)[l := RegsAt(m, l).(data := Overlay(RegsAt(m, l).data, rsp))]
  {
    hide RegsAt, PutData;
    var r := PutData(m, l, rsp);
    forall k | 0 <= k < LOCALITIES
      ensures RegsAt(r, k) == if k == l then RegsAt(m, l).(data := Overlay(RegsAt(m, l).data, rsp)) else RegsAt(m, k)
    {
      DataAfter(m, l, rsp, k);
    }
  }

  // A response and the cleared CTRL_START, together.
  lemma ResponseWritten(m: Cells, l: nat, rsp: Bytes)
    requires Pages(m) && l < LOCALITIES && |rsp| <= BUFFER
    ensures RegsOf(PutData(m, l, rsp)[l * PAGE + CTRL_START := 0])
         == RegsOf(m)[l := RegsAt(m, l).(data := Overlay(RegsAt(m, l).data, rsp), start := 0)]
  {
    hide RegsAt, PutData;
    WriteResponse(m, l, rsp);
    WriteRegister(PutData(m, l, rsp), l, 0);
  }

  // The fields of a direct message that the service reads and writes.
  datatype Args = Args(is64: bool, arg1: nat, arg4: nat, arg5: nat, arg6: nat)

  function Decode(p: Args): Request {
    Request(p.arg1 / 0x10000 % 0x10000, p.arg1 % 0x10000, p.arg4 % 0x1_0000_0000, p.arg5, p.arg6)
  }

  // The response goes back from receiver to sender, in the width of the request.
  function Respond(p: Args, a: Answer): Args {
    Args(p.is64, Decode(p).receiver * 0x10000 + Decode(p).sender, a.status, a.value, a.rc)
  }

  class Service {
    const config: Config
    const mmio: array<nat>
    const cmd: array<nat>          // g_tpm_cmd
    const rsp: array<nat>          // g_tpm_rsp
    const pendingCmd: array<nat>   // g_tpm_notification_pending_cmd
    var active: nat
    var client: nat
    var service: nat
    var id: nat
    var registered: nat
    var outstanding: nat
    var localityValid: nat
    var locality: nat
    var localityCtrl: nat
    var commandValid: nat
    var commandLocality: nat
    var commandSize: nat
    var history: seq<Bytes>        // what the TPM has executed
    ghost var resolved: seq<Accepted>

    ghost predicate Room() {
      && mmio.Length == LOCALITIES * PAGE && cmd.Length == rsp.Length == pendingCmd.Length == BUFFER
      && mmio != cmd && mmio != rsp && mmio != pendingCmd && cmd != rsp && cmd != pendingCmd && rsp != pendingCmd
    }

    // The machine state that the globals stand for.
    ghost function Abs(): State
      requires Room()
      reads this, mmio, pendingCmd
    {
      State(RegsOf(mmio[..]), active, if registered != 0 then Some(Registration(client, service, id)) else None,
            if localityValid != 0 then Locality(locality, localityCtrl)
            else if commandValid != 0 then Command(commandLocality, pendingCmd[..])
            else Nothing,
            history, resolved)
    }

    // A notification is outstanding exactly while one request is saved, and never two.
    ghost predicate Valid()
      reads this, mmio, pendingCmd
    {
      && Room() && Inv(config, Abs())
      && (outstanding != 0 <==> localityValid != 0 || commandValid != 0) && !(localityValid != 0 && commandValid != 0)
      && (commandValid != 0 ==> commandSize == CommandSize(pendingCmd[..]))
    }

    constructor (config: Config)
      ensures Valid() && this.config == config
      ensures Abs().active == NO_LOCALITY && Abs().registration == None && Abs().pending == Nothing && history == []
    {
      this.config := config;
      mmio, cmd := new nat[LOCALITIES * PAGE](_ => 0), new nat[BUFFER](_ => 0);
      rsp, pendingCmd := new nat[BUFFER](_ => 0), new nat[BUFFER](_ => 0);
      active, client, service, id, registered, outstanding := NO_LOCALITY, 0, 0, 0, 0, 0;
      localityValid, locality, localityCtrl, commandValid, commandLocality, commandSize := 0, 0, 0, 0, 0, 0;
      history, resolved := [], [];
    }

    // val_tpm_copy_from_mmio, on a whole data buffer
    method CopyFromMmio(dst: array<nat>, l: nat)
      requires Room() && dst.Length == BUFFER && dst != mmio && l < LOCALITIES
      modifies dst
      ensures dst[..] == RegsAt(mmio[..], l).data
    {
      for i := 0 to BUFFER
        invariant forall j | 0 <= j < i :: dst[j] == mmio[l * PAGE + DATA + j]
      {
        dst[i] := mmio[l * PAGE + DATA + i];
      }
    }

    // val_tpm_copy_to_mmio
    method CopyToMmio(l: nat, src: array<nat>, size: nat)
      requires Room() && src.Length == BUFFER && src != mmio && l < LOCALITIES && size <= BUFFER
      modifies mmio
      ensures mmio[..] == PutData(old(mmio[..]), l, src[..size])
    {
      for i := 0 to size
        invariant forall j | 0 <= j < mmio.Length && !(l * PAGE + DATA <= j < l * PAGE + DATA + i) :: mmio[j] == old(mmio[j])
        invariant forall j | l * PAGE + DATA <= j < l * PAGE + DATA + i :: mmio[j] == src[j - l * PAGE - DATA]
      {
        mmio[l * PAGE + DATA + i] := src[i];
      }
      assert mmio[..] == PutData(old(mmio[..]), l, src[..size]);
    }

    // val_tpm_copy
    method Copy(dst: array<nat>, src: array<nat>, size: nat)
      requires dst != src && size <= dst.Length && size <= src.Length
      modifies dst
      ensures dst[..size] == src[..size]
    {
      for i := 0 to size
        invariant forall j | 0 <= j < i :: dst[j] == src[j]
      {
        dst[i] := src[i];
      }
    }

    method Zero(dst: array<nat>)
      modifies dst
      ensures forall j | 0 <= j < dst.Length :: dst[j] == 0
    {
      for i := 0 to dst.Length
        invariant forall j | 0 <= j < i :: dst[j] == 0
      {
        dst[i] := 0;
      }
    }

    // val_tpm_execute_command_buffer
    method ExecuteBuffer(src: array<nat>, size: nat) returns (a: Answer)
      requires Room() && src.Length == BUFFER && src != rsp && src != mmio
      modifies cmd, rsp, this`history
      ensures size > BUFFER ==> a == Answer(INV_CRB_CTRL_DATA, 0, 0) && history == old(history)
      ensures size <= BUFFER ==> history == old(history) + [old(src[..size])]
      ensures size <= BUFFER ==>
                var reply := config.tpm(old(history), old(src[..size]));
                if reply.Failed? || |reply.rsp| > BUFFER then a == Answer(INV_CRB_CTRL_DATA, 0, 0)
                else a == Answer(OK, |reply.rsp|, ResponseCode(reply.rsp)) && rsp[..|reply.rsp|] == reply.rsp
    {
      a := Answer(INV_CRB_CTRL_DATA, 0, 0);
      if size > BUFFER { return; }
      if src != cmd {
        Zero(cmd);
        Copy(cmd, src, size);
      }
      assert cmd[..size] == old(src[..size]);
      Zero(rsp);
      var reply := config.tpm(history, cmd[..size]);
      history := history + [cmd[..size]];
      if reply.Failed? || |reply.rsp| > BUFFER { return; }
      for i := 0 to |reply.rsp|
        invariant history == old(history) + [old(src[..size])]
        invariant forall j | 0 <= j < i :: rsp[j] == reply.rsp[j]
      {
        rsp[i] := reply.rsp[i];
      }
      assert rsp[..|reply.rsp|] == reply.rsp;
      a := Answer(OK, |reply.rsp|, ResponseCode(reply.rsp));
    }

    // val_tpm_crb_command_notify_eligible
    method NotifyEligible(l: nat) returns (r: bool)
      requires Room() && l < LOCALITIES && Shape(Abs())
      ensures r == Eligible(Abs(), l)
    {
      r := active == l && mmio[l * PAGE + LOC_STS] % 2 == 1 && mmio[l * PAGE + CTRL_START] % 2 == 1;
    }

    // val_tpm_crb_apply_locality_request
    method ApplyLocalityRequest(l: nat, ctrl: nat) returns (status: nat)
      requires Room() && l < LOCALITIES && Shape(Abs())
      modifies mmio, this`active
      ensures Abs() == ApplyLocality(old(Abs()), l, ctrl) && status == OK
    {
      var bits := ctrl % 4;
      ghost var m := mmio[..];
      status := OK;
      WriteRegister(m, l, 0);
      WriteRegister(m, l, GRANTED);
      if bits == 0 {
        mmio[l * PAGE + LOC_STS] := if active == l then GRANTED else 0;
        return;
      }
      if bits % 2 != 0 {
        if active >= LOCALITIES || active == l {
          active := l;
          mmio[l * PAGE + LOC_STS] := GRANTED;
        } else {
          mmio[l * PAGE + LOC_STS] := 0;
        }
        return;
      }
      if active == l {
        mmio[l * PAGE + LOC_STS] := 0;
        active := NO_LOCALITY;
      } else {
        mmio[l * PAGE + LOC_STS] := 0;
      }
    }

    // val_tpm_crb_start_locality_request
    method StartLocalityRequest(l: nat) returns (status: nat)
      requires Room() && l < LOCALITIES && Shape(Abs())
      modifies mmio, this`active
      ensures (Abs(), Answer(status, 0, 0)) == Immediate(config, old(Abs()), START_LOCALITY, l)
    {
      hide ApplyLocality;
      var ctrl := mmio[l * PAGE + LOC_CTRL];
      WriteRegister(mmio[..], l, 0);
      mmio[l * PAGE + LOC_CTRL] := 0;
      status := ApplyLocalityRequest(l, ctrl);
    }

    // The common end of val_tpm_crb_start_command and val_tpm_crb_complete_pending_command.
    method RunCommand(l: nat, src: array<nat>, size: nat) returns (a: Answer)
      requires Room() && l < LOCALITIES && Shape(Abs()) && (src == cmd || src == pendingCmd)
      requires size == CommandSize(src[..])
      modifies mmio, cmd, rsp, this`history, this`resolved
      ensures (Abs(), a) == Execute(config, old(Abs()), l, old(src[..]))
    {
      ghost var m := mmio[..];
      assert size <= BUFFER ==> old(src[..])[..size] == old(src[..size]);
      resolved := resolved + [Accepted(l, src[..])];
      a := ExecuteBuffer(src, size);
      if a.status == OK {
        CopyToMmio(l, rsp, a.value);
        ResponseWritten(m, l, rsp[..a.value]);
        mmio[l * PAGE + CTRL_START] := 0;
      }
    }

    // val_tpm_crb_start_command
    method StartCommand(l: nat) returns (a: Answer)
      requires Room() && l < LOCALITIES && Shape(Abs())
      modifies mmio, cmd, rsp, this`history, this`resolved
      ensures (Abs(), a) == Immediate(config, old(Abs()), START_COMMAND, l)
    {
      hide Execute;
      a := Answer(OK, 0, 0);
      if active != l || mmio[l * PAGE + LOC_STS] % 2 == 0 { return; }
      if mmio[l * PAGE + CTRL_START] % 2 == 0 { return; }
      CopyFromMmio(cmd, l);
      a := RunCommand(l, cmd, CommandSize(cmd[..]));
    }

    // val_tpm_signal_notification
    method Signal(sender: nat, receiver: nat, notified: bool) returns (signalled: bool)
      modifies this`outstanding
      ensures signalled == (config.supported && registered != 0 && old(outstanding) == 0 && client == sender
                            && service == receiver && notified)
      ensures outstanding == if signalled then 1 else old(outstanding)
    {
      if !config.supported || registered == 0 || outstanding != 0 || client != sender || service != receiver {
        return false;
      }
      signalled := notified;
      if notified { outstanding := 1; }
    }
  
    // The START branch of val_tpm_crb_service_handle_request (lines 486-560).
    method Start(r: Request, notified: bool) returns (a: Answer)
      requires Valid()
      modifies this, mmio, cmd, rsp, pendingCmd
      ensures Valid() && (Abs(), a) == HandleStart(config, old(Abs()), r, notified)
    {
      hide Immediate, Eligible;
      a := Answer(INVARG, 0, 0);
      ghost var s := Abs();
      InvStart(config, s, r, notified);
      if r.arg5 > 0xff || r.arg6 >= LOCALITIES { return; }
      if r.arg5 == START_LOCALITY {
        if registered != 0 && client == r.sender && service == r.receiver && outstanding == 0 {
          a := DeferLocality(r, notified);
        } else {
          var status := StartLocalityRequest(r.arg6);
          a := Answer(status, 0, 0);
        }
      } else if r.arg5 == START_COMMAND {
        var eligible := NotifyEligible(r.arg6);
        if registered != 0 && client == r.sender && service == r.receiver && outstanding == 0 && eligible {
          a := DeferCommand(r, notified);
        } else {
          a := StartCommand(r.arg6);
        }
      }
    }

    // Lines 500-516: save the control value, signal, and fall back when the signal fails.
    method DeferLocality(r: Request, notified: bool) returns (a: Answer)
      requires Valid() && !StartRejected(r) && r.arg5 == START_LOCALITY && Deferrable(Abs(), r, r.arg6)
      modifies mmio, this
      ensures Valid() && history == old(history) && (Abs(), a) == HandleStart(config, old(Abs()), r, notified)
    {
      hide ApplyLocality, Executed;
      ghost var s := Abs();
      InvStart(config, s, r, notified);
      locality, localityCtrl := r.arg6, mmio[r.arg6 * PAGE + LOC_CTRL];
      WriteRegister(mmio[..], r.arg6, 0);
      mmio[r.arg6 * PAGE + LOC_CTRL] := 0;
      localityValid := 1;
      a := Answer(OK, 0, 0);
      var signalled := Signal(r.sender, r.receiver, notified);
      if !signalled {
        localityValid := 0;
        assert Abs() == ClearCtrl(s, r.arg6);
        var status := ApplyLocalityRequest(r.arg6, localityCtrl);
        a := Answer(status, 0, 0);
        localityCtrl := 0;
      }
    }

    // Lines 531-549: save the command buffer, signal, and fall back when the signal fails.
    method DeferCommand(r: Request, notified: bool) returns (a: Answer)
      requires Valid() && !StartRejected(r) && r.arg5 == START_COMMAND && Deferrable(Abs(), r, r.arg6)
      modifies this, mmio, cmd, rsp, pendingCmd
      ensures Valid() && (Abs(), a) == HandleStart(config, old(Abs()), r, notified)
    {
      hide Immediate, Executed, CommandSize;
      ghost var s := Abs();
      InvStart(config, s, r, notified);
      commandLocality := r.arg6;
      CopyFromMmio(pendingCmd, r.arg6);
      commandSize := CommandSize(pendingCmd[..]);
      commandValid := 1;
      a := Answer(OK, 0, 0);
      var signalled := Signal(r.sender, r.receiver, notified);
      if !signalled {
        commandValid, commandSize := 0, 0;
        Zero(pendingCmd);
        assert Abs() == s;
        a := StartCommand(r.arg6);
      }
    }

    // Lines 274-277 and 642-646.
    method ForgetCommand()
      requires Room()
      modifies this`commandValid, this`commandLocality, this`commandSize, pendingCmd
      ensures commandValid == commandLocality == commandSize == 0 && mmio[..] == old(mmio[..])
      ensures Abs() == old(Abs()).(pending := if localityValid != 0 then old(Abs()).pending else Nothing)
    {
      hide RegsOf, RegsAt;
      commandValid, commandLocality, commandSize := 0, 0, 0;
      Zero(pendingCmd);
      assert mmio[..] == old(mmio[..]);
    }

    // val_tpm_clear_notification_registration
    method ClearRegistration()
      requires Room()
      modifies this, pendingCmd
      ensures Abs() == old(Abs()).(registration := None, pending := Nothing)
      ensures outstanding == localityValid == commandValid == 0
    {
      hide RegsOf, RegsAt, Executed, CommandSize, Shape, Inv;
      client, service, id, registered, outstanding := 0, 0, 0, 0, 0;
      localityValid, locality, localityCtrl := 0, 0, 0;
      ForgetCommand();
    }

    // REGISTER_NOTIFICATION and UNREGISTER_NOTIFICATION (lines 562-611).
    method Register(r: Request) returns (a: Answer)
      requires Valid()
      modifies this
      ensures Valid() && (Abs(), a) == HandleRegister(config, old(Abs()), r)
    {
      if r.arg5 > 0x1ffff || r.arg6 > 0xff || r.arg5 / 0x10000 != 0 || r.arg5 % 0x10000 != 0 {
        a := Answer(INVARG, 0, 0);
      } else if !config.supported {
        a := Answer(NOTSUP, 0, 0);
      } else if registered != 0 {
        a := Answer(ALREADY, 0, 0);
      } else {
        client, service, id, registered, outstanding := r.sender, r.receiver, r.arg6, 1, 0;
        a := Answer(OK, 0, 0);
      }
    }

    method Unregister(r: Request) returns (a: Answer)
      requires Valid()
      modifies this, pendingCmd
      ensures Valid() && (Abs(), a) == HandleUnregister(config, old(Abs()), r)
    {
      if !config.supported {
        a := Answer(NOTSUP, 0, 0);
      } else if registered == 0 || client != r.sender {
        a := Answer(DENIED, 0, 0);
      } else if outstanding != 0 {
        a := Answer(DENIED, 0, 0);
      } else {
        ClearRegistration();
        a := Answer(OK, 0, 0);
      }
    }

    // FINISH_NOTIFIED (lines 613-654).
    method Finish(r: Request) returns (a: Answer)
      requires Valid()
      modifies this, mmio, cmd, rsp, pendingCmd
      ensures Valid() && (Abs(), a) == HandleFinish(config, old(Abs()), r)
    {
      hide ApplyLocality, Execute, RegsOf, RegsAt, Executed, CommandSize;
      ghost var s := Abs();
      InvFinish(config, s, r);
      if !config.supported { return Answer(NOTSUP, 0, 0); }
      if registered == 0 || client != r.sender || outstanding == 0 { return Answer(DENIED, 0, 0); }
      if localityValid != 0 {
        PendingUnused(config, s, locality, localityCtrl, s.regs[0].data, Nothing);
        var status := ApplyLocalityRequest(locality, localityCtrl);
        a := Answer(status, 0, 0);
        localityValid, locality, localityCtrl := 0, 0, 0;
      } else if commandValid != 0 {
        PendingUnused(config, s, commandLocality, 0, pendingCmd[..], Nothing);
        a := RunCommand(commandLocality, pendingCmd, commandSize);
        ForgetCommand();
      } else {
        // Lines 648-651 are never reached.
        assert false;
      }
      outstanding := 0;
    }

    // val_tpm_crb_service_handle_request
    method HandleRequest(p: Args, notified: bool) returns (response: Args)
      requires Valid()
      modifies this, mmio, cmd, rsp, pendingCmd
      ensures Valid() && Abs() == Handle(config, old(Abs()), Decode(p), notified).0
      ensures response == Respond(p, Handle(config, old(Abs()), Decode(p), notified).1)
      ensures var sender, receiver := p.arg1 / 0x10000 % 0x10000, p.arg1 % 0x10000;
              var (t, a) := Handle(config, old(Abs()), Request(sender, receiver, p.arg4 % 0x1_0000_0000, p.arg5, p.arg6), notified);
              && Abs() == t && response.is64 == p.is64 && response.arg1 == receiver * 0x10000 + sender
              && response.arg4 == a.status && response.arg5 == a.value && response.arg6 == a.rc
    {
      hide HandleStart, HandleRegister, HandleUnregister, HandleFinish;
      var r := Decode(p);
      var a := Answer(NOFUNC, 0, 0);
      if r.func == GET_INTERFACE_VERSION {
        a := Answer(OK_RESULTS, SERVICE_VERSION, 0);
      } else if r.func == GET_FEATURE_INFO {
        if r.arg5 % 0x1_0000_0000 == FEATURE_NOTIFICATION {
          a := Answer(if config.supported then OK else NOTSUP, 0, 0);
        } else {
          a := Answer(INVARG, 0, 0);
        }
      } else if r.func == START {
        a := Start(r, notified);
      } else if r.func == REGISTER_NOTIFICATION {
        a := Register(r);
      } else if r.func == UNREGISTER_NOTIFICATION {
        a := Unregister(r);
      } else if r.func == FINISH_NOTIFIED {
        a := Finish(r);
      }
      response := Args(p.is64, r.receiver * 0x10000 + r.sender, a.status, a.value, a.rc);
    }
  
    // A client's own write to its page, between two requests.
    method ClientWrite(e: Step)
      requires Valid() && !e.Call? && Possible(e)
      modifies mmio
      ensures Valid() && Abs() == Next(config, old(Abs()), e)
    {
      hide RegsAt, PutData;
      ghost var m, s := mmio[..], Abs();
      InvNext(config, s, e);
      match e
      case WriteCtrl(l, v) =>
        WriteRegister(m, l, v);
        mmio[l * PAGE + LOC_CTRL] := v;
      case WriteStart(l, v) =>
        WriteRegister(m, l, v);
        mmio[l * PAGE + CTRL_START] := v;
      case WriteData(l, d) =>
        FillData(l, d);
        WriteResponse(m, l, d);
        assert Overlay(s.regs[l].data, d) == d;
    }

    method FillData(l: nat, d: Bytes)
      requires Room() && l < LOCALITIES && |d| == BUFFER
      modifies mmio
      ensures mmio[..] == PutData(old(mmio[..]), l, d)
    {
      for i := 0 to BUFFER
        invariant mmio[..] == PutData(old(mmio[..]), l, d[..i])
      {
        mmio[l * PAGE + DATA + i] := d[i];
      }
      assert d[..BUFFER] == d;
    }
  }
}
