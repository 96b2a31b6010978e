/**
 The operations of the service that change the target or the device (gui/mem/MemService.cpp): memory
 writes, breakpoint mutations and the four UXN mutations -- and what the word "retryable" on their errors
 is worth.
 */
module MemWrites {
  import opened Basics
  import opened TargetSeqlock
  import opened ServiceContext

  const MAX_WRITE_BYTES: nat := 1024 * 1024
  const KERNEL_MEMORY_TYPE: int := 3
  const MAX_UXN_SLOTS: nat := 16

  const EXECUTE: nat := 4

  const EPERM: int := 1
  const EACCES: int := 13
  const EINVAL: int := 22
  const EOPNOTSUPP: int := 95
  const ETIMEDOUT: int := 110
  const ECANCELED: int := 125

  /** What the caller gets, and whether the device call was made at all. */
  datatype Outcome<+T> = Outcome(result: Result<T>, issued: bool)

  function Before<T>(error: Error): Outcome<T> { Outcome(Failure(error), false) }

  function After<T>(error: Error): Outcome<T> { Outcome(Failure(error), true) }

  function Final(code: ErrorCode): Error { Error(code, false, None) }

  predicate Retryable<T>(r: Result<T>) {
    r.Failure? && r.error.retryable
  }

  // ---- Memory ----

  datatype WriteReply = WriteReply(started: bool, received: bool, written: int)
  datatype WriteReceipt = WriteReceipt(address: nat, size: nat, target: Snapshot)

  /** `writeMemory`. */
  function WriteMemory(c: Context, address: nat, size: nat, before: Observation, reply: WriteReply,
                       after: Observation): (r: Outcome<WriteReceipt>)
    ensures Retryable(r.result) ==> !r.issued || !reply.started
    ensures r.result.Success? <==>
      && 0 < size <= MAX_WRITE_BYTES && address + (size - 1) <= U64_MAX
      && Passes(c, before) && Stands(c, after)
      && reply.started && reply.received && reply.written == size
    ensures r.result.Success? ==> r.issued && Bracketed(c, before, after)
    ensures r.result.Success? ==>
      r.result.value.address == address && r.result.value.size == size && Some(r.result.value.target) == c.target
    ensures size == 0 || size > MAX_WRITE_BYTES || address + size > U64_MAX + 1 ==>
      r == Before(Final(InvalidArgument))
    ensures r.issued <==> 0 < size <= MAX_WRITE_BYTES && address + size <= U64_MAX + 1 && Passes(c, before)
    ensures r.issued && !reply.started ==> r.result == Unanswered(c, after)
    ensures r.issued && reply.started && !reply.received ==> r.result == Fail(CompletionUnknown, false)
    ensures r.issued && reply.started && reply.received && 0 <= reply.written < size ==>
      r.result == Failure(Error(PartialWrite, false, Some(reply.written)))
    ensures r.issued && reply.started && reply.received && !(0 <= reply.written <= size) ==>
      r.result == Fail(ProtocolError, false)
    ensures r.issued && reply.started && reply.received && reply.written == size && !Stands(c, after) ==>
      r.result == Fail(CompletionUnknown, false)
  {
    if size == 0 || size > MAX_WRITE_BYTES then Before(Final(InvalidArgument))
    else if address > U64_MAX - (size - 1) then Before(Final(InvalidArgument))
    else match ValidateContext(c, before, true, true, true)
      case Some(error) => Before(error)
      case None =>
        if !reply.started then Outcome(Unanswered(c, after), true)
        else if !reply.received then After(Final(CompletionUnknown))
        else if reply.written < 0 || reply.written > size then After(Final(ProtocolError))
        else if reply.written != size then After(Error(PartialWrite, false, Some(reply.written)))
        else if !Stands(c, after) then After(Final(CompletionUnknown))
        else Outcome(Success(WriteReceipt(address, size, c.target.value)), true)
  }

  // ---- Breakpoints ----

  datatype MutationReply = MutationReply(started: bool, received: bool, applied: bool, errorCode: int)

  /** `mutateBreakpoint`, apart from its counters: a check, the lock, a check, the device, a check. */
  function MutateBreakpoint(c: Context, address: nat, before: Observation, locked: Observation,
                            reply: MutationReply, after: Observation): (r: Outcome<Snapshot>)
    ensures Retryable(r.result) ==> !r.issued || (!reply.received && !reply.started)
    ensures r.result.Success? <==>
      && address != 0 && Passes(c, before) && Passes(c, locked) && Stands(c, after)
      && reply.received && reply.applied
    ensures r.result.Success? ==> r.issued && Bracketed(c, before, after) && Some(r.result.value) == c.target
    ensures r.issued <==> address != 0 && Passes(c, before) && Passes(c, locked)
    ensures r.issued && !reply.received && reply.started ==> r.result == Fail(CompletionUnknown, false)
    ensures r.issued && reply.received && !reply.applied ==> r.result == Fail(ProtocolError, false)
    ensures r.issued && !reply.received && !reply.started && Passes(c, after) ==> r.result == Fail(ProtocolError, true)
    ensures r.issued && reply.received && reply.applied && r.result.Failure? ==>
      r.result == Fail(CompletionUnknown, false)
  {
    if address == 0 then Before(Final(InvalidArgument))
    else match ValidateContext(c, before, true, true, true)
      case Some(error) => Before(error)
      case None =>
        match ValidateContext(c, locked, true, true, true)
        case Some(error) => Before(error)
        case None =>
          if !reply.received then
            if reply.started then After(Final(CompletionUnknown))
            else match ValidateContext(c, after, true, true, true)
              case Some(error) => After(error)
              case None => After(Error(ProtocolError, true, None))
          else if !reply.applied then After(Final(ProtocolError))
          else if !Stands(c, after) then After(Final(CompletionUnknown))
          else Outcome(Success(c.target.value), true)
  }

  predicate ValidBreakpoint(access: nat, size: nat) {
    1 <= access <= 4 && (size == 1 || size == 2 || size == 4 || size == 8) && (access == EXECUTE ==> size == 4)
  }

  /** `setBreakpoint`. */
  function SetBreakpoint(c: Context, address: nat, access: nat, size: nat, before: Observation, locked: Observation,
                         reply: MutationReply, after: Observation): (r: Outcome<Snapshot>)
    ensures !(access in {1, 2, 3, EXECUTE} && size in {1, 2, 4, 8}) || (access == EXECUTE && size != 4) ==>
      r == Before(Final(InvalidArgument))
    ensures r.result.Success? ==> access in {1, 2, 3, EXECUTE} && size in {1, 2, 4, 8} && address != 0
    ensures access in {1, 2, 3} && size in {1, 2, 4, 8} ==>
      r == MutateBreakpoint(c, address, before, locked, reply, after)
    ensures access == EXECUTE && size == 4 ==> r == MutateBreakpoint(c, address, before, locked, reply, after)
  {
    if !ValidBreakpoint(access, size) then Before(Final(InvalidArgument))
    else MutateBreakpoint(c, address, before, locked, reply, after)
  }

  // ---- UXN ----

  /** `uxnNativeFailure`: only a time-out is worth another try. */
  function NativeFailure(errorCode: int): (e: Error)
    ensures e.retryable <==> errorCode == ETIMEDOUT
    ensures e.code == Timeout <==> errorCode == 110
    ensures e.code == InvalidArgument <==> errorCode == 22
    ensures e.code == PermissionDenied <==> errorCode in {1, 13, 95}
    ensures e.code == CancelRequested <==> errorCode == 125
    ensures errorCode !in {1, 13, 22, 95, 110, 125} ==> e == Final(ProtocolError)
  {
    if errorCode == EINVAL then Final(InvalidArgument)
    else if errorCode == ETIMEDOUT then Error(Timeout, true, None)
    else if errorCode == EACCES || errorCode == EPERM || errorCode == EOPNOTSUPP then Final(PermissionDenied)
    else if errorCode == ECANCELED then Final(CancelRequested)
    else Final(ProtocolError)
  }

  /** `validateUxnIoResult`: nothing to object, or the error. */
  function ReplyError(c: Context, reply: MutationReply, o: Observation, requireTarget: bool): (r: Option<Error>)
    ensures r.None? <==> reply.received && reply.applied && reply.errorCode == 0
    ensures r.Some? && r.value.retryable ==>
      (!reply.received && !reply.started) || (reply.received && !reply.applied && reply.errorCode == ETIMEDOUT)
    ensures !reply.received && reply.started ==> r == Some(Final(CompletionUnknown))
    ensures reply.received && !reply.applied ==> r == Some(NativeFailure(reply.errorCode))
    ensures !reply.received && !reply.started && requireTarget && !o.cancelled && !o.expired && HasTarget(c) ==>
      r == match ValidateContext(c, o, true, true, false)
           case Some(error) => Some(error)
           case None => Some(Error(ProtocolError, true, None))
  {
    if !reply.received then
      if reply.started then Some(Final(CompletionUnknown))
      else if o.generation != c.generation then
        Some(Error(if o.poisoned then ConnectionPoisoned else ConnectionChanged, true, None))
      else if o.poisoned then Some(Error(ConnectionPoisoned, true, None))
      else if !o.connected then Some(Error(NotConnected, true, None))
      else if requireTarget && c.target != Some(o.target) then Some(Final(TargetChanged))
      else Some(Error(ProtocolError, true, None))
    else if !reply.applied then Some(NativeFailure(reply.errorCode))
    else if reply.errorCode != 0 then Some(Final(ProtocolError))
    else None
  }

  /** What the checks of one UXN call see, in their order. */
  datatype Looks = Looks(first: Observation, mode: Observation, locked: Observation, reply: Observation,
                         last: Observation)

  /** `requireKernelMemoryMode`. */
  function ModeError(c: Context, memoryType: Option<int>, o: Observation, requireTarget: bool): (r: Option<Error>)
    ensures r.None? <==>
      memoryType == Some(KERNEL_MEMORY_TYPE) && ValidateContext(c, o, true, requireTarget, true).None?
    ensures memoryType.Some? && memoryType.value != KERNEL_MEMORY_TYPE ==> r == Some(Final(PermissionDenied))
    ensures memoryType.None? && Connected(c, o, true) && !requireTarget ==> r == Some(Error(ProtocolError, true, None))
  {
    if memoryType.None? then
      match ValidateContext(c, o, true, requireTarget, false)
      case Some(error) => Some(error)
      case None => Some(Error(ProtocolError, true, None))
    else if memoryType.value != KERNEL_MEMORY_TYPE then Some(Final(PermissionDenied))
    else ValidateContext(c, o, true, requireTarget, true)
  }

  /** The checks before a UXN request: context, memory mode, and under the lock the context again. */
  function EntryError(c: Context, memoryType: Option<int>, looks: Looks, requireTarget: bool): (r: Option<Error>)
    ensures r.None? <==>
      && ValidateContext(c, looks.first, true, requireTarget, true).None?
      && memoryType == Some(KERNEL_MEMORY_TYPE) && ValidateContext(c, looks.mode, true, requireTarget, true).None?
      && (requireTarget ==> Passes(c, looks.locked))
    ensures ValidateContext(c, looks.first, true, requireTarget, true).Some? ==>
      r == ValidateContext(c, looks.first, true, requireTarget, true)
    ensures requireTarget && Passes(c, looks.first) && ModeError(c, memoryType, looks.mode, true).None? ==>
      r == ValidateContext(c, looks.locked, true, true, true)
  {
    match ValidateContext(c, looks.first, true, requireTarget, true)
    case Some(error) => Some(error)
    case None =>
      match ModeError(c, memoryType, looks.mode, requireTarget)
      case Some(error) => Some(error)
      case None => if requireTarget then ValidateContext(c, looks.locked, true, true, true) else None
  }

  /**
   The common course of the UXN mutations.  `fits` says whether the answer matches the request;
   `clearUxnBreakpoints` passes `requireTarget == false` and makes no check under the lock.
   */
  function UxnCall<T>(c: Context, memoryType: Option<int>, looks: Looks, reply: MutationReply, requireTarget: bool,
                      fits: bool, receipt: T): (r: Outcome<T>)
    ensures Retryable(r.result) && r.issued ==>
      if reply.received then !reply.applied && reply.errorCode == ETIMEDOUT else !reply.started
    ensures r.issued && reply.started && !reply.received ==> r.result == Fail(CompletionUnknown, false)
    ensures r.issued <==> EntryError(c, memoryType, looks, requireTarget).None?
    ensures r.result.Success? <==>
      && EntryError(c, memoryType, looks, requireTarget).None?
      && reply.received && reply.applied && reply.errorCode == 0 && fits
      && ValidateContext(c, looks.last, true, requireTarget, false).None?
    ensures r.result.Success? ==> r == Outcome(Success(receipt), true)
    ensures r.result.Success? && requireTarget ==> Bracketed(c, looks.first, looks.last)
  {
    match EntryError(c, memoryType, looks, requireTarget)
    case Some(error) => Before(error)
    case None =>
      match ReplyError(c, reply, looks.reply, requireTarget)
      case Some(error) => After(error)
      case None =>
        if !fits then After(Final(ProtocolError))
        else if ValidateContext(c, looks.last, true, requireTarget, false).Some? then After(Final(CompletionUnknown))
        else Outcome(Success(receipt), true)
  }

  predicate UxnAddress(address: nat) {
    address != 0 && address % 4 == 0
  }

  datatype Installed = Installed(pid: nat, address: nat, flags: nat, slot: nat)

  /** Both sides of a UXN mutation of a target: checked before, in kernel mode, answered and checked after. */
  ghost predicate Completed(c: Context, memoryType: Option<int>, looks: Looks, reply: MutationReply) {
    && Passes(c, looks.first) && Passes(c, looks.mode) && Passes(c, looks.locked) && Stands(c, looks.last)
    && memoryType == Some(KERNEL_MEMORY_TYPE)
    && reply.received && reply.applied && reply.errorCode == 0
  }

  /** `installUxnBreakpoint`: the answer must be for the process, the address and a slot that exists. */
  function InstallUxn(c: Context, address: nat, memoryType: Option<int>, looks: Looks, reply: MutationReply,
                      installed: Installed): (r: Outcome<nat>)
    ensures r.result.Success? <==>
      && Completed(c, memoryType, looks, reply) && address > 0 && address % 4 == 0
      && c.target.value.pid == installed.pid && installed.address == address
      && installed.flags == 0 && installed.slot < 16
    ensures r.result.Success? ==> r == Outcome(Success(installed.slot), true)
    ensures Completed(c, memoryType, looks, reply) && address > 0 && address % 4 == 0 && r.result.Failure? ==>
      r == After(Final(ProtocolError))
    ensures address == 0 || address % 4 != 0 ==> r == Before(Final(InvalidArgument))
  {
    if !UxnAddress(address) then Before(Final(InvalidArgument))
    else
      var fits := c.target.Some? && installed.pid == c.target.value.pid && installed.address == address
        && installed.flags == 0 && installed.slot < MAX_UXN_SLOTS;
      UxnCall(c, memoryType, looks, reply, true, fits, installed.slot)
  }

  function RemoveUxn(c: Context, address: nat, memoryType: Option<int>, looks: Looks, reply: MutationReply)
      : (r: Outcome<nat>)
    ensures r.result.Success? <==> Completed(c, memoryType, looks, reply) && address > 0 && address % 4 == 0
    ensures r.result.Success? ==> r == Outcome(Success(address), true)
    ensures address == 0 || address % 4 != 0 ==> r == Before(Final(InvalidArgument))
  {
    if !UxnAddress(address) then Before(Final(InvalidArgument))
    else UxnCall(c, memoryType, looks, reply, true, true, address)
  }

  function ResumeUxn(c: Context, slot: nat, memoryType: Option<int>, looks: Looks, reply: MutationReply)
      : (r: Outcome<nat>)
    ensures r.result.Success? <==> Completed(c, memoryType, looks, reply) && slot < 16
    ensures r.result.Success? ==> r == Outcome(Success(slot), true)
    ensures slot >= 16 ==> r == Before(Final(InvalidArgument))
  {
    if slot >= MAX_UXN_SLOTS then Before(Final(InvalidArgument))
    else UxnCall(c, memoryType, looks, reply, true, true, slot)
  }

  /** `clearUxnBreakpoints` needs a connection but no target. */
  function ClearUxn(c: Context, memoryType: Option<int>, looks: Looks, reply: MutationReply): (r: Outcome<nat>)
    ensures r.result.Success? <==>
      && !GaveUp(looks.first, true) && !GaveUp(looks.mode, true)
      && Connected(c, looks.first, true) && Connected(c, looks.mode, true) && Connected(c, looks.last, true)
      && memoryType == Some(KERNEL_MEMORY_TYPE)
      && reply.received && reply.applied && reply.errorCode == 0
  {
    UxnCall(c, memoryType, looks, reply, false, true, 0)
  }

  // ---- Re-issuing a call ----

  /** One call of any of the operations, with everything the backend answers to it. */
  datatype Call =
    | Write(c: Context, address: nat, size: nat, before: Observation, write: WriteReply, after: Observation)
    | Set(c: Context, address: nat, access: nat, size: nat, before: Observation, locked: Observation,
          reply: MutationReply, after: Observation)
    | Breakpoint(c: Context, address: nat, before: Observation, locked: Observation, reply: MutationReply,
                 after: Observation)
    | Install(c: Context, address: nat, memoryType: Option<int>, looks: Looks, reply: MutationReply,
              installed: Installed)
    | Remove(c: Context, address: nat, memoryType: Option<int>, looks: Looks, reply: MutationReply)
    | Resume(c: Context, slot: nat, memoryType: Option<int>, looks: Looks, reply: MutationReply)
    | Clear(c: Context, memoryType: Option<int>, looks: Looks, reply: MutationReply)

  datatype Verdict = Verdict(done: bool, retryable: bool, issued: bool)

  function Judge<T>(o: Outcome<T>): Verdict {
    Verdict(o.result.Success?, Retryable(o.result), o.issued)
  }

  function Run(call: Call): Verdict {
    match call
    case Write(c, address, size, before, write, after) => Judge(WriteMemory(c, address, size, before, write, after))
    case Set(c, address, access, size, before, locked, reply, after) =>
      Judge(SetBreakpoint(c, address, access, size, before, locked, reply, after))
    case Breakpoint(c, address, before, locked, reply, after) =>
      Judge(MutateBreakpoint(c, address, before, locked, reply, after))
    case Install(c, address, memoryType, looks, reply, installed) =>
      Judge(InstallUxn(c, address, memoryType, looks, reply, installed))
    case Remove(c, address, memoryType, looks, reply) => Judge(RemoveUxn(c, address, memoryType, looks, reply))
    case Resume(c, slot, memoryType, looks, reply) => Judge(ResumeUxn(c, slot, memoryType, looks, reply))
    case Clear(c, memoryType, looks, reply) => Judge(ClearUxn(c, memoryType, looks, reply))
  }

  predicate Started(call: Call) {
    if call.Write? then call.write.started else call.reply.started || call.reply.received
  }

  /** The device did the whole of what was asked. */
  predicate Applied(call: Call) {
    if call.Write? then call.write.received && call.write.written == call.size
    else call.reply.received && call.reply.applied
  }

  /**
   What the backend owes: nothing changes on the device for a call that is not made or not started, and
   something does when it reports that the request was applied.
   */
  ghost predicate Honest(call: Call, effect: bool) {
    && (!Run(call).issued || !Started(call) ==> !effect)
    && (Run(call).issued && Started(call) && Applied(call) ==> effect)
  }

  /** The device answered that it did not apply the request because it ran out of time. */
  predicate TimedOut(call: Call) {
    !call.Write? && call.reply.received && !call.reply.applied && call.reply.errorCode == ETIMEDOUT
  }

  /**
   A retryable error means that the call changed nothing, with exactly one exception: a UXN request that
   reached the device and was answered with ETIMEDOUT is called retryable on the device's word alone.
   */
  lemma RetryableMayHaveChangedIff(call: Call)
    requires Run(call).retryable
    ensures Honest(call, true) <==> Run(call).issued && TimedOut(call)
  {
  }

  /** And a success means that it changed something. */
  lemma DoneChangedSomething(call: Call, effect: bool)
    requires Honest(call, effect) && Run(call).done
    ensures effect
  {
  }

  /** A resume that the device answered with a time-out. */
  function LateResume(c: Context, o: Observation, slot: nat): Call {
    Resume(c, slot, Some(KERNEL_MEMORY_TYPE), Looks(o, o, o, o, o), MutationReply(true, true, false, ETIMEDOUT))
  }

  /** The exception is real: the honest device may have acted before its time-out. */
  lemma TimeOutMayHaveChanged(c: Context, o: Observation, slot: nat)
    requires Passes(c, o) && slot < MAX_UXN_SLOTS
    ensures var call := LateResume(c, o, slot);
      Run(call).retryable && Honest(call, true) && Honest(call, false)
  {
  }

  function Count(effects: seq<bool>): nat {
    if effects == [] then 0 else Count(effects[..|effects| - 1]) + if effects[|effects| - 1] then 1 else 0
  }

  lemma {:induction false} CountNever(effects: seq<bool>)
    requires forall i :: 0 <= i < |effects| ==> !effects[i]
    ensures Count(effects) == 0
  {
    if effects != [] { CountNever(effects[..|effects| - 1]); }
  }

  lemma {:induction false} CountOnce(effects: seq<bool>)
    requires forall i, j :: 0 <= i < j < |effects| ==> !(effects[i] && effects[j])
    ensures Count(effects) <= 1
  {
    if effects != [] {
      var n := |effects| - 1;
      if effects[n] { CountNever(effects[..n]); } else { CountOnce(effects[..n]); }
    }
  }

  lemma {:induction false} CountSome(effects: seq<bool>, i: nat)
    requires i < |effects| && effects[i]
    ensures Count(effects) >= 1
  {
    if i < |effects| - 1 { CountSome(effects[..|effects| - 1], i); }
  }

  lemma {:induction false} CountTwice(effects: seq<bool>, i: nat, j: nat)
    requires i < j < |effects| && effects[i] && effects[j]
    ensures Count(effects) >= 2
  {
    var n := |effects| - 1;
    if j < n { CountTwice(effects[..n], i, j); } else { CountSome(effects[..n], i); }
  }

  /** A client that issues the call again as long as the error is retryable. */
  predicate IsRetryRun(calls: seq<Call>) {
    0 < |calls| && forall i :: 0 <= i < |calls| - 1 ==> Run(calls[i]).retryable
  }

  /** What an honest device may have done in each call of a run. */
  ghost predicate AreEffects(calls: seq<Call>, effects: seq<bool>) {
    |effects| == |calls| && forall i :: 0 <= i < |calls| ==> Honest(calls[i], effects[i])
  }

  /** The request went out and reached the device. */
  predicate MayAct(call: Call) {
    Run(call).issued && Started(call)
  }

  /** An honest device that acts in every call in which it may do so. */
  function MostEffects(calls: seq<Call>): (effects: seq<bool>)
    ensures AreEffects(calls, effects) && forall i :: 0 <= i < |calls| ==> effects[i] == MayAct(calls[i])
  {
    seq(|calls|, i requires 0 <= i < |calls| => MayAct(calls[i]))
  }

  /**
   When a client that repeats a call while the error is retryable gets its effect at most once: exactly when at
   most one call of the run reached the device.  Of the calls it repeated, those are the ones the device answered
   with a time-out.
   */
  lemma AtMostOneEffectIff(calls: seq<Call>)
    requires IsRetryRun(calls)
    ensures (forall effects :: AreEffects(calls, effects) ==> Count(effects) <= 1) <==>
      forall i, j :: 0 <= i < j < |calls| ==> !(MayAct(calls[i]) && MayAct(calls[j]))
    ensures forall i :: 0 <= i < |calls| - 1 ==> (MayAct(calls[i]) <==> Run(calls[i]).issued && TimedOut(calls[i]))
  {
    hide Run, Started, Applied, TimedOut, Count;
    forall i | 0 <= i < |calls| - 1 ensures MayAct(calls[i]) <==> Run(calls[i]).issued && TimedOut(calls[i]) {
      RetryableMayHaveChangedIff(calls[i]);
    }
    if i, j :| 0 <= i < j < |calls| && MayAct(calls[i]) && MayAct(calls[j]) {
      CountTwice(MostEffects(calls), i, j);
    } else {
      forall effects | AreEffects(calls, effects) ensures Count(effects) <= 1 {
        forall i, j | 0 <= i < j < |effects| ensures !(effects[i] && effects[j]) {
          assert effects[i] ==> MayAct(calls[i]);
          assert effects[j] ==> MayAct(calls[j]);
        }
        CountOnce(effects);
      }
    }
  }

  /** Twice is possible: a resume answered with a time-out that the device carried out, issued again. */
  lemma TwoTimeOuts(c: Context, o: Observation, slot: nat)
    requires Passes(c, o) && slot < MAX_UXN_SLOTS
    ensures var call := LateResume(c, o, slot);
      IsRetryRun([call, call]) && AreEffects([call, call], [true, true]) && Count([true, true]) == 2
  {
    var call := LateResume(c, o, slot);
    TimeOutMayHaveChanged(c, o, slot);
    assert [true, true][..1] == [true] && [true][..0] == [];
    assert Count([true]) == 1;
  }

  lemma {:induction false} RetriesChangeNothing(calls: seq<Call>, effects: seq<bool>, n: nat)
    requires IsRetryRun(calls) && AreEffects(calls, effects) && n < |calls|
    requires forall i :: 0 <= i < |calls| && TimedOut(calls[i]) ==> !effects[i]
    ensures Count(effects[..n]) == 0
  {
    if n > 0 {
      RetriesChangeNothing(calls, effects, n - 1);
      RetryableMayHaveChangedIff(calls[n - 1]);
      assert effects[..n][..n - 1] == effects[..n - 1];
    }
  }

  /**
   So, when no request that timed out was applied, over the whole run the effect happens at most once, exactly
   once if the client ends with success, and not at all if it gives up on a retryable error.
   */
  lemma AtMostOneEffect(calls: seq<Call>, effects: seq<bool>)
    requires IsRetryRun(calls) && AreEffects(calls, effects)
    requires forall i :: 0 <= i < |calls| && TimedOut(calls[i]) ==> !effects[i]
    ensures Count(effects) <= 1
    ensures Run(calls[|calls| - 1]).done ==> Count(effects) == 1
    ensures Run(calls[|calls| - 1]).retryable ==> Count(effects) == 0
  {
    var n := |calls| - 1;
    RetriesChangeNothing(calls, effects, n);
    if Run(calls[n]).done { DoneChangedSomething(calls[n], effects[n]); }
    if Run(calls[n]).retryable { RetryableMayHaveChangedIff(calls[n]); }
  }
}
