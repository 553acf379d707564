/** TPM provisioning: ownership, the asset-tag NV index and the secret that guards it. */
module Provisioning {
  import opened Bytes

  const TAG_INDEX_SIZE: nat := 48

  /** The asset-tag NV index: its auth, its size, and its contents once written. */
  datatype NvIndex = NvIndex(auth: string, size: nat, data: Option<seq<byte>>)

  /** The part of the TPM the agent provisions. */
  datatype TpmState = TpmState(ownerAuth: string, index: Option<NvIndex>)

  datatype Auth = Owner | Index

  // ----- the TPM, which may fail at any call -----

  /** A TPM connection on which `calls` more calls succeed; a failing call has no effect. */
  class Tpm {
    var state: TpmState
    var calls: nat

    method IsOwnedWithAuth(secret: string) returns (r: Option<bool>)
      modifies this
      ensures state == old(state)
      ensures if old(calls) == 0 then r == None && calls == 0 else r == Some(state.ownerAuth == secret) && calls == old(calls) - 1
    {
      if calls == 0 { return None; }
      calls := calls - 1;
      return Some(state.ownerAuth == secret);
    }

    /** Sets the owner auth of a TPM whose owner auth is empty. */
    method TakeOwnership(secret: string) returns (ok: bool)
      modifies this
      ensures ok <==> old(calls) > 0 && old(state).ownerAuth == ""
      ensures state == if ok then old(state).(ownerAuth := secret) else old(state)
    {
      if calls == 0 || state.ownerAuth != "" { return false; }
      calls := calls - 1;
      state := state.(ownerAuth := secret);
      return true;
    }

    method NvIndexExists() returns (r: Option<bool>)
      modifies this
      ensures state == old(state)
      ensures if old(calls) == 0 then r == None && calls == 0 else r == Some(state.index.Some?) && calls == old(calls) - 1
    {
      if calls == 0 { return None; }
      calls := calls - 1;
      return Some(state.index.Some?);
    }

    /** Needs the auth of the chosen hierarchy, and an index that has been written. */
    method NvRead(secret: string, via: Auth) returns (r: Option<seq<byte>>)
      modifies this
      ensures state == old(state)
      ensures r == if old(calls) > 0 then Readable(state, secret, via) else None
      ensures r.Some? ==> calls == old(calls) - 1
    {
      r := Readable(state, secret, via);
      if calls == 0 { return None; }
      calls := calls - 1;
    }

    method NvRelease(owner: string) returns (ok: bool)
      modifies this
      ensures ok <==> old(calls) > 0 && old(state).ownerAuth == owner && old(state).index.Some?
      ensures state == if ok then old(state).(index := None) else old(state)
      ensures ok ==> calls == old(calls) - 1
    {
      if calls == 0 || state.ownerAuth != owner || state.index.None? { return false; }
      calls := calls - 1;
      state := state.(index := None);
      return true;
    }

    method NvDefine(owner: string, auth: string, size: nat) returns (ok: bool)
      modifies this
      ensures ok <==> old(calls) > 0 && old(state).ownerAuth == owner && old(state).index.None?
      ensures state == if ok then old(state).(index := Some(NvIndex(auth, size, None))) else old(state)
      ensures ok ==> calls == old(calls) - 1
    {
      if calls == 0 || state.ownerAuth != owner || state.index.Some? { return false; }
      calls := calls - 1;
      state := state.(index := Some(NvIndex(auth, size, None)));
      return true;
    }

    method NvWrite(secret: string, data: seq<byte>) returns (ok: bool)
      modifies this
      ensures ok <==> old(calls) > 0 && Writable(old(state), secret, data)
      ensures state == if ok then Written(old(state), data) else old(state)
    {
      if calls == 0 || !Writable(state, secret, data) { return false; }
      calls := calls - 1;
      state := Written(state, data);
      return true;
    }
  }

  function Readable(t: TpmState, secret: string, via: Auth): Option<seq<byte>> {
    if t.index.None? then None
    else if (if via == Owner then t.ownerAuth else t.index.value.auth) != secret then None
    else t.index.value.data
  }

  predicate Writable(t: TpmState, secret: string, data: seq<byte>) {
    t.index.Some? && t.index.value.auth == secret && |data| == t.index.value.size
  }

  function Written(t: TpmState, data: seq<byte>): TpmState
    requires t.index.Some?
  {
    t.(index := Some(t.index.value.(data := Some(data))))
  }

  // ----- the tasks -----

  /** The state a task leaves, and whether it succeeded. */
  datatype TaskResult = TaskResult(tpm: TpmState, secret: string, ok: bool)

  /** define-tag-index with n calls that succeed: which call is the first to fail decides the outcome. */
  function DefineTagIndex(t: TpmState, secret: string, owner: string, random: string, n: nat): TaskResult {
    if n == 0 || t.ownerAuth != owner then TaskResult(t, secret, false) else
    var secret' := if secret == "" then random else secret;
    if n == 1 then TaskResult(t, secret', false)
    else if t.index.None? then CreateIndex(t, secret', Zeros(TAG_INDEX_SIZE), n - 2)
    else if n == 2 || t.index.value.data.None? then TaskResult(t, secret', false)
    else if n == 3 then TaskResult(t, secret', false)
    else CreateIndex(t.(index := None), secret', Migrated(t.index.value.data.value), n - 4)
  }

  /** An existing tag of the right size is carried over; anything else becomes zeros. */
  function Migrated(tag: seq<byte>): (r: seq<byte>)
    ensures |r| == TAG_INDEX_SIZE
  {
    if |tag| == TAG_INDEX_SIZE then tag else Zeros(TAG_INDEX_SIZE)
  }

  function CreateIndex(t: TpmState, secret: string, tag: seq<byte>, n: nat): TaskResult {
    if n == 0 then TaskResult(t, secret, false)
    else TaskResult(t.(index := Some(NvIndex(secret, TAG_INDEX_SIZE, if n == 1 then None else Some(tag)))), secret, n >= 2)
  }

  /** take-ownership with n calls that succeed. */
  function TakeOwnership(t: TpmState, owner: string, n: nat): (TpmState, bool) {
    if n == 0 then (t, false)
    else if t.ownerAuth == owner then (t, true)
    else if owner == "" || n == 1 || t.ownerAuth != "" || n == 2 then (t, false)
    else (t.(ownerAuth := owner), true)
  }

  /** The setup tasks, over the configuration's tag secret. */
  class Tasks {
    var tagSecretKey: string

    method RunDefineTagIndex(tpm: Tpm, owner: string, random: string) returns (ok: bool)
      modifies this, tpm
      ensures TaskResult(tpm.state, tagSecretKey, ok) ==
              DefineTagIndex(old(tpm.state), old(tagSecretKey), owner, random, old(tpm.calls))
    {
      var newAssetTag := Zeros(TAG_INDEX_SIZE);
      var owned := tpm.IsOwnedWithAuth(owner);
      if owned == None || !owned.value { return false; }
      if tagSecretKey == "" { tagSecretKey := random; }
      var exists_ := tpm.NvIndexExists();
      if exists_ == None { return false; }
      if exists_.value {
        var existing := tpm.NvRead(owner, Owner);
        if existing == None { return false; }
        if |existing.value| == TAG_INDEX_SIZE { newAssetTag := existing.value; }
        var released := tpm.NvRelease(owner);
        if !released { return false; }
      }
      var defined := tpm.NvDefine(owner, tagSecretKey, TAG_INDEX_SIZE);
      if !defined { return false; }
      ok := tpm.NvWrite(tagSecretKey, newAssetTag);
    }

    method RunTakeOwnership(tpm: Tpm, owner: string) returns (ok: bool)
      modifies tpm
      ensures (tpm.state, ok) == TakeOwnership(old(tpm.state), owner, old(tpm.calls))
    {
      var owned := tpm.IsOwnedWithAuth(owner);
      if owned == None { return false; }
      if !owned.value && owner == "" {
        return false;
      } else if !owned.value {
        var clear := tpm.IsOwnedWithAuth("");
        if clear == None || !clear.value { return false; }
        ok := tpm.TakeOwnership(owner);
        return;
      }
      return true;
    }
  }

  /** The service's tag deployment with n calls that succeed. */
  function DeployTo(t: TpmState, secret: string, tag: seq<byte>, n: nat): (TpmState, bool) {
    if n >= 2 && Writable(t, secret, tag) then (Written(t, tag), true) else (t, false)
  }

  method DeployAssetTag(tpm: Tpm, secret: string, tag: seq<byte>) returns (ok: bool)
    modifies tpm
    ensures (tpm.state, ok) == DeployTo(old(tpm.state), secret, tag, old(tpm.calls))
  {
    var exists_ := tpm.NvIndexExists();
    if exists_ == None || !exists_.value { return false; }
    ok := tpm.NvWrite(secret, tag);
  }

  // ----- the asset tag across one run -----

  /** The tag of a provisioned index survives a define-tag-index run exactly when the run stops before
      releasing the old index or gets to write the new one. */
  lemma TagSurvivesExactly(t: TpmState, secret: string, owner: string, random: string, n: nat, tag: seq<byte>)
    requires t.ownerAuth == owner && t.index.Some? && t.index.value.data == Some(tag) && |tag| == TAG_INDEX_SIZE
    ensures var r := DefineTagIndex(t, secret, owner, random, n);
            (r.tpm.index.Some? && r.tpm.index.value.data == Some(tag)) <==> n <= 3 || n >= 6
  {
  }

  /** An index of another size is replaced by an empty tag. */
  lemma ForeignTagCleared(t: TpmState, secret: string, owner: string, random: string, n: nat)
    requires t.index.Some? && t.index.value.data.Some? && |t.index.value.data.value| != TAG_INDEX_SIZE
    requires DefineTagIndex(t, secret, owner, random, n).ok
    ensures DefineTagIndex(t, secret, owner, random, n).tpm.index ==
            Some(NvIndex(DefineTagIndex(t, secret, owner, random, n).secret, TAG_INDEX_SIZE, Some(Zeros(TAG_INDEX_SIZE))))
  {
  }

  /** A run succeeds exactly when the owner secret is right, an existing index has been written, and no call
      fails. */
  lemma DefineSucceedsExactly(t: TpmState, secret: string, owner: string, random: string, n: nat)
    ensures DefineTagIndex(t, secret, owner, random, n).ok <==>
            && t.ownerAuth == owner
            && (t.index.Some? ==> t.index.value.data.Some?)
            && n >= if t.index.Some? then 6 else 4
  {
  }

  // ----- the agent over time -----

  /** The TPM, the tag secret saved on disk, and the running service's copy of it. */
  datatype System = System(tpm: TpmState, saved: string, service: string)

  /** Tasks of a setup command: the two above, the one that saves the configuration, and the rest. */
  datatype Task = TakeOwnershipTask | DefineTagIndexTask | SaveConfigTask | OtherTask

  /** What happens to a task: how many TPM calls succeed, and whether everything else does. */
  datatype Luck = Luck(calls: nat, ok: bool)

  datatype Step =
    | Setup(tasks: seq<Task>, owner: string, random: string, lucks: seq<Luck>, saveOk: bool)
    | DefineTagIndexCommand
    | StartService
    | DeployTag(tag: seq<byte>, calls: nat)
    | Quote

  const SETUP_ALL: seq<Task> := [OtherTask, OtherTask, OtherTask, TakeOwnershipTask, DefineTagIndexTask,
                                 OtherTask, OtherTask, SaveConfigTask, OtherTask]
  const PROVISION_ATTESTATION: seq<Task> := [OtherTask, TakeOwnershipTask, DefineTagIndexTask, OtherTask, OtherTask]

  /** The two setup commands that define the tag index. */
  datatype SetupCommand = SetupAll | ProvisionAttestation

  function SetupTasks(cmd: SetupCommand): seq<Task> {
    match cmd
    case SetupAll => SETUP_ALL
    case ProvisionAttestation => PROVISION_ATTESTATION
  }

  datatype Running = Running(sys: System, memory: string, ok: bool)

  function RunTask(r: Running, task: Task, owner: string, random: string, luck: Luck): Running {
    match task
    case OtherTask => r.(ok := luck.ok)
    case SaveConfigTask => if luck.ok then r.(sys := r.sys.(saved := r.memory)) else r.(ok := false)
    case TakeOwnershipTask =>
      var (t, ok) := TakeOwnership(r.sys.tpm, owner, luck.calls);
      r.(sys := r.sys.(tpm := t), ok := ok)
    case DefineTagIndexTask =>
      var d := DefineTagIndex(r.sys.tpm, r.memory, owner, random, luck.calls);
      Running(r.sys.(tpm := d.tpm), d.secret, d.ok)
  }

  /** Tasks run in order until one fails. */
  function RunTasks(r: Running, tasks: seq<Task>, owner: string, random: string, lucks: seq<Luck>): Running
    decreases |tasks|
  {
    if tasks == [] || !r.ok then r
    else if lucks == [] then r.(ok := false)
    else RunTasks(RunTask(r, tasks[0], owner, random, lucks[0]), tasks[1..], owner, random, lucks[1..])
  }

  /** A setup process loads the configuration, runs its tasks, and saves if all of them succeeded. */
  function RunSetup(s: System, tasks: seq<Task>, owner: string, random: string, lucks: seq<Luck>, saveOk: bool): System {
    var r := RunTasks(Running(s, s.saved, true), tasks, owner, random, lucks);
    if r.ok && saveOk then r.sys.(saved := r.memory) else r.sys
  }

  function Deploy(s: System, tag: seq<byte>, calls: nat): System {
    s.(tpm := DeployTo(s.tpm, s.service, tag, calls).0)
  }

  function Next(s: System, step: Step): System {
    match step
    case Setup(tasks, owner, random, lucks, saveOk) => RunSetup(s, tasks, owner, random, lucks, saveOk)
    case DefineTagIndexCommand => s
    case StartService => s.(service := s.saved)
    case DeployTag(tag, calls) => Deploy(s, tag, calls)
    case Quote => s
  }

  function Run(s: System, steps: seq<Step>): System {
    if steps == [] then s else Next(Run(s, steps[..|steps| - 1]), steps[|steps| - 1])
  }

  /** A generated secret is never empty: it carries a prefix. */
  ghost predicate Proper(steps: seq<Step>) {
    forall i :: 0 <= i < |steps| && steps[i].Setup? ==> steps[i].random != ""
  }

  /** The saved secret, if there is one, opens the index, if there is one; the service knows no other. */
  ghost predicate Consistent(s: System) {
    && (s.saved != "" && s.tpm.index.Some? ==> s.tpm.index.value.auth == s.saved)
    && (s.service != "" ==> s.service == s.saved)
  }

  /** During a setup, the secret in memory is either the saved one or that of the index just created. */
  ghost predicate ConsistentRun(r: Running) {
    && Consistent(r.sys)
    && (r.sys.saved != "" ==> r.memory == r.sys.saved)
    && (r.ok && r.memory != "" && r.sys.tpm.index.Some? ==> r.sys.tpm.index.value.auth == r.memory)
  }

  /** What may change of the owner auth and the saved secret: only an empty one, and only once. */
  ghost predicate Kept(a: System, b: System) {
    && (a.tpm.ownerAuth != "" ==> b.tpm.ownerAuth == a.tpm.ownerAuth)
    && (a.saved != "" ==> b.saved == a.saved)
  }

  lemma TaskKeeps(r: Running, task: Task, owner: string, random: string, luck: Luck)
    requires ConsistentRun(r) && r.ok && random != ""
    ensures ConsistentRun(RunTask(r, task, owner, random, luck))
    ensures Kept(r.sys, RunTask(r, task, owner, random, luck).sys)
  {
  }

  lemma {:induction false} TasksKeep(r: Running, tasks: seq<Task>, owner: string, random: string, lucks: seq<Luck>)
    requires ConsistentRun(r) && random != ""
    ensures ConsistentRun(RunTasks(r, tasks, owner, random, lucks))
    ensures Kept(r.sys, RunTasks(r, tasks, owner, random, lucks).sys)
    decreases |tasks|
  {
    hide RunTask;
    if tasks != [] && r.ok && lucks != [] {
      TaskKeeps(r, tasks[0], owner, random, lucks[0]);
      TasksKeep(RunTask(r, tasks[0], owner, random, lucks[0]), tasks[1..], owner, random, lucks[1..]);
    }
  }

  lemma StepKeeps(s: System, step: Step)
    requires Consistent(s) && (step.Setup? ==> step.random != "")
    ensures Consistent(Next(s, step)) && Kept(s, Next(s, step))
  {
    if step.Setup? {
      hide RunTasks;
      TasksKeep(Running(s, s.saved, true), step.tasks, step.owner, step.random, step.lucks);
    }
  }

  /** Over every run of setups stopped at any call, deployments and quotes, from any consistent state:
      the saved secret opens the index, an owner auth once set never changes, nor does a saved secret. */
  lemma {:induction false} RunKeeps(s: System, steps: seq<Step>)
    requires Consistent(s) && Proper(steps)
    ensures Consistent(Run(s, steps)) && Kept(s, Run(s, steps))
  {
    hide Next;
    if steps != [] {
      RunKeeps(s, steps[..|steps| - 1]);
      StepKeeps(Run(s, steps[..|steps| - 1]), steps[|steps| - 1]);
    }
  }

  /** A fresh installation is consistent, whatever index an earlier one left in the TPM. */
  lemma FreshInstall(t: TpmState, steps: seq<Step>)
    requires Proper(steps)
    ensures var s := Run(System(t, "", ""), steps);
            s.saved != "" && s.tpm.index.Some? ==> s.tpm.index.value.auth == s.saved
  {
    RunKeeps(System(t, "", ""), steps);
  }

  /** take-ownership succeeds exactly when the TPM ends up owned by the given secret, and that needs the
      TPM to be owned by it already or to be clear. */
  lemma TakeOwnershipExactly(t: TpmState, owner: string, n: nat)
    ensures var (t', ok) := TakeOwnership(t, owner, n);
            && (ok ==> t'.ownerAuth == owner)
            && (!ok ==> t' == t)
            && (n >= 3 ==> (ok <==> t.ownerAuth == owner || (t.ownerAuth == "" && owner != "")))
            && t'.index == t.index
  {
  }

  // ----- a completed setup makes deployment work -----

  lemma {:induction false} CompletedTasks(r: Running, tasks: seq<Task>, owner: string, random: string, lucks: seq<Luck>)
    requires ConsistentRun(r) && random != "" && RunTasks(r, tasks, owner, random, lucks).ok
    requires DefineTagIndexTask in tasks || Provisioned(r, owner)
    ensures Provisioned(RunTasks(r, tasks, owner, random, lucks), owner)
    decreases |tasks|
  {
    if tasks != [] {
      StoppedStays(r, tasks, owner, random, lucks);
      var r' := RunTask(r, tasks[0], owner, random, lucks[0]);
      StoppedStays(r', tasks[1..], owner, random, lucks[1..]);
      TaskKeeps(r, tasks[0], owner, random, lucks[0]);
      if tasks[0] == DefineTagIndexTask || Provisioned(r, owner) { ProvisionStep(r, tasks[0], owner, random, lucks[0]); }
      assert tasks == [tasks[0]] + tasks[1..];
      CompletedTasks(r', tasks[1..], owner, random, lucks[1..]);
    }
  }

  /** The TPM is owned by the given secret; the index exists, holds 48 bytes, and opens with the secret in memory. */
  ghost predicate Provisioned(r: Running, owner: string) {
    && r.sys.tpm.ownerAuth == owner && r.memory != "" && r.sys.tpm.index.Some?
    && var i := r.sys.tpm.index.value;
       i.auth == r.memory && i.size == TAG_INDEX_SIZE && i.data.Some? && |i.data.value| == TAG_INDEX_SIZE
  }

  lemma StoppedStays(r: Running, tasks: seq<Task>, owner: string, random: string, lucks: seq<Luck>)
    requires RunTasks(r, tasks, owner, random, lucks).ok
    ensures r.ok && (tasks != [] ==> lucks != [])
  {
  }

  lemma ProvisionStep(r: Running, task: Task, owner: string, random: string, luck: Luck)
    requires ConsistentRun(r) && r.ok && random != "" && RunTask(r, task, owner, random, luck).ok
    requires task == DefineTagIndexTask || Provisioned(r, owner)
    ensures Provisioned(RunTask(r, task, owner, random, luck), owner)
  {
  }

  /** After a setup that defines the index and completes, and a service start, any 48-byte tag deploys. */
  lemma SetupThenDeploy(s: System, tasks: seq<Task>, owner: string, random: string, lucks: seq<Luck>, tag: seq<byte>, calls: nat)
    requires Consistent(s) && random != "" && DefineTagIndexTask in tasks && calls >= 2 && |tag| == TAG_INDEX_SIZE
    requires RunTasks(Running(s, s.saved, true), tasks, owner, random, lucks).ok
    ensures var s1 := Next(RunSetup(s, tasks, owner, random, lucks, true), StartService);
            var s2 := Next(s1, DeployTag(tag, calls));
            s2.tpm == TpmState(owner, Some(NvIndex(s2.service, TAG_INDEX_SIZE, Some(tag)))) && s2.service == s2.saved != ""
  {
    hide RunTasks;
    CompletedTasks(Running(s, s.saved, true), tasks, owner, random, lucks);
  }

  /** Both setup commands that define the index make every 48-byte tag deployable once they complete. */
  lemma SetupCommandsThenDeploy(s: System, cmd: SetupCommand, owner: string, random: string, lucks: seq<Luck>, tag: seq<byte>, calls: nat)
    requires Consistent(s) && random != "" && calls >= 2 && |tag| == TAG_INDEX_SIZE
    ensures var s1 := Next(RunSetup(s, SetupTasks(cmd), owner, random, lucks, true), StartService);
            var s2 := Next(s1, DeployTag(tag, calls));
            RunTasks(Running(s, s.saved, true), SetupTasks(cmd), owner, random, lucks).ok ==>
            s2.tpm == TpmState(owner, Some(NvIndex(s2.service, TAG_INDEX_SIZE, Some(tag)))) && s2.service == s2.saved != ""
  {
    hide RunTasks, RunSetup, Next;
    assert SETUP_ALL[4] == DefineTagIndexTask && PROVISION_ATTESTATION[2] == DefineTagIndexTask;
    if RunTasks(Running(s, s.saved, true), SetupTasks(cmd), owner, random, lucks).ok {
      SetupThenDeploy(s, SetupTasks(cmd), owner, random, lucks, tag, calls);
    }
  }

  // ----- which setups complete -----

  /** Every TPM call and everything else succeeds. */
  ghost predicate Lucky(lucks: seq<Luck>) {
    forall i :: 0 <= i < |lucks| ==> lucks[i].ok && lucks[i].calls >= 6
  }

  predicate CanBeOwned(t: TpmState, owner: string) {
    t.ownerAuth == owner || (t.ownerAuth == "" && owner != "")
  }

  predicate Unwritten(t: TpmState) {
    t.index.Some? && t.index.value.data.None?
  }

  lemma StepOf(r: Running, tasks: seq<Task>, owner: string, random: string, lucks: seq<Luck>, i: nat)
    requires i < |tasks| && i < |lucks|
    ensures RunTasks(r, tasks[i..], owner, random, lucks[i..]) ==
            if !r.ok then r else RunTasks(RunTask(r, tasks[i], owner, random, lucks[i]), tasks[i + 1..], owner, random, lucks[i + 1..])
  {
    assert tasks[i..][1..] == tasks[i + 1..] && lucks[i..][1..] == lucks[i + 1..];
  }

  /** Once the TPM is owned and the index written, only bad luck stops a setup. */
  lemma {:induction false} LuckyRest(r: Running, tasks: seq<Task>, owner: string, random: string, lucks: seq<Luck>)
    requires r.ok && r.sys.tpm.ownerAuth == owner && r.sys.tpm.index.Some? && !Unwritten(r.sys.tpm)
    requires Lucky(lucks) && |lucks| >= |tasks|
    ensures RunTasks(r, tasks, owner, random, lucks).ok
    decreases |tasks|
  {
    if tasks != [] { LuckyRest(RunTask(r, tasks[0], owner, random, lucks[0]), tasks[1..], owner, random, lucks[1..]); }
  }

  /** Tasks that do not touch the TPM. */
  lemma {:induction false} OthersChangeNothing(r: Running, tasks: seq<Task>, owner: string, random: string, lucks: seq<Luck>, k: nat)
    requires r.ok && k <= |tasks| && k <= |lucks|
    requires forall i :: 0 <= i < k ==> tasks[i] == OtherTask && lucks[i].ok
    ensures RunTasks(r, tasks, owner, random, lucks) == RunTasks(r, tasks[k..], owner, random, lucks[k..])
  {
    if k == 0 {
      assert tasks[0..] == tasks && lucks[0..] == lucks;
    } else {
      OthersChangeNothing(r, tasks, owner, random, lucks, k - 1);
      StepOf(r, tasks, owner, random, lucks, k - 1);
    }
  }

  /** Where the setup commands take ownership; the tag index comes next. */
  function OwnershipAt(cmd: SetupCommand): nat {
    match cmd
    case SetupAll => 3
    case ProvisionAttestation => 1
  }

  lemma SetupUpToIndex(r: Running, cmd: SetupCommand, owner: string, random: string, lucks: seq<Luck>)
    requires r.ok && |lucks| >= |SetupTasks(cmd)| && forall i :: 0 <= i < OwnershipAt(cmd) ==> lucks[i].ok
    ensures var k := OwnershipAt(cmd);
            var r1 := RunTask(r, TakeOwnershipTask, owner, random, lucks[k]);
            var r2 := RunTask(r1, DefineTagIndexTask, owner, random, lucks[k + 1]);
            RunTasks(r, SetupTasks(cmd), owner, random, lucks) ==
            if !r1.ok then r1 else RunTasks(r2, SetupTasks(cmd)[k + 2..], owner, random, lucks[k + 2..])
  {
    hide RunTasks, RunTask;
    var k, tasks := OwnershipAt(cmd), SetupTasks(cmd);
    OthersChangeNothing(r, tasks, owner, random, lucks, k);
    StepOf(r, tasks, owner, random, lucks, k);
    StepOf(RunTask(r, TakeOwnershipTask, owner, random, lucks[k]), tasks, owner, random, lucks, k + 1);
  }

  lemma StoppedRun(r: Running, tasks: seq<Task>, owner: string, random: string, lucks: seq<Luck>)
    requires !r.ok
    ensures RunTasks(r, tasks, owner, random, lucks) == r
  {
  }

  /** When nothing goes wrong, a setup command completes exactly when the TPM is clear or already owned by
      the given secret, and its tag index is absent or has been written. */
  lemma {:induction false} SetupCompletesExactly(s: System, cmd: SetupCommand, owner: string, random: string, lucks: seq<Luck>)
    requires Lucky(lucks) && |lucks| >= |SetupTasks(cmd)|
    ensures RunTasks(Running(s, s.saved, true), SetupTasks(cmd), owner, random, lucks).ok <==>
            CanBeOwned(s.tpm, owner) && !Unwritten(s.tpm)
  {
    hide RunTasks;
    var r, k := Running(s, s.saved, true), OwnershipAt(cmd);
    SetupUpToIndex(r, cmd, owner, random, lucks);
    var r1 := RunTask(r, TakeOwnershipTask, owner, random, lucks[k]);
    TakeOwnershipExactly(s.tpm, owner, lucks[k].calls);
    if r1.ok {
      var r2 := RunTask(r1, DefineTagIndexTask, owner, random, lucks[k + 1]);
      DefineSucceedsExactly(r1.sys.tpm, r1.memory, owner, random, lucks[k + 1].calls);
      if r2.ok {
        LuckyRest(r2, SetupTasks(cmd)[k + 2..], owner, random, lucks[k + 2..]);
      } else {
        StoppedRun(r2, SetupTasks(cmd)[k + 2..], owner, random, lucks[k + 2..]);
      }
    }
  }

  // ----- an index defined but never written -----

  /** The index was never written, and nobody knows the secret that would open it. */
  ghost predicate Stuck(s: System) {
    Unwritten(s.tpm) && s.tpm.index.value.auth != "" && s.saved == "" && s.service == ""
  }

  lemma {:induction false} TasksStayStuck(r: Running, tasks: seq<Task>, owner: string, random: string, lucks: seq<Luck>)
    requires Stuck(r.sys) && (r.ok ==> r.memory == "")
    ensures var r' := RunTasks(r, tasks, owner, random, lucks);
            && Stuck(r'.sys) && r'.sys.tpm.index == r.sys.tpm.index
            && (r'.ok ==> r'.memory == "" && (r.ok && DefineTagIndexTask !in tasks))
    decreases |tasks|
  {
    if tasks != [] && r.ok && lucks != [] {
      assert tasks == [tasks[0]] + tasks[1..];
      TasksStayStuck(RunTask(r, tasks[0], owner, random, lucks[0]), tasks[1..], owner, random, lucks[1..]);
    }
  }

  lemma StepStaysStuck(s: System, step: Step)
    requires Stuck(s)
    ensures Stuck(Next(s, step)) && Next(s, step).tpm.index == s.tpm.index
  {
    if step.Setup? {
      hide RunTasks;
      TasksStayStuck(Running(s, s.saved, true), step.tasks, step.owner, step.random, step.lucks);
    }
  }

  /** Over every run of setups, deployments and quotes the index stays unwritten and the secret unknown. */
  lemma {:induction false} StuckForever(s: System, steps: seq<Step>)
    requires Stuck(s)
    ensures Stuck(Run(s, steps)) && Run(s, steps).tpm.index == s.tpm.index
  {
    hide Next, Stuck;
    if steps != [] {
      StuckForever(s, steps[..|steps| - 1]);
      StepStaysStuck(Run(s, steps[..|steps| - 1]), steps[|steps| - 1]);
    }
  }

  /** Steps after which the tag index is no longer unwritten. */
  ghost predicate Recovers(s: System, steps: seq<Step>) {
    !Unwritten(Run(s, steps).tpm)
  }

  /** An unwritten index can be recovered exactly when the saved secret opens it: then starting the service
      and deploying any tag of its size writes it, otherwise no run ever does. */
  lemma {:induction false} RecoverableExactly(s: System)
    requires Consistent(s) && Unwritten(s.tpm)
    ensures (exists steps :: Recovers(s, steps)) <==> s.tpm.index.value.auth == s.saved
  {
    if s.tpm.index.value.auth == s.saved {
      DeploymentRecovers(s, Zeros(s.tpm.index.value.size), 2);
    } else {
      forall steps ensures !Recovers(s, steps) { StuckForever(s, steps); }
    }
  }

  /** With the secret saved, a service start and a deployment write the index, and setups migrate it again. */
  lemma DeploymentRecovers(s: System, tag: seq<byte>, calls: nat)
    requires Unwritten(s.tpm) && s.tpm.index.value.auth == s.saved && |tag| == s.tpm.index.value.size && calls >= 2
    ensures var steps := [StartService, DeployTag(tag, calls)];
            var s' := Run(s, steps);
            && Recovers(s, steps)
            && s' == System(Written(s.tpm, tag), s.saved, s.saved)
            && (forall owner, random, n: nat :: n >= 6 ==>
                 (DefineTagIndex(s'.tpm, s'.saved, owner, random, n).ok <==> s.tpm.ownerAuth == owner))
  {
    var steps := [StartService, DeployTag(tag, calls)];
    var s1 := s.(service := s.saved);
    assert steps[..1] == [StartService] && [StartService][..0] == [];
    assert Run(s, [StartService]) == s1;
    assert Run(s, steps) == Next(s1, DeployTag(tag, calls));
  }

  /** A first setup that loses the TPM between defining and writing the index leaves it stuck: the generated
      secret dies with the process, and every later setup command fails, whatever happens in between. */
  lemma {:induction false} InterruptedFirstSetup(t: TpmState, cmd: SetupCommand, owner: string, random: string, lucks: seq<Luck>, saveOk: bool,
                                                 steps: seq<Step>, cmd': SetupCommand, owner': string, random': string, lucks': seq<Luck>)
    requires CanBeOwned(t, owner) && random != "" && !Unwritten(t)
    requires |lucks| >= |SetupTasks(cmd)| && forall i :: 0 <= i < OwnershipAt(cmd) ==> lucks[i].ok
    requires lucks[OwnershipAt(cmd)].calls >= 3 && lucks[OwnershipAt(cmd) + 1].calls == if t.index.Some? then 5 else 3
    ensures var s := Next(System(t, "", ""), Setup(SetupTasks(cmd), owner, random, lucks, saveOk));
            && s.tpm == TpmState(owner, Some(NvIndex(random, TAG_INDEX_SIZE, None))) && Stuck(s)
            && (var s' := Run(s, steps);
                && s'.tpm.index == s.tpm.index
                && !RunTasks(Running(s', s'.saved, true), SetupTasks(cmd'), owner', random', lucks').ok)
  {
    hide RunTasks, Run;
    var s0 := System(t, "", "");
    var r, k := Running(s0, "", true), OwnershipAt(cmd);
    SetupUpToIndex(r, cmd, owner, random, lucks);
    var r2 := RunTask(RunTask(r, TakeOwnershipTask, owner, random, lucks[k]), DefineTagIndexTask, owner, random, lucks[k + 1]);
    StoppedRun(r2, SetupTasks(cmd)[k + 2..], owner, random, lucks[k + 2..]);
    var s := Next(s0, Setup(SetupTasks(cmd), owner, random, lucks, saveOk));
    assert s == r2.sys;
    StuckForever(s, steps);
    var s' := Run(s, steps);
    assert SETUP_ALL[4] == DefineTagIndexTask && PROVISION_ATTESTATION[2] == DefineTagIndexTask;
    TasksStayStuck(Running(s', s'.saved, true), SetupTasks(cmd'), owner', random', lucks');
  }

  // ----- each operation, literally -----

  /** A deployment with no failing call succeeds exactly when the index exists, opens with the secret and has the tag's
      size; it then holds the tag, and nothing else changes. A deployment that fails changes nothing. */
  lemma DeployExactly(t: TpmState, secret: string, tag: seq<byte>, n: nat)
    ensures var (t', ok) := DeployTo(t, secret, tag, n);
            && (ok <==> n >= 2 && t.index.Some? && t.index.value.auth == secret && t.index.value.size == |tag|)
            && (ok ==> t' == TpmState(t.ownerAuth, Some(NvIndex(secret, |tag|, Some(tag)))))
            && (!ok ==> t' == t)
  {
  }

  /** What define-tag-index leaves, for every first failing call: the secret given, or a new one if that was empty and the
      owner secret was right; the index as it was, released, defined but not written, or written with the old tag if that
      had 48 bytes and with zeros otherwise. */
  lemma DefineOutcome(t: TpmState, secret: string, owner: string, random: string, n: nat)
    ensures var r := DefineTagIndex(t, secret, owner, random, n);
            var started := n >= 1 && t.ownerAuth == owner;
            var failing := if t.index.Some? then n - 2 else n;
            && r.secret == (if started && secret == "" then random else secret)
            && r.tpm.ownerAuth == t.ownerAuth
            && r.tpm.index ==
               (if !started || (t.index.Some? && (n <= 3 || t.index.value.data.None?)) then t.index
                else if failing <= 2 then None
                else if failing == 3 then Some(NvIndex(r.secret, 48, None))
                else Some(NvIndex(r.secret, 48, Some(
                  if t.index.Some? && |t.index.value.data.value| == 48 then t.index.value.data.value else Zeros(48)))))
  {
  }

  /** take-ownership, for every first failing call. */
  lemma TakeOwnershipOutcome(t: TpmState, owner: string, n: nat)
    ensures var (t', ok) := TakeOwnership(t, owner, n);
            && (ok <==> (n >= 1 && t.ownerAuth == owner) || (n >= 3 && t.ownerAuth == "" && owner != ""))
            && t' == (if ok then TpmState(owner, t.index) else t)
  {
  }

  /** The configuration is saved by its own task, before the tasks that follow it, and again when all have succeeded. */
  lemma {:induction false} SavedOnTheWay(s: System, owner: string, random: string, lucks: seq<Luck>, saveOk: bool)
    requires Consistent(s) && random != "" && CanBeOwned(s.tpm, owner) && !Unwritten(s.tpm)
    requires |lucks| >= 8 && Lucky(lucks[..8])
    ensures var s' := RunSetup(s, SETUP_ALL, owner, random, lucks, saveOk);
            && s'.saved == (if s.saved == "" then random else s.saved)
            && s'.tpm.ownerAuth == owner && s'.tpm.index.Some? && s'.tpm.index.value.auth == s'.saved && !Unwritten(s'.tpm)
  {
    hide RunTasks;
    var r := Running(s, s.saved, true);
    assert forall i :: 0 <= i < 8 ==> lucks[..8][i] == lucks[i];
    OthersChangeNothing(r, SETUP_ALL, owner, random, lucks, 3);
    StepOf(r, SETUP_ALL, owner, random, lucks, 3);
    var r1 := RunTask(r, TakeOwnershipTask, owner, random, lucks[3]);
    StepOf(r1, SETUP_ALL, owner, random, lucks, 4);
    var r2 := RunTask(r1, DefineTagIndexTask, owner, random, lucks[4]);
    StepOf(r2, SETUP_ALL, owner, random, lucks, 5);
    StepOf(r2, SETUP_ALL, owner, random, lucks, 6);
    StepOf(r2, SETUP_ALL, owner, random, lucks, 7);
    var r3 := RunTask(r2, SaveConfigTask, owner, random, lucks[7]);
    LastTask(r3, SETUP_ALL[8..], owner, random, lucks[8..]);
  }

  lemma LastTask(r: Running, tasks: seq<Task>, owner: string, random: string, lucks: seq<Luck>)
    requires tasks == [OtherTask]
    ensures RunTasks(r, tasks, owner, random, lucks).sys == r.sys && RunTasks(r, tasks, owner, random, lucks).memory == r.memory
  {
    if r.ok && lucks != [] { assert RunTasks(RunTask(r, OtherTask, owner, random, lucks[0]), [], owner, random, lucks[1..]).sys == r.sys; }
  }

  /** The stand-alone define-tag-index command and quotes change nothing; a service start reads the saved secret, and no
      more. */
  lemma QuietSteps(s: System)
    ensures Next(s, DefineTagIndexCommand) == s && Next(s, Quote) == s
    ensures Next(s, StartService) == System(s.tpm, s.saved, s.saved)
  {
  }
}
