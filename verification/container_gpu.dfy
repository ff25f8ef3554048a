// The GPU reconciler: reads a container's devices, plans names, and issues remove and
// add commands until the container has exactly the selected GPUs.

module ContainerGPU {
  import opened Collections
  import opened Text
  import opened GPUDevices

  // ---------- Names for new devices ----------

  const CONVENTIONAL := "gpu"
  const FALLBACK := "oneclickvirt-gpu-"

  function FallbackName(idx: nat, suffix: nat): string {
    FALLBACK + Itoa(idx) + "-" + Itoa(suffix)
  }

  function FirstName(idx: nat, id: string): string {
    if id == "" then CONVENTIONAL else CONVENTIONAL + Itoa(idx)
  }

  ghost predicate NameFor(idx: nat, id: string, name: string) {
    name == FirstName(idx, id) || exists suffix: nat :: name == FallbackName(idx, suffix)
  }

  lemma FallbackSplit(idx: nat, suffix: nat)
    ensures Split(FallbackName(idx, suffix)[|FALLBACK|..], '-') == [Itoa(idx), Itoa(suffix)]
  {
    ItoaFree(idx, '-');
    ItoaFree(suffix, '-');
    SplitFirst(Itoa(idx), '-', Itoa(suffix));
    SplitFree(Itoa(suffix), '-');
    assert FallbackName(idx, suffix)[|FALLBACK|..] == Itoa(idx) + ['-'] + Itoa(suffix);
  }

  lemma FallbackInjective(i: nat, s: nat, j: nat, t: nat)
    requires FallbackName(i, s) == FallbackName(j, t)
    ensures i == j && s == t
  {
    FallbackSplit(i, s);
    FallbackSplit(j, t);
    assert [Itoa(i), Itoa(s)][0] == [Itoa(j), Itoa(t)][0] && [Itoa(i), Itoa(s)][1] == [Itoa(j), Itoa(t)][1];
    ItoaInjective(i, j);
    ItoaInjective(s, t);
  }

  lemma FallbackIsNotFirst(idx: nat, suffix: nat, j: nat, id: string)
    ensures FallbackName(idx, suffix) != FirstName(j, id)
  {
    assert FallbackName(idx, suffix)[0] == 'o' && FirstName(j, id)[0] == 'g';
  }

  // Different positions never get the same name.
  lemma NamesDiffer(i: nat, a: string, j: nat, b: string, name: string)
    requires a != "" && b != "" && NameFor(i, a, name) && NameFor(j, b, name)
    ensures i == j
  {
    if name == FirstName(i, a) && name == FirstName(j, b) {
      assert Itoa(i) == name[3..] && Itoa(j) == name[3..];
      ItoaInjective(i, j);
    } else if name == FirstName(i, a) {
      var t: nat :| name == FallbackName(j, t);
      FallbackIsNotFirst(j, t, i, a);
    } else {
      var s: nat :| name == FallbackName(i, s);
      if name == FirstName(j, b) {
        FallbackIsNotFirst(i, s, j, b);
      } else {
        var t: nat :| name == FallbackName(j, t);
        FallbackInjective(i, s, j, t);
      }
    }
  }

  predicate Usable(effective: Devices, name: string) {
    name !in effective || IsGPU(effective[name])
  }

  // Never replaces a device that is not a GPU. The search ends because every name it
  // rejects is a different key of the device map.
  method PickName(effective: Devices, idx: nat, id: string) returns (name: string)
    ensures Usable(effective, name) && NameFor(idx, id, name)
  {
    name := FirstName(idx, id);
    var suffix := 0;
    ghost var rejected: set<string> := {};
    while name in effective && !IsGPU(effective[name])
      invariant NameFor(idx, id, name)
      invariant suffix == 0 ==> name == FirstName(idx, id)
      invariant suffix > 0 ==> name == FallbackName(idx, suffix - 1)
      invariant rejected <= effective.Keys && |rejected| == suffix
      invariant forall r :: r in rejected ==> r == FirstName(idx, id) || exists s :: 0 <= s < suffix - 1 && r == FallbackName(idx, s)
      decreases |effective.Keys| - suffix
    {
      NotRejected(idx, id, name, suffix, rejected);
      rejected := rejected + {name};
      SubsetCount(rejected, effective.Keys);
      name := FallbackName(idx, suffix);
      suffix := suffix + 1;
    }
  }

  lemma NotRejected(idx: nat, id: string, name: string, suffix: nat, rejected: set<string>)
    requires if suffix == 0 then rejected == {} else name == FallbackName(idx, suffix - 1)
    requires forall r :: r in rejected ==> r == FirstName(idx, id) || exists s :: 0 <= s < suffix - 1 && r == FallbackName(idx, s)
    ensures name !in rejected
  {
    if name in rejected {
      if name == FirstName(idx, id) {
        FallbackIsNotFirst(idx, suffix - 1, idx, id);
      } else {
        var s :| 0 <= s < suffix - 1 && name == FallbackName(idx, s);
        FallbackInjective(idx, suffix - 1, idx, s);
      }
      assert false;
    }
  }

  // The devices to create: one usable name for every id, all different.
  ghost predicate Planned(effective: Devices, ids: seq<string>, desired: map<string, string>, names: seq<string>) {
    && |names| == |ids| && NoDuplicates(names) && Elements(names) == desired.Keys
    && forall i :: 0 <= i < |names| ==> names[i] in desired && desired[names[i]] == ids[i] && Usable(effective, names[i])
  }

  lemma PlannedStep(effective: Devices, ids: seq<string>, desired: map<string, string>, names: seq<string>, id: string, name: string)
    requires Planned(effective, ids, desired, names) && Usable(effective, name) && name !in names
    ensures Planned(effective, ids + [id], desired[name := id], names + [name])
  {
    forall i | 0 <= i < |names| ensures names[i] != name {}
    assert Elements(names + [name]) == Elements(names) + {name};
  }

  lemma NewName(deviceIDs: seq<string>, idx: nat, names: seq<string>, name: string)
    requires idx < |deviceIDs| && |names| == idx && (|deviceIDs| == 1 || "" !in deviceIDs)
    requires NameFor(idx, deviceIDs[idx], name)
    requires forall i :: 0 <= i < idx ==> NameFor(i, deviceIDs[i], names[i])
    ensures name !in names
  {
    forall i | 0 <= i < idx ensures names[i] != name {
      assert deviceIDs[i] != "" && deviceIDs[idx] != "";
      if names[i] == name {
        NamesDiffer(i, deviceIDs[i], idx, deviceIDs[idx], name);
      }
    }
  }

  // One more id has a name: none of the names so far.
  lemma PlannedNext(effective: Devices, deviceIDs: seq<string>, idx: nat, desired: map<string, string>, names: seq<string>, name: string)
    requires idx < |deviceIDs| && (|deviceIDs| == 1 || "" !in deviceIDs)
    requires Planned(effective, deviceIDs[..idx], desired, names) && Usable(effective, name)
    requires NameFor(idx, deviceIDs[idx], name) && forall i :: 0 <= i < idx ==> NameFor(i, deviceIDs[i], names[i])
    ensures Planned(effective, deviceIDs[..idx + 1], desired[name := deviceIDs[idx]], names + [name])
  {
    NewName(deviceIDs, idx, names, name);
    PlannedStep(effective, deviceIDs[..idx], desired, names, deviceIDs[idx], name);
    assert deviceIDs[..idx + 1] == deviceIDs[..idx] + [deviceIDs[idx]];
  }

  method PlanNames(effective: Devices, deviceIDs: seq<string>) returns (desired: map<string, string>, desiredNames: seq<string>)
    requires |deviceIDs| == 1 || "" !in deviceIDs
    ensures Planned(effective, deviceIDs, desired, desiredNames)
  {
    desired, desiredNames := map[], [];
    for idx := 0 to |deviceIDs|
      invariant Planned(effective, deviceIDs[..idx], desired, desiredNames)
      invariant forall i :: 0 <= i < idx ==> NameFor(i, deviceIDs[i], desiredNames[i])
    {
      var name := PickName(effective, idx, deviceIDs[idx]);
      PlannedNext(effective, deviceIDs, idx, desired, desiredNames, name);
      desired := desired[name := deviceIDs[idx]];
      desiredNames := desiredNames + [name];
    }
    assert deviceIDs[..|deviceIDs|] == deviceIDs;
  }

  // ---------- The container and its runtime ----------

  datatype Command = Remove(name: string) | AddNone(name: string) | AddGPU(name: string, id: string)

  // The runtime refuses to remove a device the container does not have itself, and to
  // add one it already has.
  predicate Legal(local: Devices, cmd: Command) {
    cmd.Remove? <==> cmd.name in local
  }

  function Apply(local: Devices, cmd: Command): Devices {
    match cmd
    case Remove(name) => local - {name}
    case AddNone(name) => local[name := NONE_DEVICE]
    case AddGPU(name, id) => local[name := GPUDevice(id)]
  }

  class Container {
    const profile: Devices          // inherited, never changed
    var local: Devices              // the container's own devices
    ghost var trace: seq<Devices>   // the own devices after every command issued
    ghost var refused: bool         // a command was not legal
    ghost var faulted: bool         // a command or query failed for another reason

    ghost function Seen(): Devices
      reads this
    {
      Effective(profile, local)
    }

    method Query() returns (ok: bool, devices: Devices, expanded: Devices)
      modifies this`faulted
      ensures ok ==> faulted == old(faulted)
      ensures !ok ==> faulted
      ensures ok ==> devices == local && expanded == Effective(profile, local)
    {
      ok := *;
      if !ok { faulted := true; }
      devices, expanded := local, Effective(profile, local);
    }

    // A legal command takes effect and is acknowledged, or fails with or without effect.
    method Execute(cmd: Command) returns (ok: bool)
      modifies this
      ensures Legal(old(local), cmd) ==> refused == old(refused)
      ensures old(faulted) ==> faulted
      ensures ok ==> Legal(old(local), cmd) && local == Apply(old(local), cmd) && faulted == old(faulted)
      ensures !ok ==> faulted || !Legal(old(local), cmd)
      ensures local == old(local) || local == Apply(old(local), cmd)
      ensures trace == old(trace) + [local]
    {
      if !Legal(local, cmd) {
        refused := true;
        trace := trace + [local];
        return false;
      }
      ok := *;
      var applied := *;
      if !ok { faulted := true; }
      if ok || applied {
        local := Apply(local, cmd);
      }
      trace := trace + [local];
    }
  }

  // Devices that are not GPUs and are in effect before are in effect, unchanged, after.
  ghost predicate Kept(before: Devices, after: Devices) {
    forall n :: n in before && Field(before[n], "type") != "gpu" ==> n in after && after[n] == before[n]
  }

  ghost predicate KeptSince(c: Container, before: Devices, mark: nat)
    reads c
  {
    && mark <= |c.trace|
    && (forall i :: mark <= i < |c.trace| ==> Kept(before, Effective(c.profile, c.trace[i])))
    && Kept(before, c.Seen())
  }

  ghost predicate WellTyped(devices: Devices) {
    forall n :: n in devices ==> Field(devices[n], "type") != ""
  }

  // A command on a name that is free or held by a GPU keeps every other device.
  lemma ApplyKeeps(profile: Devices, local: Devices, cmd: Command, before: Devices)
    requires Usable(before, cmd.name) && Kept(before, Effective(profile, local))
    ensures Kept(before, Effective(profile, Apply(local, cmd)))
  {}

  method Mutate(c: Container, cmd: Command, ghost before: Devices, ghost mark: nat) returns (ok: bool)
    requires Legal(c.local, cmd) && Usable(before, cmd.name) && KeptSince(c, before, mark)
    modifies c
    ensures KeptSince(c, before, mark) && c.refused == old(c.refused) && (old(c.faulted) ==> c.faulted)
    ensures ok ==> c.local == Apply(old(c.local), cmd) && c.faulted == old(c.faulted)
    ensures !ok ==> c.faulted
  {
    ApplyKeeps(c.profile, c.local, cmd, before);
    ok := c.Execute(cmd);
  }

  // ---------- Removing and masking ----------

  // The own devices once the GPUs done so far are removed, or masked unless their name is wanted.
  ghost function Masked(local: Devices, done: set<string>, desired: set<string>): Devices {
    map n | n in local.Keys + done && !(n in done && n in desired) :: if n in done then NONE_DEVICE else local[n]
  }

  // One more GPU: removed if the container has it, then masked unless its name is wanted.
  lemma MaskedStep(local: Devices, done: set<string>, desired: set<string>, name: string)
    requires name !in done
    ensures var m := Masked(local, done, desired);
      && (name in m <==> name in local)
      && (name !in local ==> m - {name} == m)
      && Masked(local, done + {name}, desired) == if name in desired then m - {name} else (m - {name})[name := NONE_DEVICE]
  {}

  lemma MaskedNone(local: Devices, desired: set<string>)
    ensures Masked(local, {}, desired) == local
  {}

  method MaskGPUs(c: Container, devices: Devices, gpuNames: seq<string>, desired: map<string, string>,
                  ghost before: Devices, ghost mark: nat) returns (ok: bool)
    requires devices == c.local && Lists(gpuNames, before) && KeptSince(c, before, mark)
    modifies c
    ensures KeptSince(c, before, mark) && c.refused == old(c.refused) && (old(c.faulted) ==> c.faulted)
    ensures ok ==> c.local == Masked(old(c.local), GPUNames(before), desired.Keys) && c.faulted == old(c.faulted)
    ensures !ok ==> c.faulted
  {
    Listed(gpuNames, before);
    MaskedNone(devices, desired.Keys);
    ghost var done: set<string> := {};
    for i := 0 to |gpuNames|
      invariant KeptSince(c, before, mark) && c.refused == old(c.refused) && c.faulted == old(c.faulted)
      invariant forall n :: n in done <==> n in gpuNames[..i]
      invariant c.local == Masked(devices, done, desired.Keys)
    {
      MaskedStep(devices, done, desired.Keys, gpuNames[i]);
      ok := MaskOne(c, gpuNames[i], gpuNames[i] in devices, gpuNames[i] !in desired, before, mark);
      if !ok {
        return;
      }
      assert gpuNames[..i + 1] == gpuNames[..i] + [gpuNames[i]];
      done := done + {gpuNames[i]};
    }
    assert gpuNames[..|gpuNames|] == gpuNames;
    assert done == GPUNames(before);
    ok := true;
  }

  method MaskOne(c: Container, name: string, isLocal: bool, mask: bool, ghost before: Devices, ghost mark: nat) returns (ok: bool)
    requires (isLocal <==> name in c.local) && Usable(before, name) && KeptSince(c, before, mark)
    modifies c
    ensures KeptSince(c, before, mark) && c.refused == old(c.refused) && (old(c.faulted) ==> c.faulted)
    ensures ok ==> c.faulted == old(c.faulted)
    ensures ok ==> c.local == if mask then (old(c.local) - {name})[name := NONE_DEVICE] else old(c.local) - {name}
    ensures !ok ==> c.faulted
  {
    assert !isLocal ==> c.local - {name} == c.local;
    ok := true;
    if isLocal {
      ok := Mutate(c, Remove(name), before, mark);
      if !ok {
        return;
      }
    }
    if mask {
      ok := Mutate(c, AddNone(name), before, mark);
    }
  }

  // ---------- Adding ----------

  ghost function WithGPUs(local: Devices, names: set<string>, desired: map<string, string>): Devices
    requires names <= desired.Keys
  {
    map n | n in local.Keys + names :: if n in names then GPUDevice(desired[n]) else local[n]
  }

  lemma WithStep(local: Devices, names: set<string>, desired: map<string, string>, name: string)
    requires names <= desired.Keys && name in desired
    ensures WithGPUs(local, names + {name}, desired) == WithGPUs(local, names, desired)[name := GPUDevice(desired[name])]
    ensures name !in names && name !in local ==> name !in WithGPUs(local, names, desired)
  {}

  lemma WithNone(local: Devices, desired: map<string, string>)
    ensures WithGPUs(local, {}, desired) == local
  {}

  method AddGPUs(c: Container, ids: seq<string>, desired: map<string, string>, desiredNames: seq<string>,
                 ghost before: Devices, ghost mark: nat) returns (ok: bool)
    requires Planned(before, ids, desired, desiredNames) && KeptSince(c, before, mark)
    requires forall n :: n in desired ==> n !in c.local
    modifies c
    ensures KeptSince(c, before, mark) && c.refused == old(c.refused) && (old(c.faulted) ==> c.faulted)
    ensures ok ==> c.local == WithGPUs(old(c.local), desired.Keys, desired) && c.faulted == old(c.faulted)
    ensures !ok ==> c.faulted
  {
    ghost var local := c.local;
    WithNone(local, desired);
    ghost var done: set<string> := {};
    for i := 0 to |desiredNames|
      invariant KeptSince(c, before, mark) && c.refused == old(c.refused) && c.faulted == old(c.faulted)
      invariant done <= desired.Keys && forall n :: n in done <==> n in desiredNames[..i]
      invariant c.local == WithGPUs(local, done, desired)
    {
      var name := desiredNames[i];
      assert desiredNames[..i + 1] == desiredNames[..i] + [name];
      WithStep(local, done, desired, name);
      ok := Mutate(c, AddGPU(name, desired[name]), before, mark);
      if !ok {
        return;
      }
      done := done + {name};
    }
    assert desiredNames[..|desiredNames|] == desiredNames;
    assert done == Elements(desiredNames);
    ok := true;
  }

  // ---------- The whole reconciliation ----------

  // The devices in effect after masking and adding.
  ghost function After(profile: Devices, local: Devices, desired: map<string, string>): Devices {
    Effective(profile, WithGPUs(Masked(local, GPUNames(Effective(profile, local)), desired.Keys), desired.Keys, desired))
  }

  lemma MaskedAt(local: Devices, done: set<string>, desired: set<string>, n: string)
    ensures var m := Masked(local, done, desired);
      && (n in m <==> (n in local || n in done) && !(n in done && n in desired))
      && (n in m ==> m[n] == if n in done then NONE_DEVICE else local[n])
  {}

  lemma WithAt(local: Devices, names: set<string>, desired: map<string, string>, n: string)
    requires names <= desired.Keys
    ensures var w := WithGPUs(local, names, desired);
      && (n in w <==> n in local || n in names)
      && (n in w ==> w[n] == if n in names then GPUDevice(desired[n]) else local[n])
  {}

  // A wanted name has its GPU, any other former GPU is masked, and the rest is as before.
  lemma AfterIs(profile: Devices, local: Devices, desired: map<string, string>, n: string)
    requires forall m :: m in desired ==> Usable(Effective(profile, local), m)
    ensures var before, after := Effective(profile, local), After(profile, local, desired);
      && (n in after <==> n in before || n in desired)
      && (n in desired ==> after[n] == GPUDevice(desired[n]))
      && (n in after && n !in desired ==> after[n] == if n in GPUNames(before) then NONE_DEVICE else before[n])
  {
    var gpus := GPUNames(Effective(profile, local));
    assert n in gpus ==> n in Effective(profile, local);
    MaskedAt(local, gpus, desired.Keys, n);
    WithAt(Masked(local, gpus, desired.Keys), desired.Keys, desired, n);
  }

  lemma NewDeviceTypes(id: string)
    ensures IsGPU(GPUDevice(id)) && Field(GPUDevice(id), "type") != ""
    ensures !IsGPU(NONE_DEVICE) && Field(NONE_DEVICE, "type") != ""
  {}

  lemma GPUsAfter(profile: Devices, local: Devices, desired: map<string, string>)
    requires forall m :: m in desired ==> Usable(Effective(profile, local), m)
    ensures GPUNames(After(profile, local, desired)) == desired.Keys
    ensures WellTyped(Effective(profile, local)) ==> WellTyped(After(profile, local, desired))
  {
    var before, after := Effective(profile, local), After(profile, local, desired);
    forall n ensures n in GPUNames(after) <==> n in desired
             ensures n in after && WellTyped(before) ==> Field(after[n], "type") != ""
    {
      AfterIs(profile, local, desired, n);
      NewDeviceTypes(if n in desired then desired[n] else "");
    }
  }

  // What remains after masking and adding: the planned GPUs and no other.
  lemma ResultIsSelection(profile: Devices, local: Devices, ids: seq<string>, enabled: bool,
                          desired: map<string, string>, names: seq<string>)
    requires NoDuplicates(ids) && "" !in ids
    requires Planned(Effective(profile, local), if !enabled then [] else if ids == [] then [""] else ids, desired, names)
    ensures Exposes(After(profile, local, desired), enabled, ids)
    ensures WellTyped(Effective(profile, local)) ==> WellTyped(After(profile, local, desired))
  {
    var after := After(profile, local, desired);
    PlannedUsable(Effective(profile, local), if !enabled then [] else if ids == [] then [""] else ids, desired, names);
    GPUsAfter(profile, local, desired);
    forall i | 0 <= i < |names| ensures names[i] in after && after[names[i]] == GPUDevice(desired[names[i]]) {
      AfterIs(profile, local, desired, names[i]);
    }
    if enabled {
      if ids == [] {
        SingleIsExact(after, desired, names);
      } else {
        PlannedIsExact(after, ids, desired, names);
      }
    }
  }

  lemma PlannedUsable(effective: Devices, ids: seq<string>, desired: map<string, string>, names: seq<string>)
    requires Planned(effective, ids, desired, names)
    ensures forall n :: n in desired ==> Usable(effective, n)
  {
    forall n | n in desired ensures Usable(effective, n) {
      assert n in Elements(names);
      var i :| 0 <= i < |names| && names[i] == n;
    }
  }

  lemma SingleIsExact(after: Devices, desired: map<string, string>, names: seq<string>)
    requires |names| == 1 && Elements(names) == desired.Keys == GPUNames(after)
    requires names[0] in after && after[names[0]] == GPUDevice("")
    ensures Exposes(after, true, [])
  {
    assert names == [names[0]];
    assert GPUNames(after) == {names[0]};
    assert Field(GPUDevice(""), "id") == "" && Physical(GPUDevice(""));
  }

  lemma PlannedIsExact(after: Devices, ids: seq<string>, desired: map<string, string>, names: seq<string>)
    requires NoDuplicates(ids) && "" !in ids && ids != [] && |names| == |ids| && NoDuplicates(names)
    requires GPUNames(after) == Elements(names)
    requires forall i :: 0 <= i < |names| ==> names[i] in after && after[names[i]] == GPUDevice(ids[i])
    ensures Exposes(after, true, ids)
  {
    forall i | 0 <= i < |ids| ensures Field(GPUDevice(ids[i]), "id") == ids[i] && Physical(GPUDevice(ids[i])) {
      assert ids[i] in ids;
    }
    assert Ids(after, names) == ids;
    ListedIsExposed(after, names, ids);
  }

  lemma MaskedKeepsWanted(local: Devices, before: Devices, desired: map<string, string>)
    requires (forall n :: n in desired ==> Usable(before, n)) && forall n :: n in local ==> n in before
    ensures forall n :: n in desired ==> n !in Masked(local, GPUNames(before), desired.Keys)
  {}

  // Every device map in the answer must be typed, or the whole answer is rejected.
  method ReadDevices(c: Container) returns (ok: bool, devices: Devices, effective: Devices, gpuNames: seq<string>)
    modifies c`faulted
    ensures old(c.faulted) ==> c.faulted
    ensures ok ==> c.faulted == old(c.faulted) && devices == c.local && effective == c.Seen() && Lists(gpuNames, effective)
    ensures ok ==> WellTyped(c.Seen())
    ensures !ok ==> c.faulted || !WellTyped(c.Seen())
  {
    var expanded;
    gpuNames, effective := [], map[];
    ok, devices, expanded := c.Query();
    if !ok {
      return;
    }
    if !(forall n :: n in expanded ==> Field(expanded[n], "type") != "")
       || !(forall n :: n in devices ==> Field(devices[n], "type") != "") {
      assert forall n :: n in devices ==> expanded[n] == devices[n];
      return false, devices, effective, gpuNames;
    }
    effective := expanded + devices;
    assert effective == c.Seen();
    var remaining := effective.Keys;
    while remaining != {}
      invariant remaining <= effective.Keys
      invariant NoDuplicates(gpuNames)
      invariant forall n :: n in gpuNames <==> n in effective && n !in remaining && IsGPU(effective[n])
    {
      var name :| name in remaining;
      if IsGPU(effective[name]) {
        gpuNames := gpuNames + [name];
      }
      remaining := remaining - {name};
    }
    assert Elements(gpuNames) == GPUNames(effective);
  }

  // All there is of GPUs is whole ones, and none if they are not enabled.
  ghost predicate OnlyWholeGPUs(devices: Devices, enabled: bool) {
    forall n :: n in devices && "type" in devices[n] && devices[n]["type"] == "gpu" ==> enabled && WholeGPU(devices[n])
  }

  lemma ExposedAreWhole(devices: Devices, enabled: bool, ids: seq<string>)
    requires Exposes(devices, enabled, ids)
    ensures OnlyWholeGPUs(devices, enabled)
  {
    forall n | n in devices && "type" in devices[n] && devices[n]["type"] == "gpu" ensures enabled && WholeGPU(devices[n]) {
      assert n in GPUNames(devices);
      PhysicalIs(devices[n]);
    }
  }

  method ConfigureContainerGPU(c: Container, validTarget: bool, enabled: bool, rawIDs: string) returns (ok: bool)
    modifies c
    // Every command issued was legal:
    ensures c.refused == old(c.refused)
    // Devices that are not GPUs stay in effect after every single command, whatever fails:
    ensures KeptSince(c, old(c.Seen()), |old(c.trace)|)
    // Success means exactly the selection:
    ensures ok ==> validTarget && SelectionOf(rawIDs).Some? && Exposes(c.Seen(), enabled, SelectionOf(rawIDs).value)
    // Every GPU is then a whole physical one, picked by nothing but an id:
    ensures ok ==> OnlyWholeGPUs(c.Seen(), enabled)
    // Nothing but a bad request, untyped devices or a fault makes it fail:
    ensures !ok ==> !validTarget || SelectionOf(rawIDs).None? || c.faulted || !WellTyped(old(c.Seen()))
    // A container that already has the selection is left alone:
    ensures SelectionOf(rawIDs).Some? && old(Exposes(c.Seen(), enabled, SelectionOf(rawIDs).value)) ==>
      c.trace == old(c.trace) && c.local == old(c.local)
  {
    if !validTarget {
      return false;
    }
    var selection := ContainerGPUSelection(rawIDs);
    if selection.None? {
      return false;
    }
    assert "" !in selection.value;
    ok := Select(c, enabled, selection.value);
    if ok { ExposedAreWhole(c.Seen(), enabled, selection.value); }
  }

  method Select(c: Container, enabled: bool, ids: seq<string>) returns (ok: bool)
    requires NoDuplicates(ids) && "" !in ids
    modifies c
    ensures c.refused == old(c.refused) && KeptSince(c, old(c.Seen()), |old(c.trace)|)
    ensures ok ==> Exposes(c.Seen(), enabled, ids)
    ensures !ok ==> c.faulted || !WellTyped(old(c.Seen()))
    ensures old(Exposes(c.Seen(), enabled, ids)) ==> c.trace == old(c.trace) && c.local == old(c.local)
  {
    ghost var mark := |c.trace|;
    var devices, effective, gpuNames;
    ok, devices, effective, gpuNames := ReadDevices(c);
    if !ok {
      return;
    }
    var matches := ContainerGPUMatches(effective, gpuNames, enabled, ids);
    if matches {
      return true;
    }
    ok := Reconcile(c, devices, effective, gpuNames, enabled, ids, mark);
    if !ok {
      return;
    }
    ok := HasSelection(c, enabled, ids);
  }

  // Looks again.
  method HasSelection(c: Container, enabled: bool, ids: seq<string>) returns (ok: bool)
    requires NoDuplicates(ids) && "" !in ids
    modifies c`faulted
    ensures old(c.faulted) ==> c.faulted
    ensures ok ==> Exposes(c.Seen(), enabled, ids)
    ensures !ok ==> c.faulted || !WellTyped(c.Seen()) || !Exposes(c.Seen(), enabled, ids)
  {
    var devices, effective, gpuNames;
    ok, devices, effective, gpuNames := ReadDevices(c);
    if ok {
      ok := ContainerGPUMatches(effective, gpuNames, enabled, ids);
    }
  }

  method Reconcile(c: Container, devices: Devices, effective: Devices, gpuNames: seq<string>, enabled: bool, ids: seq<string>,
                   ghost mark: nat) returns (ok: bool)
    requires devices == c.local && effective == c.Seen() && Lists(gpuNames, effective)
    requires NoDuplicates(ids) && "" !in ids && KeptSince(c, effective, mark)
    modifies c
    ensures c.refused == old(c.refused) && KeptSince(c, effective, mark) && (old(c.faulted) ==> c.faulted)
    ensures ok ==> Exposes(c.Seen(), enabled, ids) && c.faulted == old(c.faulted)
    ensures ok && WellTyped(effective) ==> WellTyped(c.Seen())
    ensures !ok ==> c.faulted
  {
    var deviceIDs: seq<string> := if !enabled then [] else if |ids| == 0 then [""] else ids;
    var desired, desiredNames := PlanNames(effective, deviceIDs);
    PlannedUsable(effective, deviceIDs, desired, desiredNames);
    ok := MaskGPUs(c, devices, gpuNames, desired, effective, mark);
    if !ok {
      return;
    }
    MaskedKeepsWanted(devices, effective, desired);
    ok := AddGPUs(c, deviceIDs, desired, desiredNames, effective, mark);
    if ok {
      ResultIsSelection(c.profile, devices, ids, enabled, desired, desiredNames);
      assert c.Seen() == After(c.profile, devices, desired);
    }
  }
}
