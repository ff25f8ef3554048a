// Container devices as the runtime merges them, and what a GPU selection asks of them.

module GPUDevices {
  import opened Collections
  import opened Text

  type Device = map<string, string>
  type Devices = map<string, Device>

  // A missing key reads as the empty string.
  function Field(d: Device, key: string): string {
    if key in d then d[key] else ""
  }

  predicate IsGPU(d: Device) {
    Field(d, "type") == "gpu"
  }

  // What a container gets: its profile's devices, overlaid by its own.
  function Effective(profile: Devices, local: Devices): Devices {
    profile + local
  }

  ghost function GPUNames(devices: Devices): set<string> {
    set n | n in devices && IsGPU(devices[n])
  }

  const NONE_DEVICE: Device := map["type" := "none"]

  function GPUDevice(id: string): Device {
    if id == "" then map["type" := "gpu"] else map["type" := "gpu", "id" := id]
  }

  const SPECIAL_KEYS: seq<string> := ["pci", "vendorid", "productid", "mdev", "mig.uuid", "mig.gi", "mig.ci"]

  // Whether a device hands over whole physical GPUs picked by nothing but an id.
  predicate Physical(d: Device) {
    (forall i :: 0 <= i < |SPECIAL_KEYS| ==> Field(d, SPECIAL_KEYS[i]) == "")
    && (Field(d, "gputype") == "" || Field(d, "gputype") == "physical")
  }

  // The same, key by key.
  ghost predicate WholeGPU(d: Device) {
    && ("pci" !in d || d["pci"] == "") && ("vendorid" !in d || d["vendorid"] == "")
    && ("productid" !in d || d["productid"] == "") && ("mdev" !in d || d["mdev"] == "")
    && ("mig.uuid" !in d || d["mig.uuid"] == "") && ("mig.gi" !in d || d["mig.gi"] == "")
    && ("mig.ci" !in d || d["mig.ci"] == "")
    && ("gputype" !in d || d["gputype"] == "" || d["gputype"] == "physical")
  }

  lemma PhysicalIs(d: Device)
    ensures Physical(d) <==> WholeGPU(d)
  {
    assert |SPECIAL_KEYS| == 7;
    assert SPECIAL_KEYS[0] == "pci" && SPECIAL_KEYS[1] == "vendorid" && SPECIAL_KEYS[2] == "productid";
    assert SPECIAL_KEYS[3] == "mdev" && SPECIAL_KEYS[4] == "mig.uuid" && SPECIAL_KEYS[5] == "mig.gi";
    assert SPECIAL_KEYS[6] == "mig.ci";
  }

  function Selector(d: Device): (string, bool) {
    if Physical(d) then (Field(d, "id"), true) else ("", false)
  }

  // ---------- What "exactly the selection" means ----------

  ghost predicate Exposes(devices: Devices, enabled: bool, ids: seq<string>) {
    var gpus := GPUNames(devices);
    if !enabled then gpus == {}
    else if ids == [] then
      exists n :: gpus == {n} && Physical(devices[n]) && Field(devices[n], "id") == ""
    else
      && (forall n :: n in gpus ==> Physical(devices[n]) && Field(devices[n], "id") in ids)
      && (forall m, n :: m in gpus && n in gpus && Field(devices[m], "id") == Field(devices[n], "id") ==> m == n)
      && forall id :: id in ids ==> exists n :: n in gpus && Field(devices[n], "id") == id
  }

  method SelectorOf(device: Device) returns (id: string, physical: bool)
    ensures (id, physical) == Selector(device)
    ensures physical <==>
      && ("pci" !in device || device["pci"] == "") && ("vendorid" !in device || device["vendorid"] == "")
      && ("productid" !in device || device["productid"] == "") && ("mdev" !in device || device["mdev"] == "")
      && ("mig.uuid" !in device || device["mig.uuid"] == "") && ("mig.gi" !in device || device["mig.gi"] == "")
      && ("mig.ci" !in device || device["mig.ci"] == "")
      && ("gputype" !in device || device["gputype"] == "" || device["gputype"] == "physical")
    ensures id == if physical && "id" in device then device["id"] else ""
  {
    PhysicalIs(device);
    for i := 0 to |SPECIAL_KEYS|
      invariant forall j :: 0 <= j < i ==> Field(device, SPECIAL_KEYS[j]) == ""
    {
      if Field(device, SPECIAL_KEYS[i]) != "" {
        return "", false;
      }
    }
    var kind := Field(device, "gputype");
    if kind != "" && kind != "physical" {
      return "", false;
    }
    return Field(device, "id"), true;
  }

  ghost predicate Lists(names: seq<string>, devices: Devices) {
    NoDuplicates(names) && Elements(names) == GPUNames(devices)
  }

  lemma Listed(names: seq<string>, devices: Devices)
    requires Lists(names, devices)
    ensures forall i :: 0 <= i < |names| ==> names[i] in GPUNames(devices) && names[i] in devices
    ensures forall n :: n in GPUNames(devices) ==> n in names
  {
    forall i | 0 <= i < |names| ensures names[i] in GPUNames(devices) {
      assert names[i] in Elements(names);
    }
    forall n | n in GPUNames(devices) ensures n in names {
      assert n in Elements(names);
    }
  }

  // The ids of the listed devices, in the same order.
  ghost function Ids(devices: Devices, names: seq<string>): seq<string> {
    seq(|names|, i requires 0 <= i < |names| => if names[i] in devices then Field(devices[names[i]], "id") else "")
  }

  // An exact selection, said of a list of the GPUs: all physical, ids all different,
  // and the ids that were asked for.
  ghost predicate ListedExactly(devices: Devices, names: seq<string>, ids: seq<string>) {
    && (forall i :: 0 <= i < |names| ==> names[i] in devices && Physical(devices[names[i]]))
    && NoDuplicates(Ids(devices, names)) && Elements(Ids(devices, names)) == Elements(ids)
  }

  lemma ExposesIsListed(devices: Devices, names: seq<string>, ids: seq<string>)
    requires Lists(names, devices) && ids != [] && Exposes(devices, true, ids)
    ensures ListedExactly(devices, names, ids)
  {
    Listed(names, devices);
    var listed := Ids(devices, names);
    forall id | id in ids ensures id in listed {
      var n :| n in GPUNames(devices) && Field(devices[n], "id") == id;
      var i :| 0 <= i < |names| && names[i] == n;
      assert listed[i] == id;
    }
    forall i | 0 <= i < |listed| ensures listed[i] in ids {
      assert listed[i] == Field(devices[names[i]], "id");
    }
  }

  lemma ListedIsExposed(devices: Devices, names: seq<string>, ids: seq<string>)
    requires Lists(names, devices) && ids != [] && ListedExactly(devices, names, ids)
    ensures Exposes(devices, true, ids)
  {
    Listed(names, devices);
    var listed := Ids(devices, names);
    forall n | n in GPUNames(devices) ensures Physical(devices[n]) && Field(devices[n], "id") in ids {
      var i :| 0 <= i < |names| && names[i] == n;
      assert listed[i] in Elements(ids);
    }
    forall m, n | m in GPUNames(devices) && n in GPUNames(devices) && Field(devices[m], "id") == Field(devices[n], "id")
      ensures m == n
    {
      var i :| 0 <= i < |names| && names[i] == m;
      var j :| 0 <= j < |names| && names[j] == n;
      assert listed[i] == listed[j];
    }
    forall id | id in ids ensures exists n :: n in GPUNames(devices) && Field(devices[n], "id") == id {
      assert id in Elements(listed);
      var i :| 0 <= i < |listed| && listed[i] == id;
      assert Field(devices[names[i]], "id") == id;
    }
  }

  lemma ExposesIff(devices: Devices, names: seq<string>, ids: seq<string>)
    requires Lists(names, devices) && ids != []
    ensures Exposes(devices, true, ids) <==> ListedExactly(devices, names, ids)
  {
    if Exposes(devices, true, ids) { ExposesIsListed(devices, names, ids); }
    if ListedExactly(devices, names, ids) { ListedIsExposed(devices, names, ids); }
  }

  // Equally many different ids on both sides, one side inside the other.
  lemma SameElements(a: seq<string>, b: seq<string>)
    requires NoDuplicates(a) && NoDuplicates(b)
    ensures Elements(a) == Elements(b) <==> |a| == |b| && Elements(b) <= Elements(a)
  {
    ElementsCount(a);
    ElementsCount(b);
    if |a| == |b| && Elements(b) <= Elements(a) {
      SubsetSameSize(Elements(b), Elements(a));
    }
  }

  // The check the reconciler makes before and after: it accepts a device map exactly
  // when its GPUs are the selection.
  method ContainerGPUMatches(devices: Devices, names: seq<string>, enabled: bool, ids: seq<string>) returns (ok: bool)
    requires Lists(names, devices) && NoDuplicates(ids) && "" !in ids
    ensures ok <==> Exposes(devices, enabled, ids)
  {
    Listed(names, devices);
    if !enabled {
      assert names == [] ==> GPUNames(devices) == {};
      assert names != [] ==> names[0] in GPUNames(devices);
      return |names| == 0;
    }
    if |ids| == 0 {
      ok := OnlyPhysicalGPU(devices, names);
      return;
    }
    if |names| != |ids| {
      ExposesIff(devices, names, ids);
      if Exposes(devices, true, ids) { SameElements(Ids(devices, names), ids); }
      return false;
    }
    ok := MatchesIds(devices, names, ids);
  }

  method OnlyPhysicalGPU(devices: Devices, names: seq<string>) returns (ok: bool)
    requires Lists(names, devices)
    ensures ok <==> Exposes(devices, true, [])
  {
    ElementsCount(names);
    if |names| != 1 {
      return false;
    }
    assert names == [names[0]];
    assert names[0] in Elements(names);
    assert GPUNames(devices) == {names[0]};
    var selector, physical := SelectorOf(devices[names[0]]);
    ok := physical && selector == "";
  }

  lemma OneMoreId(listed: seq<string>, i: nat)
    requires i < |listed| && NoDuplicates(listed[..i])
    ensures Elements(listed[..i + 1]) == Elements(listed[..i]) + {listed[i]}
    ensures listed[i] in Elements(listed[..i]) ==> !NoDuplicates(listed)
    ensures listed[i] !in Elements(listed[..i]) ==> NoDuplicates(listed[..i + 1])
  {
    assert listed[..i + 1] == listed[..i] + [listed[i]];
    if listed[i] in Elements(listed[..i]) {
      var j :| 0 <= j < i && listed[..i][j] == listed[i];
      assert listed[j] == listed[i];
    }
  }

  // The ids of the listed devices, unless one is special, has no id or repeats one.
  method CollectIds(devices: Devices, names: seq<string>) returns (ok: bool, existing: set<string>)
    requires forall i :: 0 <= i < |names| ==> names[i] in devices
    ensures var listed := Ids(devices, names);
      && (ok <==> NoDuplicates(listed) && "" !in listed && forall i :: 0 <= i < |names| ==> Physical(devices[names[i]]))
      && (ok ==> existing == Elements(listed))
  {
    ghost var listed := Ids(devices, names);
    existing := {};
    for i := 0 to |names|
      invariant existing == Elements(listed[..i]) && NoDuplicates(listed[..i])
      invariant forall j :: 0 <= j < i ==> listed[j] != "" && Physical(devices[names[j]])
    {
      var selector, physical := SelectorOf(devices[names[i]]);
      OneMoreId(listed, i);
      if !physical || selector == "" || selector in existing {
        return false, existing;
      }
      existing := existing + {selector};
    }
    assert listed[..|names|] == listed;
    ok := true;
  }

  method MatchesIds(devices: Devices, names: seq<string>, ids: seq<string>) returns (ok: bool)
    requires Lists(names, devices) && NoDuplicates(ids) && "" !in ids && |names| == |ids| > 0
    ensures ok <==> Exposes(devices, true, ids)
  {
    Listed(names, devices);
    ExposesIff(devices, names, ids);
    assert "" !in Elements(ids);
    ghost var listed := Ids(devices, names);
    assert "" in listed ==> "" in Elements(listed);
    var existing;
    ok, existing := CollectIds(devices, names);
    if !ok {
      return;
    }
    SameElements(listed, ids);
    for i := 0 to |ids|
      invariant forall j :: 0 <= j < i ==> ids[j] in existing
    {
      if ids[i] !in existing {
        assert ids[i] in Elements(ids);
        return false;
      }
    }
  }

  // ---------- Parsing the selection ----------

  predicate IdChar(c: char) {
    'a' <= c <= 'z' || 'A' <= c <= 'Z' || '0' <= c <= '9' || c == '_' || c == '-' || c == '.' || c == ':'
  }

  predicate ValidId(id: string) {
    id != "" && forall i :: 0 <= i < |id| ==> IdChar(id[i])
  }

  // The trimmed parts between the commas.
  function Parts(raw: string): seq<string> {
    var parts := Split(raw, ',');
    seq(|parts|, i requires 0 <= i < |parts| => TrimSpace(parts[i]))
  }

  // Each element where it occurs first.
  ghost function FirstOccurrences(s: seq<string>): seq<string> {
    if s == [] then []
    else
      var front, last := s[..|s| - 1], s[|s| - 1];
      if last in front then FirstOccurrences(front) else FirstOccurrences(front) + [last]
  }

  lemma {:induction false} FirstOccurrencesAre(s: seq<string>)
    ensures NoDuplicates(FirstOccurrences(s)) && Elements(FirstOccurrences(s)) == Elements(s)
  {
    if s != [] {
      var front, last := s[..|s| - 1], s[|s| - 1];
      FirstOccurrencesAre(front);
      assert s == front + [last];
      assert Elements(s) == Elements(front) + {last};
      assert last in front <==> last in Elements(front);
      assert Elements(FirstOccurrences(front) + [last]) == Elements(FirstOccurrences(front)) + {last};
      forall x | x in FirstOccurrences(front) ensures x in Elements(front) {
        assert x in Elements(FirstOccurrences(front));
      }
    }
  }

  // Blank means no selection; otherwise every part must be a valid id, and the
  // selection lists each id once, in the order of first mention.
  ghost function SelectionOf(raw: string): Option<seq<string>> {
    if TrimSpace(raw) == "" then Some([])
    else if forall p :: p in Parts(raw) ==> ValidId(p) then Some(FirstOccurrences(Parts(raw)))
    else None
  }

  method CheckId(id: string) returns (ok: bool)
    ensures ok <==> ValidId(id)
  {
    if id == "" {
      return false;
    }
    for j := 0 to |id|
      invariant forall k :: 0 <= k < j ==> IdChar(id[k])
    {
      if !IdChar(id[j]) {
        return false;
      }
    }
    ok := true;
  }

  method ContainerGPUSelection(raw: string) returns (ids: Option<seq<string>>)
    ensures ids == SelectionOf(raw)
    ensures ids.Some? ==> NoDuplicates(ids.value) && forall id :: id in ids.value ==> ValidId(id)
    ensures ids.None? <==> TrimSpace(raw) != "" && exists p :: p in Parts(raw) && (p == "" || exists i :: (0 <= i < |p| &&
      !('a' <= p[i] <= 'z' || 'A' <= p[i] <= 'Z' || '0' <= p[i] <= '9' || p[i] in ['_', '-', '.', ':'])))
    ensures ids.Some? ==> Elements(ids.value) == if TrimSpace(raw) == "" then {} else Elements(Parts(raw))
  {
    if TrimSpace(raw) == "" {
      return Some([]);
    }
    ids := SelectParts(Split(raw, ','), Parts(raw));
    if ids.Some? {
      FirstOccurrencesAre(Parts(raw));
      forall id | id in ids.value ensures ValidId(id) {
        assert id in Elements(ids.value);
      }
    }
  }

  method SelectParts(parts: seq<string>, ghost trimmed: seq<string>) returns (ids: Option<seq<string>>)
    requires |trimmed| == |parts| && forall i :: 0 <= i < |parts| ==> trimmed[i] == TrimSpace(parts[i])
    ensures ids.Some? <==> forall p :: p in trimmed ==> ValidId(p)
    ensures ids.Some? ==> ids.value == FirstOccurrences(trimmed)
  {
    var list: seq<string>, seen: set<string> := [], {};
    for i := 0 to |parts|
      invariant list == FirstOccurrences(trimmed[..i])
      invariant seen == Elements(trimmed[..i])
      invariant forall p :: p in trimmed[..i] ==> ValidId(p)
    {
      var id := TrimSpace(parts[i]);
      assert trimmed[i] == id && id in trimmed;
      var valid := CheckId(id);
      if !valid {
        return None;
      }
      assert trimmed[..i + 1] == trimmed[..i] + [id];
      assert trimmed[..i + 1][..i] == trimmed[..i];
      if id !in seen {
        list := list + [id];
        seen := seen + {id};
      }
    }
    assert trimmed[..|parts|] == trimmed;
    ids := Some(list);
  }
}
