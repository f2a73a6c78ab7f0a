/**
  The stored table of MCP23008/MCP23017 devices (mcp_config.c): two NVS blobs, edited through an array, against a
  finite map from I2C address to device. All NVS calls succeed; reading a blob into less room than it needs fails.
*/
module McpTable {
  import opened Options

  const MAX_DEVICES := 8   // MCP_MAX_DEVICES

  datatype Device = Device(address: nat, kind: nat, enabled: bool, pinDirections: nat, inputStart: nat,
                           outputStart: nat, outputInverted: bool)

  // The "count" and "devices" blobs of the namespace, which does not exist before the first save.
  datatype Nvs = Nvs(present: bool, count: Option<nat>, devices: Option<seq<Device>>)

  const EMPTY := Nvs(false, None, None)

  // ---- What the stored table means ----------------------------------------

  ghost predicate Distinct(s: seq<Device>) {
    forall i, j :: 0 <= i < j < |s| ==> s[i].address != s[j].address
  }

  // What every operation keeps. After the last device was deleted its blob stays behind; an empty one is never saved.
  ghost predicate Valid(n: Nvs) {
    && (n.count.Some? ==> n.present && n.count.value <= MAX_DEVICES)
    && (n.devices.Some? ==> n.count.Some? && n.devices.value != [])
    && (n.count.Some? && n.count.value > 0 ==> n.devices.Some?)
    && (n.count.Some? && n.count.value > 0 ==> |n.devices.value| == n.count.value && Distinct(n.devices.value))
  }

  function Table(n: Nvs): (t: seq<Device>)
    requires Valid(n)
    ensures Distinct(t) && |t| <= MAX_DEVICES
  {
    if n.count.Some? && n.count.value > 0 then n.devices.value else []
  }

  function ToMap(s: seq<Device>): map<nat, Device> {
    if s == [] then map[] else ToMap(s[..|s| - 1])[s[|s| - 1].address := s[|s| - 1]]
  }

  // The table as a map from address to device.
  function Devices(n: Nvs): map<nat, Device>
    requires Valid(n)
  {
    ToMap(Table(n))
  }

  // ---- What the code does, on values --------------------------------------

  // mcp_config_find_device: the position of an address, or the length.
  function Find(s: seq<Device>, address: nat): (r: nat)
    ensures r <= |s|
    ensures forall i :: 0 <= i < r ==> s[i].address != address
    ensures r < |s| ==> s[r].address == address
  {
    if s == [] || s[0].address == address then 0 else 1 + Find(s[1..], address)
  }

  // mcp_config_load_all, with what it returns and the devices it finds: it fails without a table, and with an emptied
  // one, whose last blob is still there and does not fit.
  function Load(n: Nvs): (r: (bool, seq<Device>)) {
    if !n.present || n.count.None? || n.devices.None? then (false, [])
    else
      var room := if n.count.value > MAX_DEVICES then MAX_DEVICES else n.count.value;
      if |n.devices.value| > room then (false, []) else (true, n.devices.value)
  }

  // mcp_config_save_all
  function Saved(n: Nvs, s: seq<Device>): Nvs {
    Nvs(true, Some(|s|), if s == [] then n.devices else Some(s))
  }

  // mcp_config_save_device
  function SaveDevice(n: Nvs, d: Device): Nvs
    requires Valid(n)
  {
    var t := Table(n);
    var i := Find(t, d.address);
    if i < |t| then Saved(n, t[i := d])
    else if |t| >= MAX_DEVICES then n
    else Saved(n, t + [d])
  }

  function Removed(t: seq<Device>, i: nat): seq<Device>
    requires i < |t|
  {
    t[..i] + t[i + 1..]
  }

  // mcp_config_delete_device
  function DeleteDevice(n: Nvs, address: nat): Nvs
    requires Valid(n)
  {
    var t := Table(n);
    var i := Find(t, address);
    if i == |t| then n else Saved(n, Removed(t, i))
  }

  // ---- Refinement ---------------------------------------------------------

  lemma {:induction false} FindIs(s: seq<Device>, address: nat, i: nat)
    requires i <= |s| && forall k :: 0 <= k < i ==> s[k].address != address
    requires i < |s| ==> s[i].address == address
    ensures Find(s, address) == i
  {
    if i > 0 {
      FindIs(s[1..], address, i - 1);
    }
  }

  // The map of a table has what a search in the table finds.
  lemma {:induction false} MapIsSearch(s: seq<Device>, a: nat)
    requires Distinct(s)
    ensures a in ToMap(s) <==> Find(s, a) < |s|
    ensures Find(s, a) < |s| ==> ToMap(s)[a] == s[Find(s, a)]
  {
    if s == [] {
    } else {
      var before, last := s[..|s| - 1], s[|s| - 1];
      MapIsSearch(before, a);
      var k := Find(before, a);
      FindIs(s, a, if k < |before| then k else if last.address == a then |before| else |s|);
    }
  }

  lemma {:induction false} MapSize(s: seq<Device>)
    requires Distinct(s)
    ensures |ToMap(s)| == |s|
  {
    if s != [] {
      var before, last := s[..|s| - 1], s[|s| - 1];
      MapSize(before);
      MapIsSearch(before, last.address);
    }
  }

  lemma UpdateRefines(t: seq<Device>, i: nat, d: Device)
    requires Distinct(t) && i < |t| && t[i].address == d.address
    ensures Distinct(t[i := d]) && ToMap(t[i := d]) == ToMap(t)[d.address := d]
  {
    var s := t[i := d];
    forall a
      ensures a in ToMap(s) <==> a in ToMap(t)[d.address := d]
      ensures a in ToMap(s) ==> ToMap(s)[a] == ToMap(t)[d.address := d][a]
    {
      MapIsSearch(t, a);
      MapIsSearch(s, a);
      FindIs(s, a, Find(t, a));
    }
  }

  lemma RemovedAt(t: seq<Device>, i: nat)
    requires i < |t|
    ensures |Removed(t, i)| == |t| - 1
    ensures forall j :: 0 <= j < |t| - 1 ==> Removed(t, i)[j] == t[if j < i then j else j + 1]
  {
  }

  lemma RemovedFind(t: seq<Device>, i: nat, a: nat)
    requires Distinct(t) && i < |t|
    ensures var k := Find(t, a);
            Find(Removed(t, i), a) == if a == t[i].address || k == |t| then |t| - 1 else if k < i then k else k - 1
  {
    hide Removed;
    RemovedAt(t, i);
    var k := Find(t, a);
    FindIs(Removed(t, i), a, if a == t[i].address || k == |t| then |t| - 1 else if k < i then k else k - 1);
  }

  lemma RemoveRefines(t: seq<Device>, i: nat)
    requires Distinct(t) && i < |t|
    ensures Distinct(Removed(t, i)) && ToMap(Removed(t, i)) == ToMap(t) - {t[i].address}
  {
    hide Removed, ToMap;
    var s := Removed(t, i);
    RemovedAt(t, i);
    forall a
      ensures a in ToMap(s) <==> a in ToMap(t) - {t[i].address}
      ensures a in ToMap(s) ==> ToMap(s)[a] == ToMap(t)[a]
    {
      MapIsSearch(t, a);
      MapIsSearch(s, a);
      RemovedFind(t, i, a);
    }
  }

  // Saving a device updates the map, unless the device is new and eight are stored.
  lemma SaveRefines(n: Nvs, d: Device)
    requires Valid(n)
    ensures Valid(SaveDevice(n, d))
    ensures Devices(SaveDevice(n, d))
            == if d.address in Devices(n) || |Devices(n)| < 8 then Devices(n)[d.address := d] else Devices(n)
  {
    hide ToMap, Distinct;
    var t := Table(n);
    var i := Find(t, d.address);
    MapSize(t);
    MapIsSearch(t, d.address);
    if i < |t| {
      UpdateRefines(t, i, d);
    } else if |t| < MAX_DEVICES {
      AppendRefines(t, d);
    }
  }

  lemma AppendRefines(t: seq<Device>, d: Device)
    requires Distinct(t) && Find(t, d.address) == |t|
    ensures Distinct(t + [d]) && ToMap(t + [d]) == ToMap(t)[d.address := d]
  {
    AppendIsDistinct(t, d);
    hide Distinct, Find;
    var s := t + [d];
    assert s[..|t|] == t && s[|t|] == d;
  }

  lemma AppendIsDistinct(t: seq<Device>, d: Device)
    requires Distinct(t) && Find(t, d.address) == |t|
    ensures Distinct(t + [d])
  {
    var s := t + [d];
    forall i, j | 0 <= i < j < |s|
      ensures s[i].address != s[j].address
    {
      assert s[i] == t[i];
    }
  }

  // Deleting an address removes it from the map; the emptied table with its stale blob is the empty map.
  lemma DeleteRefines(n: Nvs, address: nat)
    requires Valid(n)
    ensures Valid(DeleteDevice(n, address))
    ensures Devices(DeleteDevice(n, address)) == Devices(n) - {address}
  {
    hide Distinct;
    var t := Table(n);
    var i := Find(t, address);
    MapIsSearch(t, address);
    if i < |t| {
      RemoveRefines(t, i);
    } else {
      assert Devices(n) - {address} == Devices(n);
    }
  }

  // ---- Runs ---------------------------------------------------------------

  datatype Op = Save(device: Device) | Delete(address: nat)

  function Do(n: Nvs, op: Op): Nvs
    requires Valid(n)
  {
    match op
    case Save(d) => SaveDevice(n, d)
    case Delete(a) => DeleteDevice(n, a)
  }

  // The same on a map that holds at most eight devices.
  function DoOnMap(m: map<nat, Device>, op: Op): map<nat, Device> {
    match op
    case Save(d) => if d.address in m || |m| < MAX_DEVICES then m[d.address := d] else m
    case Delete(a) => m - {a}
  }

  ghost function Run(n: Nvs, ops: seq<Op>): Nvs
    requires Valid(n)
    decreases |ops|
  {
    if ops == [] then n
    else
      DoRefines(n, ops[0]);
      Run(Do(n, ops[0]), ops[1..])
  }

  lemma DoRefines(n: Nvs, op: Op)
    requires Valid(n)
    ensures Valid(Do(n, op)) && Devices(Do(n, op)) == DoOnMap(Devices(n), op)
  {
    match op
    case Save(d) => SaveRefines(n, d);
    case Delete(a) => DeleteRefines(n, a);
  }

  function RunOnMap(m: map<nat, Device>, ops: seq<Op>): map<nat, Device>
    decreases |ops|
  {
    if ops == [] then m else RunOnMap(DoOnMap(m, ops[0]), ops[1..])
  }

  // After any run of saves and deletes the stored table is the map that the same run builds, its addresses are
  // distinct and there are at most eight of them.
  lemma {:induction false} RunsRefineMap(n: Nvs, ops: seq<Op>)
    requires Valid(n)
    ensures Valid(Run(n, ops)) && Devices(Run(n, ops)) == RunOnMap(Devices(n), ops)
    ensures |Devices(Run(n, ops))| == |Table(Run(n, ops))| <= 8
    decreases |ops|
  {
    if ops == [] {
      MapSize(Table(n));
    } else {
      DoRefines(n, ops[0]);
      RunsRefineMap(Do(n, ops[0]), ops[1..]);
    }
  }

  // The table is what loading finds; loading fails exactly for the empty map, be it new or emptied.
  lemma LoadIsTable(n: Nvs)
    requires Valid(n)
    ensures Load(n) == (Devices(n) != map[], Table(n))
  {
    MapSize(Table(n));
  }

  // ---- The store and the array --------------------------------------------

  // mcp_config_t; the slots behind the count hold anything.
  class Config {
    const devices: array<Device>
    var count: nat

    constructor (any: Device)
      ensures fresh(devices) && devices.Length == MAX_DEVICES && count == 0
    {
      devices := new Device[MAX_DEVICES](_ => any);
      count := 0;
    }

    ghost predicate Valid()
      reads this
    {
      devices.Length == MAX_DEVICES && count <= MAX_DEVICES
    }

    ghost function Contents(): seq<Device>
      requires Valid()
      reads this, devices
    {
      devices[..count]
    }

    // mcp_config_find_device; the count stands for NULL
    method FindDevice(address: nat) returns (i: nat)
      requires Valid()
      ensures i == Find(Contents(), address)
    {
      i := 0;
      while i < count && devices[i].address != address
        invariant i <= count
        invariant forall k :: 0 <= k < i ==> devices[k].address != address
      {
        i := i + 1;
      }
      assert i < count ==> Contents()[i].address == address;
      FindIs(Contents(), address, i);
    }

    // The edit of mcp_config_save_device; false when the array is full
    method Put(d: Device) returns (r: bool)
      requires Valid()
      modifies this, devices
      ensures Valid()
      ensures var t := old(Contents());
              var i := Find(t, d.address);
              && r == (i < |t| || |t| < MAX_DEVICES)
              && Contents() == if i < |t| then t[i := d] else if r then t + [d] else t
    {
      var i := FindDevice(d.address);
      if i < count {
        devices[i] := d;
      } else {
        if count >= MAX_DEVICES {
          return false;
        }
        devices[count] := d;
        count := count + 1;
      }
      return true;
    }

    // The shift loop of mcp_config_delete_device
    method Remove(i: nat)
      requires Valid() && i < count
      modifies this, devices
      ensures Valid() && Contents() == Removed(old(Contents()), i)
    {
      var j := i;
      while j < count - 1
        invariant i <= j <= count - 1 && count == old(count)
        invariant forall k :: 0 <= k < i || j < k < count ==> devices[k] == old(devices[k])
        invariant forall k :: i <= k < j ==> devices[k] == old(devices[k + 1])
      {
        devices[j] := devices[j + 1];
        j := j + 1;
      }
      count := count - 1;
    }
  }

  class Store {
    var nvs: Nvs

    constructor ()
      ensures nvs == EMPTY
    {
      nvs := EMPTY;
    }

    // nvs_get_blob into room for some devices
    method GetDevices(config: Config) returns (found: bool, fits: bool)
      requires config.Valid()
      modifies config.devices
      ensures found == nvs.devices.Some? && fits == (found && |nvs.devices.value| <= config.count)
      ensures fits ==> config.devices[..|nvs.devices.value|] == nvs.devices.value
    {
      if nvs.devices.None? {
        return false, false;
      }
      var blob := nvs.devices.value;
      if |blob| > config.count {
        return true, false;
      }
      forall k | 0 <= k < |blob| {
        config.devices[k] := blob[k];
      }
      return true, true;
    }

    // mcp_config_load_all
    method LoadAll(config: Config) returns (r: bool)
      requires Valid(nvs) && config.Valid()
      modifies config, config.devices
      ensures config.Valid() && (r, config.Contents()) == Load(nvs)
    {
      if !nvs.present {
        config.count := 0;
        return false;
      }
      if nvs.count.None? {
        config.count := 0;
        return false;
      }
      var count := nvs.count.value;
      if count > MAX_DEVICES {
        count := MAX_DEVICES;
      }
      config.count := count;
      var found, fits := GetDevices(config);
      if !found {
        config.count := 0;
        return false;
      }
      return fits;
    }

    // mcp_config_save_all
    method SaveAll(config: Config)
      requires config.Valid()
      modifies this
      ensures nvs == Saved(old(nvs), config.Contents())
    {
      nvs := nvs.(present := true, count := Some(config.count));
      if config.count > 0 {
        nvs := nvs.(devices := Some(config.devices[..config.count]));
      }
    }

    // mcp_config_load_device: what the map holds at the address
    method LoadDevice(address: nat) returns (r: Option<Device>)
      requires Valid(nvs)
      ensures r == if address in Devices(nvs) then Some(Devices(nvs)[address]) else None
    {
      var config := new Config(Device(0, 0, false, 0, 0, 0, false));
      LoadIsTable(nvs);
      MapIsSearch(Table(nvs), address);
      var loaded := LoadAll(config);
      if !loaded {
        return None;
      }
      var i := config.FindDevice(address);
      if i == config.count {
        return None;
      }
      return Some(config.devices[i]);
    }

    // mcp_config_save_device
    method SaveDeviceApi(d: Device) returns (r: bool)
      requires Valid(nvs)
      modifies this
      ensures Valid(nvs) && nvs == SaveDevice(old(nvs), d)
      ensures r == (d.address in old(Devices(nvs)) || |old(Devices(nvs))| < MAX_DEVICES)
    {
      LoadIsTable(nvs);
      SaveRefines(nvs, d);
      MapSize(Table(nvs));
      MapIsSearch(Table(nvs), d.address);
      hide Valid, Table, ToMap, Find, Distinct, Load;
      var config := new Config(d);
      var _ := LoadAll(config);
      r := config.Put(d);
      if r {
        SaveAll(config);
      }
    }

    // mcp_config_delete_device
    method DeleteDeviceApi(address: nat) returns (r: bool)
      requires Valid(nvs)
      modifies this
      ensures Valid(nvs) && nvs == DeleteDevice(old(nvs), address)
      ensures r == (address in old(Devices(nvs)))
    {
      LoadIsTable(nvs);
      DeleteRefines(nvs, address);
      MapIsSearch(Table(nvs), address);
      hide Valid, Table, ToMap, Find, Distinct, Load;
      var config := new Config(Device(0, 0, false, 0, 0, 0, false));
      var loaded := LoadAll(config);
      if !loaded {
        return false;
      }
      var i := config.FindDevice(address);
      if i == config.count {
        return false;
      }
      config.Remove(i);
      SaveAll(config);
      return true;
    }
  }

  // A new store through any saves and deletes: it holds the map that they build.
  method HandleAll(ops: seq<Op>) returns (store: Store)
    ensures fresh(store) && Valid(store.nvs)
    ensures store.nvs == Run(EMPTY, ops) && Devices(store.nvs) == RunOnMap(map[], ops)
  {
    hide Valid, Do;
    store := new Store();
    EmptyIsValid();
    assert ops[0..] == ops;
    for i := 0 to |ops|
      invariant fresh(store) && Valid(store.nvs) && Run(store.nvs, ops[i..]) == Run(EMPTY, ops)
    {
      assert ops[i..][0] == ops[i] && ops[i..][1..] == ops[i + 1..];
      DoIsCall(store.nvs, ops[i]);
      match ops[i] {
        case Save(d) => var _ := store.SaveDeviceApi(d);
        case Delete(a) => var _ := store.DeleteDeviceApi(a);
      }
    }
    RunsRefineMap(EMPTY, ops);
  }

  lemma EmptyIsValid()
    ensures Valid(EMPTY) && Devices(EMPTY) == map[]
  {
  }

  lemma DoIsCall(n: Nvs, op: Op)
    requires Valid(n)
    ensures Do(n, op) == match op case Save(d) => SaveDevice(n, d) case Delete(a) => DeleteDevice(n, a)
  {
  }
}
