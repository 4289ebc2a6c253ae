/** manager.delete and manager.redetect: edits on copies of the configuration, saved at the end or not at all. */
module Redetection {
  import opened Common
  import opened Detection
  import opened DeviceDetector

  function Without<V>(m: map<string, V>, name: string): map<string, V> {
    map n | n in m && n != name :: m[n]
  }

  predicate InTable(t: Table, name: string) {
    name in t.persistent && name in t.options
  }

  function DropFrom(t: Table, name: string): Table {
    Table(Without(t.persistent, name), Without(t.options, name))
  }

  /** delete: from the primary tables if it is there, else from the auxiliary ones; None for DeviceError. */
  function Delete(c: Configs, name: string): Option<Configs> {
    if InTable(c.primary, name) then Some(c.(primary := DropFrom(c.primary, name)))
    else if InTable(c.auxiliary, name) then Some(c.(auxiliary := DropFrom(c.auxiliary, name)))
    else None
  }

  predicate Present(c: Configs, name: string) {
    name in c.primary.persistent || name in c.auxiliary.persistent
  }

  /** The user's options of the device put back; None for KeyError. */
  function RestoreOptions(now: Table, before: Table, name: string): Option<Table> {
    if name !in now.options then Some(now)
    else if name !in before.options then None
    else Some(now.(options := now.options[name := before.options[name]]))
  }

  /** redetect: the configurations to save, or None when it raises. `knows` says whether the entry has an address and a
      supported device type, `cons` are the connections found for them. */
  function Redetect(lab: Lab, knows: Props -> bool, c: Configs, name: string, cons: Connections): Option<Configs>
    requires forall t | t in lab.sortedKeys(cons.Keys) :: t in cons
  {
    if !Present(c, name) then None
    else if !knows(if name in c.auxiliary.persistent then c.auxiliary.persistent[name]
                   else c.primary.persistent[name]) then None
    else
      match Delete(c, name)
      case None => None
      case Some(deleted) =>
        if !Usable(deleted) then None
        else
          var found := Detect(lab, deleted, cons);
          if !Present(found, name) then None
          else
            var primary := RestoreOptions(found.primary, c.primary, name);
            var auxiliary := RestoreOptions(found.auxiliary, c.auxiliary, name);
            if primary.None? || auxiliary.None? then None else Some(Configs(primary.value, auxiliary.value))
  }

  /** The manager's configuration, loaded from and saved to the config files. */
  class ManagerConfig {
    var persistentDict: map<string, Props>
    var optionsDict: map<string, Opts>
    var otherPersistentDict: map<string, Props>
    var otherOptionsDict: map<string, Opts>

    function View(): Configs
      reads this
    {
      Configs(Table(persistentDict, optionsDict), Table(otherPersistentDict, otherOptionsDict))
    }

    /** Writes the config files and reloads them. */
    method Save(c: Configs)
      modifies this
      ensures View() == c
    {
      persistentDict, optionsDict := c.primary.persistent, c.primary.options;
      otherPersistentDict, otherOptionsDict := c.auxiliary.persistent, c.auxiliary.options;
    }

    /** delete(device_name, save_changes=False) */
    method DeleteUnsaved(name: string) returns (r: Option<Configs>)
      ensures r == Delete(View(), name)
    {
      var devices, deviceOptions := persistentDict, optionsDict;
      var otherDevices, otherDeviceOptions := otherPersistentDict, otherOptionsDict;
      if name in devices && name in deviceOptions {
        devices, deviceOptions := Without(devices, name), Without(deviceOptions, name);
      } else if name in otherDevices && name in otherDeviceOptions {
        otherDevices, otherDeviceOptions := Without(otherDevices, name), Without(otherDeviceOptions, name);
      } else {
        return None;
      }
      r := Some(Configs(Table(devices, deviceOptions), Table(otherDevices, otherDeviceOptions)));
    }

    /** delete(device_name) */
    method DeleteAndSave(name: string) returns (ok: bool)
      modifies this
      ensures ok <==> Delete(old(View()), name).Some?
      ensures View() == if ok then Delete(old(View()), name).value else old(View())
    {
      var r := DeleteUnsaved(name);
      ok := r.Some?;
      if ok {
        Save(r.value);
      }
    }

    /** detect(save_changes=False, device_configs=configs) */
    method DetectUnsaved(lab: Lab, configs: Configs, cons: Connections) returns (r: Option<Configs>)
      requires ValidLab(lab)
      ensures r == if Usable(configs) then Some(Detect(lab, configs, cons)) else None
    {
      var detector := new Detector(lab, configs);
      var ok := detector.CreateKnownConnections();
      if !ok {
        return None;
      }
      var _ := detector.DetectNewDevices(cons);
      r := Some(detector.View());
    }

    /** redetect: saves the new configurations, or raises and saves nothing. */
    method RedetectDevice(lab: Lab, knows: Props -> bool, name: string, cons: Connections) returns (ok: bool)
      requires ValidLab(lab)
      modifies this
      ensures ok <==> Redetect(lab, knows, old(View()), name, cons).Some?
      ensures View() == if ok then Redetect(lab, knows, old(View()), name, cons).value else old(View())
    {
      if name !in persistentDict && name !in otherPersistentDict {
        return false;
      }
      if !knows(if name in otherPersistentDict then otherPersistentDict[name] else persistentDict[name]) {
        return false;
      }
      var deleted := DeleteUnsaved(name);
      if deleted.None? {
        return false;
      }
      var found := DetectUnsaved(lab, deleted.value, cons);
      if found.None? || !Present(found.value, name) {
        return false;
      }
      var restored := PutBackOptions(found.value, name);
      ok := restored.Some?;
      if ok {
        Save(restored.value);
      }
    }

    /** The options the user has set for the device, put back into the new configurations. */
    method PutBackOptions(found: Configs, name: string) returns (r: Option<Configs>)
      ensures var primary, auxiliary := RestoreOptions(found.primary, View().primary, name),
                                        RestoreOptions(found.auxiliary, View().auxiliary, name);
              r == if primary.None? || auxiliary.None? then None else Some(Configs(primary.value, auxiliary.value))
    {
      var devices, otherDevices := found.primary, found.auxiliary;
      if name in devices.options {
        if name !in optionsDict {
          return None;
        }
        devices := devices.(options := devices.options[name := optionsDict[name]]);
      }
      if name in otherDevices.options {
        if name !in otherOptionsDict {
          return None;
        }
        otherDevices := otherDevices.(options := otherDevices.options[name := otherOptionsDict[name]]);
      }
      r := Some(Configs(devices, otherDevices));
    }
  }

  /** All other devices of the table are as they were. */
  ghost predicate OthersKept(a: Table, b: Table, name: string) {
    && (forall n | n in a.persistent && n != name :: n in b.persistent && b.persistent[n] == a.persistent[n])
    && (forall n | n in a.options && n != name :: n in b.options && b.options[n] == a.options[n])
  }

  /** The device has the options it had, wherever it is. */
  ghost predicate OptionsKept(a: Table, b: Table, name: string) {
    name in b.persistent ==> name in a.options && name in b.options && b.options[name] == a.options[name]
  }

  lemma DeleteKeepsOthers(c: Configs, name: string)
    requires Coupled(c) && Delete(c, name).Some?
    ensures var d := Delete(c, name).value;
            Coupled(d) && OthersKept(c.primary, d.primary, name) && OthersKept(c.auxiliary, d.auxiliary, name)
  {
  }

  lemma DetectKeepsOthers(lab: Lab, c: Configs, cons: Connections, before: Configs, name: string)
    requires ValidLab(lab) && Coupled(c)
    requires OthersKept(before.primary, c.primary, name) && OthersKept(before.auxiliary, c.auxiliary, name)
    ensures var d := Detect(lab, c, cons);
            && Coupled(d)
            && OthersKept(before.primary, d.primary, name) && OthersKept(before.auxiliary, d.auxiliary, name)
  {
    DetectionAccounts(lab, c, cons);
  }

  lemma RestoreKeeps(now: Table, before: Table, name: string)
    requires RestoreOptions(now, before, name).Some? && now.persistent.Keys == now.options.Keys
    requires OthersKept(before, now, name)
    ensures var r := RestoreOptions(now, before, name).value;
            r.persistent == now.persistent && r.options.Keys == now.options.Keys
            && OthersKept(before, r, name) && OptionsKept(before, r, name)
  {
  }

  /** A redetect that saves: the device is present with exactly its old options, and the entries of every other known
      device are what they were. */
  lemma RedetectKeepsTheRest(lab: Lab, knows: Props -> bool, c: Configs, name: string, cons: Connections)
    requires ValidLab(lab) && Coupled(c) && Redetect(lab, knows, c, name, cons).Some?
    ensures var r := Redetect(lab, knows, c, name, cons).value;
            && Coupled(r) && Present(r, name)
            && OthersKept(c.primary, r.primary, name) && OthersKept(c.auxiliary, r.auxiliary, name)
            && OptionsKept(c.primary, r.primary, name) && OptionsKept(c.auxiliary, r.auxiliary, name)
  {
    var deleted := Delete(c, name).value;
    var found := Detect(lab, deleted, cons);
    DeleteKeepsOthers(c, name);
    DetectKeepsOthers(lab, deleted, cons, c, name);
    RestoreKeeps(found.primary, c.primary, name);
    RestoreKeeps(found.auxiliary, c.auxiliary, name);
  }

  /** A name of one category only was really found again, in the same category. */
  lemma RedetectFindsAgain(lab: Lab, knows: Props -> bool, c: Configs, name: string, cons: Connections)
    requires ValidLab(lab) && Coupled(c) && Redetect(lab, knows, c, name, cons).Some?
    requires !(name in c.primary.persistent && name in c.auxiliary.persistent)
    ensures var r := Redetect(lab, knows, c, name, cons).value;
            && (name in r.primary.persistent <==> name in c.primary.persistent)
            && (name in r.auxiliary.persistent <==> name in c.auxiliary.persistent)
            && !Present(Delete(c, name).value, name)
  {
    RedetectKeepsTheRest(lab, knows, c, name, cons);
  }

  /** Whatever is known and connected: when redetect saves, each category that had the name has it again. */
  ghost predicate AlwaysFindsAgain(lab: Lab, c: Configs, name: string)
    requires ValidLab(lab)
  {
    forall knows: Props -> bool, cons: Connections ::
      var r := Redetect(lab, knows, c, name, cons); r.Some? ==> FoundAgain(c, r.value, name)
  }

  predicate FoundAgain(c: Configs, r: Configs, name: string) {
    && (name in c.primary.persistent ==> name in r.primary.persistent)
    && (name in c.auxiliary.persistent ==> name in r.auxiliary.persistent)
  }

  lemma HasFirst<T>(s: seq<T>)
    ensures s != [] ==> s[0] in s
  {
  }

  /** Nothing is detected if nothing is connected. */
  lemma NothingConnected(lab: Lab, c: Configs)
    requires ValidLab(lab)
    ensures Detect(lab, c, map[]) == c
  {
    var types := lab.sortedKeys({});
    HasFirst(types);
    var none: Connections := map[];
    assert none.Keys == {};
    var unknown := Unknown(KnownConnections(c), none);
    assert unknown == map[];
    assert Visits(lab, unknown, types) == [];
  }

  /** A name of both categories passes for found although nothing is connected, and loses its primary entry. */
  lemma AmbiguousNameLosesAnEntry(lab: Lab, c: Configs, name: string)
    requires ValidLab(lab) && Coupled(c) && name in c.primary.persistent && name in c.auxiliary.persistent
    requires Usable(Delete(c, name).value)
    ensures var r := Redetect(lab, (p: Props) => true, c, name, map[]);
            && r.Some? && r.value == Delete(c, name).value
            && name !in r.value.primary.persistent && name in r.value.auxiliary.persistent
  {
    var deleted := Delete(c, name).value;
    NothingConnected(lab, deleted);
    assert RestoreOptions(deleted.primary, c.primary, name) == Some(deleted.primary);
    assert c.auxiliary.options[name := c.auxiliary.options[name]] == c.auxiliary.options;
  }

  /** Redetection always finds the device where it was exactly when its name is not one of both categories, unless no
      detector can be made for what the deletion leaves, so that it never saves. */
  lemma FindsAgainExactlyWhen(lab: Lab, c: Configs, name: string)
    requires ValidLab(lab) && Coupled(c)
    ensures AlwaysFindsAgain(lab, c, name)
            <==> !(&& name in c.primary.persistent && name in c.auxiliary.persistent
                   && Usable(Delete(c, name).value))
  {
    if name in c.primary.persistent && name in c.auxiliary.persistent && Usable(Delete(c, name).value) {
      AmbiguousNameLosesAnEntry(lab, c, name);
    } else {
      forall knows: Props -> bool, cons: Connections
        ensures var r := Redetect(lab, knows, c, name, cons); r.Some? ==> FoundAgain(c, r.value, name)
      {
        if Redetect(lab, knows, c, name, cons).Some? {
          RedetectFindsAgain(lab, knows, c, name, cons);
        }
      }
    }
  }

  /** Two devices that happen to have one name. */
  const TWINS := Configs(
    Table(map["device-1234" := map["console_port_name" := "/dev/tty1"]], map["device-1234" := map[]]),
    Table(map["device-1234" := map["console_port_name" := "/dev/tty2"]], map["device-1234" := map[]]))

  lemma TwinIsLost(lab: Lab)
    requires ValidLab(lab)
    ensures !AlwaysFindsAgain(lab, TWINS, "device-1234")
  {
    var name := "device-1234";
    assert Delete(TWINS, name) == Some(TWINS.(primary := DropFrom(TWINS.primary, name)));
    assert DropFrom(TWINS.primary, name).persistent == map[];
    FindsAgainExactlyWhen(lab, TWINS, name);
  }
}
