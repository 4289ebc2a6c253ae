/** The entry a detected device gets: its name, its properties and its options, and which connections are looked at. */
module DetectionEntries {
  import opened Common
  import opened Detection

  // ---------------------------------------------------------------------------------------------------------------
  // Names
  // ---------------------------------------------------------------------------------------------------------------

  /** The name ends in the last `n` characters of the serial number, or all of it if it is shorter. */
  predicate EndsInSerial(lab: Lab, cls: DeviceClass, serial: string, n: nat, name: string) {
    exists k | 0 <= k <= |serial| && (|serial| - k == n || (k == 0 && |serial| < n)) ::
      name == lab.deviceType(cls) + "-" + lab.lower(serial[k..])
  }

  /** The name is free, and is the short one, or the long one if the short one is taken by a device with another serial
      number. */
  predicate IsNewName(lab: Lab, known: map<string, Props>, cls: DeviceClass, serial: string, name: string) {
    && |serial| >= 4 && name !in known
    && (|| EndsInSerial(lab, cls, serial, 4, name)
        || (EndsInSerial(lab, cls, serial, 8, name) && IsTaken(lab, known, cls, serial)))
  }

  predicate IsTaken(lab: Lab, known: map<string, Props>, cls: DeviceClass, serial: string) {
    exists other | other in known ::
      && EndsInSerial(lab, cls, serial, 4, other)
      && "serial_number" in known[other] && known[other]["serial_number"] != serial
  }

  lemma EndsInSerialMeans(lab: Lab, cls: DeviceClass, serial: string, n: nat, name: string)
    ensures EndsInSerial(lab, cls, serial, n, name) <==> name == NameFor(lab, cls, serial, n)
  {
    var k := if |serial| <= n then 0 else |serial| - n;
    assert serial[0..] == serial;
    assert Tail(serial, n) == serial[k..];
  }

  lemma NewNameMeans(lab: Lab, known: map<string, Props>, cls: DeviceClass, serial: string, name: string)
    ensures IsNewName(lab, known, cls, serial, name)
            <==> GenerateName(lab, known, cls, serial) == Some(name) && name !in known
  {
    var short := NameFor(lab, cls, serial, 4);
    forall other ensures EndsInSerial(lab, cls, serial, 4, other) <==> other == short {
      EndsInSerialMeans(lab, cls, serial, 4, other);
    }
    EndsInSerialMeans(lab, cls, serial, 8, name);
  }

  // ---------------------------------------------------------------------------------------------------------------
  // Entries
  // ---------------------------------------------------------------------------------------------------------------

  /** The device at this connection enters the configuration under this name. */
  predicate Enters(lab: Lab, c: Configs, cls: DeviceClass, con: string, name: string) {
    var known := if lab.isAuxiliary(cls) then c.auxiliary.persistent else c.primary.persistent;
    && lab.extract(cls, con).Some?
    && "serial_number" in lab.extract(cls, con).value.0
    && IsNewName(lab, known, cls, lab.extract(cls, con).value.0["serial_number"], name)
  }

  /** The options that every device of the category has, unset. */
  predicate IsGeneric(k: Category, option: string) {
    || option == "alias"
    || (k == Primary && option in ["power_switch", "power_port", "usb_hub", "location", "usb_port"])
  }

  /** `after` is `before` with this value for the name. */
  ghost predicate Sets<V(!new)>(before: map<string, V>, after: map<string, V>, name: string, value: V) {
    && (forall n :: n in after <==> n == name || n in before)
    && name in after && after[name] == value
    && forall n | n in before && n != name :: n in after && after[n] == before[n]
  }

  lemma UpdateSets<V(!new)>(before: map<string, V>, name: string, value: V)
    ensures Sets(before, before[name := value], name, value)
  {
  }

  /** The new entry holds what was read from the device, its name, and the generic options of its category; nothing else
      has changed. */
  ghost predicate IsEntered(before: Table, after: Table, k: Category, name: string, props: Props, opts: Opts) {
    && Sets(before.persistent, after.persistent, name, props["name" := name])
    && name in after.options && Sets(before.options, after.options, name, after.options[name])
    && (forall o :: o in after.options[name] <==> o in opts || IsGeneric(k, o))
    && forall o | o in after.options[name] ::
         after.options[name][o] == if IsGeneric(k, o) then None else opts[o]
  }

  /** One identified connection: exactly when a new name can be generated for it the device gets its entry, in the
      tables of its category, and otherwise nothing changes. */
  lemma DetectOneMeans(lab: Lab, c: Configs, cls: DeviceClass, con: string)
    ensures var (next, name) := DetectOne(lab, c, cls, con);
            && (name.None? ==> next == c && forall n :: !Enters(lab, c, cls, con, n))
            && (name.Some? ==>
                  && Enters(lab, c, cls, con, name.value)
                  && var (props, opts) := lab.extract(cls, con).value;
                     if lab.isAuxiliary(cls) then
                       && next.primary == c.primary
                       && IsEntered(c.auxiliary, next.auxiliary, Auxiliary, name.value, props, opts)
                     else
                       && next.auxiliary == c.auxiliary
                       && IsEntered(c.primary, next.primary, Primary, name.value, props, opts))
  {
    var known := c.At(CategoryOf(lab, cls)).persistent;
    if lab.extract(cls, con).Some? && "serial_number" in lab.extract(cls, con).value.0 {
      var (props, opts) := lab.extract(cls, con).value;
      forall n ensures IsNewName(lab, known, cls, props["serial_number"], n)
                       <==> GenerateName(lab, known, cls, props["serial_number"]) == Some(n) && n !in known
      {
        NewNameMeans(lab, known, cls, props["serial_number"], n);
      }
      var name := DetectOne(lab, c, cls, con).1;
      if name.Some? {
        AddedMeans(c.At(CategoryOf(lab, cls)), CategoryOf(lab, cls), name.value, props, opts);
      }
    }
  }

  lemma AddedMeans(t: Table, k: Category, name: string, props: Props, opts: Opts)
    ensures IsEntered(t, Added(t, k, name, props["name" := name], opts), k, name, props, opts)
  {
    var after := Added(t, k, name, props["name" := name], opts);
    UpdateSets(t.persistent, name, props["name" := name]);
    UpdateSets(t.options, name, after.options[name]);
    GenericAdded(k, opts, after.options[name]);
  }

  lemma GenericAdded(k: Category, opts: Opts, all: Opts)
    requires all == opts + map o | o in GenericOptions(k) :: None
    ensures forall o :: o in all <==> o in opts || IsGeneric(k, o)
    ensures forall o | o in all :: all[o] == if IsGeneric(k, o) then None else opts[o]
  {
    forall o ensures o in GenericOptions(k) <==> IsGeneric(k, o) {}
  }

  // ---------------------------------------------------------------------------------------------------------------
  // Addresses
  // ---------------------------------------------------------------------------------------------------------------

  const ADB_PORT := ":5555"

  predicate OccursAt(s: string, i: nat) {
    i + 5 <= |s| && s[i..i + 5] == ADB_PORT
  }

  /** Without an occurrence nothing changes; each occurrence goes. The two determine the result for every address. */
  lemma {:induction false} NoPortStays(s: string)
    requires forall i: nat :: !OccursAt(s, i)
    ensures WithoutAdbPort(s) == s
  {
    if |s| >= 5 {
      assert !OccursAt(s, 0) && s[0..0 + 5] == s[..5];
      forall i: nat ensures !OccursAt(s[1..], i) {
        assert !OccursAt(s, i + 1);
        if i + 5 <= |s[1..]| { assert s[1..][i..i + 5] == s[i + 1..i + 1 + 5]; }
      }
      NoPortStays(s[1..]);
      assert s == [s[0]] + s[1..];
    }
  }

  lemma {:induction false} PortGoes(a: string, b: string)
    ensures WithoutAdbPort(a + ADB_PORT + b) == WithoutAdbPort(a) + WithoutAdbPort(b)
  {
    var s := a + ADB_PORT + b;
    if a == [] {
      assert s[..5] == ADB_PORT && s[5..] == b;
    } else if |a| >= 5 && a[..5] == ADB_PORT {
      assert s[..5] == ADB_PORT && s[5..] == a[5..] + ADB_PORT + b;
      PortGoes(a[5..], b);
      Regroup([], WithoutAdbPort(a[5..]), WithoutAdbPort(b));
    } else {
      NotYetThere(a, b);
      PortGoes(a[1..], b);
      FirstStays(a);
      Regroup([a[0]], WithoutAdbPort(a[1..]), WithoutAdbPort(b));
    }
  }

  /** Before the port occurs the first character is kept. */
  lemma NotYetThere(a: string, b: string)
    requires a != [] && !(|a| >= 5 && a[..5] == ADB_PORT)
    ensures var s := a + ADB_PORT + b;
            WithoutAdbPort(s) == [a[0]] + WithoutAdbPort(a[1..] + ADB_PORT + b)
  {
    var s := a + ADB_PORT + b;
    assert s[1..] == a[1..] + ADB_PORT + b && s[0] == a[0];
    if |a| < 5 {
      assert s[..5][|a|] == s[|a|] == ADB_PORT[0];
      assert s[..5][|a|] != ADB_PORT[|a|];
    } else {
      assert s[..5] == a[..5];
    }
  }

  lemma FirstStays(a: string)
    requires a != [] && !(|a| >= 5 && a[..5] == ADB_PORT)
    ensures WithoutAdbPort(a) == [a[0]] + WithoutAdbPort(a[1..])
  {
    if |a| < 5 { ShortStays(a[1..]); }
  }

  lemma ShortStays(s: string)
    requires |s| < 5
    ensures WithoutAdbPort(s) == s
  {
  }

  /** A configured device is known under this address. */
  predicate IsKnownAddress(c: Configs, address: string) {
    || (exists n | n in c.primary.persistent :: HasAddress(Primary, c.primary.persistent[n], address))
    || (exists n | n in c.auxiliary.persistent :: HasAddress(Auxiliary, c.auxiliary.persistent[n], address))
  }

  /** The console port, or else the ADB serial number without its port or the hub port. */
  predicate HasAddress(k: Category, entry: Props, address: string) {
    if "console_port_name" in entry && entry["console_port_name"] != "" then address == entry["console_port_name"]
    else if k == Primary then "adb_serial" in entry && address == WithoutAdbPort(entry["adb_serial"])
    else "hub_port_name" in entry && address == entry["hub_port_name"]
  }

  /** The connections a detection looks at are those that belong to no configured device. */
  lemma ConsideredMeans(lab: Lab, c: Configs, cons: Connections, v: Visit)
    requires ValidLab(lab)
    ensures v in Considered(lab, c, cons)
            <==> v.0 in cons && v.1 in cons[v.0] && !IsKnownAddress(c, WithoutAdbPort(v.1))
  {
    var known := KnownConnections(c);
    var types := lab.sortedKeys(cons.Keys);
    VisitsMembers(lab, Unknown(known, cons), types, v);
    if v.0 in cons { FilterMembers(IsNew(known), cons[v.0]); }
    KnownMeans(c, WithoutAdbPort(v.1));
  }

  lemma KnownMeans(c: Configs, address: string)
    ensures address in KnownConnections(c) <==> IsKnownAddress(c, address)
  {
  }

  // ---------------------------------------------------------------------------------------------------------------
  // The order in which connections are handled
  // ---------------------------------------------------------------------------------------------------------------

  /** Type by type, and within a type address by address in sorted order. */
  lemma VisitsByType(lab: Lab, cons: Connections, t: string, types: seq<string>)
    requires t in cons && forall x | x in types :: x in cons
    ensures forall x | x in types + [t] :: x in cons
    ensures Visits(lab, cons, types + [t]) == Visits(lab, cons, types) + Tagged(t, lab.sorted(cons[t]))
  {
    VisitsAppend(lab, cons, types, [t]);
    VisitsOfOne(lab, cons, t);
  }

  lemma VisitsOfOne(lab: Lab, cons: Connections, t: string)
    requires t in cons
    ensures Visits(lab, cons, [t]) == Tagged(t, lab.sorted(cons[t]))
  {
    assert [t][1..] == [];
    assert Tagged(t, lab.sorted(cons[t])) + [] == Tagged(t, lab.sorted(cons[t]));
  }

  lemma {:induction false} VisitsAppend(lab: Lab, cons: Connections, a: seq<string>, b: seq<string>)
    requires (forall t | t in a :: t in cons) && forall t | t in b :: t in cons
    ensures Visits(lab, cons, a + b) == Visits(lab, cons, a) + Visits(lab, cons, b)
  {
    if a == [] {
      assert a + b == b;
    } else {
      assert a[0] in a;
      VisitsAppend(lab, cons, a[1..], b);
      HeadOfBoth(a, b);
      Regroup(Tagged(a[0], lab.sorted(cons[a[0]])), Visits(lab, cons, a[1..]), Visits(lab, cons, b));
    }
  }

  /** Candidates come in the order of their connections, each with the first of its classes. */
  lemma {:induction false} CandidatesInOrder(lab: Lab, visits: seq<Visit>) returns (at: seq<nat>)
    ensures PickedAt((v: Visit) => lab.identify(v.0, v.1) != [], visits, Identifiable(lab, visits), at)
    ensures |Candidates(lab, visits)| == |at|
    ensures forall k | 0 <= k < |at| ::
              && at[k] < |visits| && lab.identify(visits[at[k]].0, visits[at[k]].1) != []
              && Candidates(lab, visits)[k] == (lab.identify(visits[at[k]].0, visits[at[k]].1)[0], visits[at[k]].1)
  {
    at := FilterPicks((v: Visit) => lab.identify(v.0, v.1) != [], visits);
    CandidatesAreIdentifiable(lab, visits);
  }

  function Identifiable(lab: Lab, visits: seq<Visit>): seq<Visit> {
    Filter((v: Visit) => lab.identify(v.0, v.1) != [], visits)
  }

  lemma {:induction false} CandidatesAreIdentifiable(lab: Lab, visits: seq<Visit>)
    ensures |Candidates(lab, visits)| == |Identifiable(lab, visits)|
    ensures forall k | 0 <= k < |Identifiable(lab, visits)| ::
              var v := Identifiable(lab, visits)[k];
              lab.identify(v.0, v.1) != [] && Candidates(lab, visits)[k] == (lab.identify(v.0, v.1)[0], v.1)
  {
    if visits != [] { CandidatesAreIdentifiable(lab, visits[1..]); }
  }
}
