/** Detection of new devices: which connections are identified, under which names they enter the configuration, and why
    running the detection again changes nothing. */
module Detection {
  import opened Common

  type Props = map<string, string>
  type Opts = map<string, Option<string>>
  type DeviceClass = nat

  /** Primary and virtual devices have one set of tables, auxiliary devices another. */
  datatype Category = Primary | Auxiliary

  /** The persistent and the optional properties of the devices of one category, by device name. */
  datatype Table = Table(persistent: map<string, Props>, options: map<string, Opts>)

  datatype Configs = Configs(primary: Table, auxiliary: Table)
  {
    function At(k: Category): Table {
      if k == Primary then primary else auxiliary
    }

    function With(k: Category, t: Table): Configs {
      if k == Primary then this.(primary := t) else this.(auxiliary := t)
    }
  }

  /** Everything detection learns from outside: arbitrary, but the same at every run. `extract` is None when creating
      the device, making it ready or reading its properties raises. */
  datatype Lab = Lab(
    identify: (string, string) -> seq<DeviceClass>,
    extract: (DeviceClass, string) -> Option<(Props, Opts)>,
    isAuxiliary: DeviceClass -> bool,
    deviceType: DeviceClass -> string,
    lower: string -> string,
    sortedKeys: set<string> -> seq<string>,
    sorted: seq<string> -> seq<string>)

  const PRIMARY_OPTIONS := {"alias", "power_switch", "power_port", "usb_hub", "location", "usb_port"}
  const AUXILIARY_OPTIONS := {"alias"}

  // ---------------------------------------------------------------------------------------------------------------
  // Names
  // ---------------------------------------------------------------------------------------------------------------

  /** `s[-n:]` */
  function Tail(s: string, n: nat): string {
    if |s| <= n then s else s[|s| - n..]
  }

  /** `s.replace(":5555", "")` */
  function WithoutAdbPort(s: string): string {
    if |s| < 5 then s
    else if s[..5] == ":5555" then WithoutAdbPort(s[5..])
    else [s[0]] + WithoutAdbPort(s[1..])
  }

  function CategoryOf(lab: Lab, cls: DeviceClass): Category {
    if lab.isAuxiliary(cls) then Auxiliary else Primary
  }

  /** The name from the last n characters of the serial number. */
  function NameFor(lab: Lab, cls: DeviceClass, serial: string, n: nat): string {
    lab.deviceType(cls) + "-" + lab.lower(Tail(serial, n))
  }

  /** _generate_name: the long name only if the short one belongs to a device with another serial number; None when it
      raises. */
  function GenerateName(lab: Lab, known: map<string, Props>, cls: DeviceClass, serial: string): Option<string> {
    var short := NameFor(lab, cls, serial, 4);
    if |serial| < 4 then None
    else if short !in known then Some(short)
    else if "serial_number" !in known[short] then None
    else if known[short]["serial_number"] == serial then Some(short)
    else Some(NameFor(lab, cls, serial, 8))
  }

  /** _detect_get_info: name and properties, or None for any exception. */
  function GetInfo(lab: Lab, known: map<string, Props>, cls: DeviceClass, con: string): Option<(string, Props, Opts)> {
    match lab.extract(cls, con)
    case None => None
    case Some((props, opts)) =>
      if "serial_number" !in props then None
      else
        match GenerateName(lab, known, cls, props["serial_number"])
        case None => None
        case Some(name) => Some((name, props["name" := name], opts))
  }

  function GenericOptions(k: Category): set<string> {
    if k == Primary then PRIMARY_OPTIONS else AUXILIARY_OPTIONS
  }

  /** _add_to_configs, for a name that is new in its table. */
  function Added(t: Table, k: Category, name: string, props: Props, opts: Opts): Table {
    Table(t.persistent[name := props], t.options[name := opts + map o | o in GenericOptions(k) :: None])
  }

  /** One identified connection: the configuration afterwards, and the name it was given there, if any. */
  function DetectOne(lab: Lab, c: Configs, cls: DeviceClass, con: string): (Configs, Option<string>) {
    var k := CategoryOf(lab, cls);
    match GetInfo(lab, c.At(k).persistent, cls, con)
    case None => (c, None)
    case Some((name, props, opts)) =>
      if name in c.At(k).persistent then (c, None)
      else (c.With(k, Added(c.At(k), k, name, props, opts)), Some(name))
  }

  /** A connection with the class it was identified as. */
  type Candidate = (DeviceClass, string)

  function DetectAll(lab: Lab, c: Configs, todo: seq<Candidate>): Configs
    decreases |todo|
  {
    if todo == [] then c
    else DetectAll(lab, DetectOne(lab, c, todo[0].0, todo[0].1).0, todo[1..])
  }

  /** The connections that got no entry. */
  function Failed(lab: Lab, c: Configs, todo: seq<Candidate>): seq<string>
    decreases |todo|
  {
    if todo == [] then []
    else
      var (next, name) := DetectOne(lab, c, todo[0].0, todo[0].1);
      (if name.None? then [todo[0].1] else []) + Failed(lab, next, todo[1..])
  }

  // ---------------------------------------------------------------------------------------------------------------
  // Nothing is lost, nothing is forgotten
  // ---------------------------------------------------------------------------------------------------------------

  /** Every entry of `a` is an entry of `b`. */
  ghost predicate Keeps<V(!new)>(a: map<string, V>, b: map<string, V>) {
    forall n | n in a :: n in b && b[n] == a[n]
  }

  ghost predicate KeepsDevices(a: Configs, b: Configs) {
    Keeps(a.primary.persistent, b.primary.persistent) && Keeps(a.auxiliary.persistent, b.auxiliary.persistent)
  }

  ghost predicate KeepsOptions(a: Configs, b: Configs) {
    Keeps(a.primary.options, b.primary.options) && Keeps(a.auxiliary.options, b.auxiliary.options)
  }

  /** The persistent and the optional properties are about the same devices. */
  predicate Coupled(c: Configs) {
    c.primary.persistent.Keys == c.primary.options.Keys && c.auxiliary.persistent.Keys == c.auxiliary.options.Keys
  }

  function Entries(c: Configs): nat {
    |c.primary.persistent| + |c.auxiliary.persistent|
  }

  lemma DetectOneAdds(lab: Lab, c: Configs, cls: DeviceClass, con: string)
    ensures var (next, name) := DetectOne(lab, c, cls, con);
            && KeepsDevices(c, next)
            && (Coupled(c) ==> Coupled(next) && KeepsOptions(c, next))
            && Entries(next) == Entries(c) + if name.Some? then 1 else 0
  {
    var k := CategoryOf(lab, cls);
    var (next, name) := DetectOne(lab, c, cls, con);
    if name.Some? {
      assert next.At(k).persistent.Keys == c.At(k).persistent.Keys + {name.value};
      assert |next.At(k).persistent| == |next.At(k).persistent.Keys|;
      assert |c.At(k).persistent| == |c.At(k).persistent.Keys|;
    }
  }

  lemma KeepsTransitive(a: Configs, b: Configs, c: Configs)
    requires KeepsDevices(a, b) && KeepsDevices(b, c)
    ensures KeepsDevices(a, c)
    ensures KeepsOptions(a, b) && KeepsOptions(b, c) ==> KeepsOptions(a, c)
  {
  }

  /** Every earlier entry survives, the two kinds of tables stay in step, and every candidate ends as one new entry or
      among the failed ones. */
  lemma {:induction false} DetectAllAdds(lab: Lab, c: Configs, todo: seq<Candidate>)
    ensures var after := DetectAll(lab, c, todo);
            && KeepsDevices(c, after)
            && (Coupled(c) ==> Coupled(after) && KeepsOptions(c, after))
            && Entries(after) + |Failed(lab, c, todo)| == Entries(c) + |todo|
    decreases |todo|
  {
    if todo != [] {
      var next := DetectOne(lab, c, todo[0].0, todo[0].1).0;
      DetectOneAdds(lab, c, todo[0].0, todo[0].1);
      DetectAllAdds(lab, next, todo[1..]);
      KeepsTransitive(c, next, DetectAll(lab, next, todo[1..]));
    }
  }

  /** The candidate has an entry with the properties read from it. */
  ghost predicate HasEntry(lab: Lab, before: Configs, after: Configs, cls: DeviceClass, con: string) {
    var k := CategoryOf(lab, cls);
    exists name ::
      && name !in before.At(k).persistent && name in after.At(k).persistent
      && lab.extract(cls, con).Some?
      && after.At(k).persistent[name] == lab.extract(cls, con).value.0["name" := name]
  }

  /** Each candidate is accounted for: a new entry with its properties, or its connection is listed as failed. */
  lemma {:induction false} Accounted(lab: Lab, c: Configs, todo: seq<Candidate>, i: nat)
    requires i < |todo|
    ensures HasEntry(lab, c, DetectAll(lab, c, todo), todo[i].0, todo[i].1) || todo[i].1 in Failed(lab, c, todo)
    decreases |todo|
  {
    var (cls, con) := todo[0];
    var (next, name) := DetectOne(lab, c, cls, con);
    var after := DetectAll(lab, c, todo);
    DetectOneAdds(lab, c, cls, con);
    DetectAllAdds(lab, next, todo[1..]);
    if i > 0 {
      Accounted(lab, next, todo[1..], i - 1);
      assert todo[1..][i - 1] == todo[i];
      EarlierTable(lab, c, next, after, todo[i].0, todo[i].1);
    } else if name.Some? {
      var k := CategoryOf(lab, cls);
      assert name.value !in c.At(k).persistent && name.value in after.At(k).persistent;
      assert HasEntry(lab, c, after, cls, con);
    }
  }

  lemma EarlierTable(lab: Lab, c: Configs, next: Configs, after: Configs, cls: DeviceClass, con: string)
    requires KeepsDevices(c, next)
    ensures HasEntry(lab, next, after, cls, con) ==> HasEntry(lab, c, after, cls, con)
  {
  }

  // ---------------------------------------------------------------------------------------------------------------
  // Detecting again
  // ---------------------------------------------------------------------------------------------------------------

  /** The candidate adds nothing any more. */
  predicate Settled(lab: Lab, c: Configs, cls: DeviceClass, con: string) {
    DetectOne(lab, c, cls, con).1.None?
  }

  /** Once a candidate has been handled it is settled for good: with a short name, with a long name after a clash, or
      with an exception, it meets the same fate in every larger configuration. */
  lemma HandledIsSettled(lab: Lab, c: Configs, cls: DeviceClass, con: string, later: Configs)
    requires KeepsDevices(DetectOne(lab, c, cls, con).0, later)
    ensures Settled(lab, later, cls, con)
  {
    DetectOneAdds(lab, c, cls, con);
    KeepsTransitive(c, DetectOne(lab, c, cls, con).0, later);
  }

  lemma {:induction false} AllSettled(lab: Lab, c: Configs, todo: seq<Candidate>, i: nat)
    requires i < |todo|
    ensures Settled(lab, DetectAll(lab, c, todo), todo[i].0, todo[i].1)
    decreases |todo|
  {
    var next := DetectOne(lab, c, todo[0].0, todo[0].1).0;
    if i == 0 {
      DetectAllAdds(lab, next, todo[1..]);
      HandledIsSettled(lab, c, todo[0].0, todo[0].1, DetectAll(lab, c, todo));
    } else {
      AllSettled(lab, next, todo[1..], i - 1);
      assert todo[1..][i - 1] == todo[i];
    }
  }

  lemma {:induction false} SettledChangeNothing(lab: Lab, c: Configs, todo: seq<Candidate>)
    requires forall i | 0 <= i < |todo| :: Settled(lab, c, todo[i].0, todo[i].1)
    ensures DetectAll(lab, c, todo) == c
  {
    if todo != [] {
      assert Settled(lab, c, todo[0].0, todo[0].1);
      assert DetectOne(lab, c, todo[0].0, todo[0].1).0 == c;
      forall i | 0 <= i < |todo| - 1 ensures Settled(lab, c, todo[1..][i].0, todo[1..][i].1) {
        assert todo[1..][i] == todo[i + 1];
      }
      SettledChangeNothing(lab, c, todo[1..]);
    }
  }

  // ---------------------------------------------------------------------------------------------------------------
  // Connections
  // ---------------------------------------------------------------------------------------------------------------

  /** Addresses by communication type. */
  type Connections = map<string, seq<string>>

  type Visit = (string, string)

  /** The address under which a configured device is known; None when _create_known_connections raises KeyError. */
  function Identifier(k: Category, entry: Props): Option<string> {
    if "console_port_name" in entry && entry["console_port_name"] != "" then Some(entry["console_port_name"])
    else if k == Primary then
      (if "adb_serial" in entry then Some(WithoutAdbPort(entry["adb_serial"])) else None)
    else if "hub_port_name" in entry then Some(entry["hub_port_name"])
    else None
  }

  predicate Identified(k: Category, known: map<string, Props>) {
    forall n | n in known :: Identifier(k, known[n]).Some?
  }

  function Identifiers(k: Category, known: map<string, Props>): set<string> {
    set n | n in known && Identifier(k, known[n]).Some? :: Identifier(k, known[n]).value
  }

  /** A detector can be made for these configurations. */
  predicate Usable(c: Configs) {
    Identified(Primary, c.primary.persistent) && Identified(Auxiliary, c.auxiliary.persistent)
  }

  function KnownConnections(c: Configs): set<string> {
    Identifiers(Primary, c.primary.persistent) + Identifiers(Auxiliary, c.auxiliary.persistent)
  }

  function IsNew(known: set<string>): string -> bool {
    (con: string) => WithoutAdbPort(con) !in known
  }

  /** _filter_out_known_connections */
  function Unknown(known: set<string>, cons: Connections): (r: Connections)
    ensures r.Keys == cons.Keys
  {
    map t | t in cons :: Filter(IsNew(known), cons[t])
  }

  /** The order in which the connections are looked at: by type, then by address. */
  function Visits(lab: Lab, cons: Connections, types: seq<string>): seq<Visit>
    requires forall t | t in types :: t in cons
  {
    if types == [] then []
    else
      assert types[0] in types;
      Tagged(types[0], lab.sorted(cons[types[0]])) + Visits(lab, cons, types[1..])
  }

  function Tagged(t: string, addresses: seq<string>): (r: seq<Visit>)
    ensures |r| == |addresses| && forall i | 0 <= i < |addresses| :: r[i] == (t, addresses[i])
  {
    seq(|addresses|, i requires 0 <= i < |addresses| => (t, addresses[i]))
  }

  /** The connections with their classes, the first one if several match. */
  function Candidates(lab: Lab, visits: seq<Visit>): seq<Candidate> {
    if visits == [] then []
    else
      var classes := lab.identify(visits[0].0, visits[0].1);
      (if classes == [] then [] else [(classes[0], visits[0].1)]) + Candidates(lab, visits[1..])
  }

  function Unidentified(lab: Lab, visits: seq<Visit>): seq<string> {
    if visits == [] then []
    else
      (if lab.identify(visits[0].0, visits[0].1) == [] then [visits[0].1] else []) + Unidentified(lab, visits[1..])
  }

  ghost predicate ValidLab(lab: Lab) {
    && (forall s: seq<string> :: multiset(lab.sorted(s)) == multiset(s))
    && (forall s: set<string> :: forall x :: x in lab.sortedKeys(s) <==> x in s)
  }

  /** The connections a detection looks at. */
  function Considered(lab: Lab, c: Configs, cons: Connections): seq<Visit>
    requires forall t | t in lab.sortedKeys(cons.Keys) :: t in cons
  {
    Visits(lab, Unknown(KnownConnections(c), cons), lab.sortedKeys(cons.Keys))
  }

  lemma SortedMembers(lab: Lab, s: seq<string>)
    requires ValidLab(lab)
    ensures forall x :: x in lab.sorted(s) <==> x in s
  {
    assert multiset(lab.sorted(s)) == multiset(s);
    forall x ensures x in lab.sorted(s) <==> x in s {
      assert x in lab.sorted(s) <==> x in multiset(lab.sorted(s));
      assert x in s <==> x in multiset(s);
    }
  }

  lemma {:induction false} VisitsMembers(lab: Lab, cons: Connections, types: seq<string>, v: Visit)
    requires ValidLab(lab) && forall t | t in types :: t in cons
    ensures v in Visits(lab, cons, types) <==> v.0 in types && v.1 in cons[v.0]
  {
    if types != [] {
      assert types[0] in types && types == [types[0]] + types[1..];
      VisitsMembers(lab, cons, types[1..], v);
      SortedMembers(lab, cons[types[0]]);
      var addresses := lab.sorted(cons[types[0]]);
      if v.0 == types[0] && v.1 in cons[v.0] {
        var i :| 0 <= i < |addresses| && addresses[i] == v.1;
        assert Tagged(types[0], addresses)[i] == v;
      }
    }
  }

  lemma {:induction false} CandidatesMembers(lab: Lab, visits: seq<Visit>, more: seq<Visit>)
    requires forall v | v in visits :: v in more
    ensures forall x | x in Candidates(lab, visits) :: x in Candidates(lab, more)
  {
    if visits != [] {
      CandidatesMembers(lab, visits[1..], more);
      assert visits[0] in visits;
      CandidateOf(lab, more, visits[0]);
    }
  }

  lemma {:induction false} CandidateOf(lab: Lab, visits: seq<Visit>, v: Visit)
    requires v in visits
    ensures lab.identify(v.0, v.1) != [] ==> (lab.identify(v.0, v.1)[0], v.1) in Candidates(lab, visits)
  {
    if visits[0] != v { CandidateOf(lab, visits[1..], v); }
  }

  /** Every connection looked at is a candidate or unidentified. */
  lemma {:induction false} VisitsSplit(lab: Lab, visits: seq<Visit>)
    ensures |visits| == |Candidates(lab, visits)| + |Unidentified(lab, visits)|
  {
    if visits != [] { VisitsSplit(lab, visits[1..]); }
  }

  /** What was known stays known, so later detections look at fewer connections. */
  lemma KnownGrows(c: Configs, later: Configs)
    requires KeepsDevices(c, later)
    ensures KnownConnections(c) <= KnownConnections(later)
  {
    forall x | x in Identifiers(Primary, c.primary.persistent)
        ensures x in Identifiers(Primary, later.primary.persistent) {
      var n :| n in c.primary.persistent && Identifier(Primary, c.primary.persistent[n]) == Some(x);
      assert n in later.primary.persistent;
    }
    forall x | x in Identifiers(Auxiliary, c.auxiliary.persistent)
      ensures x in Identifiers(Auxiliary, later.auxiliary.persistent)
    {
      var n :| n in c.auxiliary.persistent && Identifier(Auxiliary, c.auxiliary.persistent[n]) == Some(x);
      assert n in later.auxiliary.persistent;
    }
  }

  lemma FewerConsidered(lab: Lab, c: Configs, later: Configs, cons: Connections)
    requires ValidLab(lab) && KeepsDevices(c, later)
    ensures forall v | v in Considered(lab, later, cons) :: v in Considered(lab, c, cons)
  {
    KnownGrows(c, later);
    var types := lab.sortedKeys(cons.Keys);
    forall v | v in Considered(lab, later, cons) ensures v in Considered(lab, c, cons) {
      VisitsMembers(lab, Unknown(KnownConnections(later), cons), types, v);
      VisitsMembers(lab, Unknown(KnownConnections(c), cons), types, v);
      FilterMembers(IsNew(KnownConnections(later)), cons[v.0]);
      FilterMembers(IsNew(KnownConnections(c)), cons[v.0]);
    }
  }

  /** detect_new_devices, as a function of the configurations. */
  function Detect(lab: Lab, c: Configs, cons: Connections): Configs
    requires forall t | t in lab.sortedKeys(cons.Keys) :: t in cons
  {
    DetectAll(lab, c, Candidates(lab, Considered(lab, c, cons)))
  }

  /** The connections reported as not detected. */
  function NotDetected(lab: Lab, c: Configs, cons: Connections): seq<string>
    requires forall t | t in lab.sortedKeys(cons.Keys) :: t in cons
  {
    var visits := Considered(lab, c, cons);
    Unidentified(lab, visits) + Failed(lab, c, Candidates(lab, visits))
  }

  /** Detecting again on the same connections and the resulting configurations changes nothing, whatever names clashed
      and whatever addresses the filter let through. */
  lemma DetectionIsIdempotent(lab: Lab, c: Configs, cons: Connections)
    requires ValidLab(lab)
    ensures Detect(lab, Detect(lab, c, cons), cons) == Detect(lab, c, cons)
  {
    var after := Detect(lab, c, cons);
    var first, second := Candidates(lab, Considered(lab, c, cons)), Candidates(lab, Considered(lab, after, cons));
    DetectAllAdds(lab, c, first);
    FewerConsidered(lab, c, after, cons);
    CandidatesMembers(lab, Considered(lab, after, cons), Considered(lab, c, cons));
    forall i | 0 <= i < |second| ensures Settled(lab, after, second[i].0, second[i].1) {
      assert second[i] in second;
      var j :| 0 <= j < |first| && first[j] == second[i];
      AllSettled(lab, c, first, j);
    }
    SettledChangeNothing(lab, after, second);
  }

  /** Detection only adds, keeps the tables in step, and every connection that is not known ends as a new entry or in
      the list of those not detected. */
  lemma DetectionAccounts(lab: Lab, c: Configs, cons: Connections)
    requires ValidLab(lab)
    ensures var after := Detect(lab, c, cons);
            && KeepsDevices(c, after)
            && (Coupled(c) ==> Coupled(after) && KeepsOptions(c, after))
            && Entries(after) - Entries(c) + |NotDetected(lab, c, cons)| == |Considered(lab, c, cons)|
            && forall v | v in Considered(lab, c, cons) ::
                 v.1 in NotDetected(lab, c, cons)
                 || (lab.identify(v.0, v.1) != [] && HasEntry(lab, c, after, lab.identify(v.0, v.1)[0], v.1))
  {
    var visits := Considered(lab, c, cons);
    var todo := Candidates(lab, visits);
    DetectAllAdds(lab, c, todo);
    VisitsSplit(lab, visits);
    forall v | v in visits
      ensures v.1 in NotDetected(lab, c, cons)
              || (lab.identify(v.0, v.1) != []
                  && HasEntry(lab, c, Detect(lab, c, cons), lab.identify(v.0, v.1)[0], v.1))
    {
      if lab.identify(v.0, v.1) == [] {
        UnidentifiedOf(lab, visits, v);
      } else {
        CandidateOf(lab, visits, v);
        var i :| 0 <= i < |todo| && todo[i] == (lab.identify(v.0, v.1)[0], v.1);
        Accounted(lab, c, todo, i);
      }
    }
  }

  lemma {:induction false} UnidentifiedOf(lab: Lab, visits: seq<Visit>, v: Visit)
    requires v in visits && lab.identify(v.0, v.1) == []
    ensures v.1 in Unidentified(lab, visits)
  {
    if visits[0] != v { UnidentifiedOf(lab, visits[1..], v); }
  }
}
