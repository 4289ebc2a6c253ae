/** The manager's dictionary of open devices, and the device instances that callers share. */
module OpenDevices {
  import opened Common

  /** How make_device_ready ends for a new instance. */
  datatype ReadyOutcome = Ready | DeviceError | OtherError

  datatype CreateError = AlreadyOpen | NotReady | Foreign

  /** A device instance. Auxiliary devices count their users; `cleanups` counts the runs of the cleanup. */
  class Device {
    const manager: Manager
    const name: string
    const auxiliary: bool
    var userCount: nat
    var cleanups: nat

    constructor (manager: Manager, name: string, auxiliary: bool)
      ensures this.manager == manager && this.name == name && this.auxiliary == auxiliary
      ensures userCount == 1 && cleanups == 0
    {
      this.manager, this.name, this.auxiliary := manager, name, auxiliary;
      userCount, cleanups := 1, 0;
    }

    /** AuxiliaryDevice.increment_user_count */
    method IncrementUserCount()
      modifies this`userCount
      ensures userCount == old(userCount) + 1
    {
      userCount := userCount + 1;
    }

    /** The cleanup proper: resets the capabilities and takes the device's name out of the manager's dictionary, whoever
        is registered under it. */
    method Cleanup()
      modifies this`cleanups, manager`open
      ensures cleanups == old(cleanups) + 1
      ensures manager.open == old(manager.open) - {name}
    {
      cleanups := cleanups + 1;
      if name in manager.open {
        manager.open := manager.open - {name};
      }
      assert name !in old(manager.open) ==> old(manager.open) - {name} == old(manager.open);
    }

    /** close: AuxiliaryDevice.close for auxiliary devices, GazooDeviceBase.close for the others, which have no force
        argument. */
    method Close(force: bool)
      modifies this`userCount, this`cleanups, manager`open
      ensures userCount == if !auxiliary then old(userCount) else if force || old(userCount) == 0 then 0
                           else old(userCount) - 1
      ensures var cleans := !auxiliary || force || old(userCount) == 1;
              && cleanups == old(cleanups) + (if cleans then 1 else 0)
              && manager.open == if cleans then old(manager.open) - {name} else old(manager.open)
    {
      if !auxiliary {
        Cleanup();
      } else if force {
        userCount := 0;
        Cleanup();
      } else {
        var runCleanup := userCount == 1;
        if userCount > 0 {
          userCount := userCount - 1;
        }
        if runCleanup {
          Cleanup();
        }
      }
    }
  }

  /** The manager; `isAuxiliary` tells the category of a configured name. */
  class Manager {
    const isAuxiliary: string -> bool
    var open: map<string, Device>
    ghost var created: set<Device>     // every instance ever created

    ghost predicate Valid()
      reads this, created
    {
      && (forall n | n in open :: open[n] in created && open[n].name == n)
      && (forall d | d in created :: Counted(d))
    }

    /** The instance belongs here; an auxiliary one is registered exactly while it has users, and has been cleaned up
        exactly once when it has none. */
    ghost predicate Counted(d: Device)
      reads this, d
    {
      && d.manager == this && d.auxiliary == isAuxiliary(d.name)
      && (d.auxiliary ==>
            && (d.userCount >= 1 <==> d.name in open && open[d.name] == d)
            && d.cleanups == if d.userCount >= 1 then 0 else 1)
    }

    /** The open names with their user counts; 1 for a device that does not count. */
    ghost function Users(): map<string, nat>
      reads this, open.Values
    {
      UsersOf(open)
    }

    constructor (isAuxiliary: string -> bool)
      ensures this.isAuxiliary == isAuxiliary && open == map[] && created == {} && Valid()
    {
      this.isAuxiliary, open, created := isAuxiliary, map[], {};
    }

    /** An unforced close of any instance ever created. */
    method CloseInstance(d: Device)
      requires Valid() && d in created
      modifies this`open, d
      ensures Valid()
      ensures d.auxiliary && old(d.userCount) == 0 ==>
                open == old(open) && d.userCount == 0 && d.cleanups == old(d.cleanups)
      ensures d.auxiliary && old(d.userCount) > 1 ==> open == old(open) && d.userCount == old(d.userCount) - 1
      ensures d.auxiliary && old(d.userCount) == 1 ==> open == old(open) - {d.name} && d.userCount == 0
      ensures !d.auxiliary ==> open == old(open) - {d.name}
    {
      d.Close(false);
    }

    /** The close at the end of a with block: one user less, or one open device less. */
    method CloseAgain(d: Device)
      requires Valid() && d in created
      modifies this`open, d
      ensures Valid()
      ensures d.name in old(open) && old(open)[d.name] == d ==>
                if d.auxiliary && old(Users())[d.name] > 1 then
                  open == old(open) && Users() == old(Users())[d.name := old(Users())[d.name] - 1]
                else
                  open == old(open) - {d.name} && Users() == old(Users()) - {d.name}
    {
      CloseInstance(d);
    }

    /** create_device, for a known device name. */
    method CreateDevice(name: string, raiseIfAlreadyOpen: bool, outcome: ReadyOutcome)
      returns (r: Result<Device, CreateError>)
      requires Valid()
      modifies this, open.Values
      ensures Valid() && old(created) <= created && fresh(created - old(created))
      ensures r.Success? ==> r.value in created && name in open && open[name] == r.value
      ensures name in old(open) && isAuxiliary(name) ==>
                && r == Success(old(open[name])) && open == old(open) && created == old(created)
                && Users() == old(Users())[name := old(Users())[name] + 1]
      ensures name in old(open) && !isAuxiliary(name) ==>
                && r == (if raiseIfAlreadyOpen then Failure(AlreadyOpen) else Success(old(open[name])))
                && open == old(open) && Users() == old(Users())
      ensures name !in old(open) && r.Success? ==> open == old(open)[name := r.value]
      ensures name !in old(open) && outcome == DeviceError ==> open == old(open)
      ensures name !in old(open) && outcome == OtherError ==> name in open && open - {name} == old(open)
      ensures name !in old(open) ==>
                && Users() == (if outcome == DeviceError then old(Users()) else old(Users())[name := 1])
                && (outcome == Ready <==> r.Success?) && (outcome == DeviceError ==> r == Failure(NotReady))
                && (r.Success? ==> fresh(r.value))
    {
      if name in open {
        r := ReuseInstance(name, raiseIfAlreadyOpen);
      } else {
        r := NewInstance(name, outcome);
      }
    }

    /** The branch of create_device for a name that is open. */
    method ReuseInstance(name: string, raiseIfAlreadyOpen: bool) returns (r: Result<Device, CreateError>)
      requires Valid() && name in open
      modifies open.Values
      ensures Valid()
      ensures open == old(open)
      ensures isAuxiliary(name) ==> r == Success(open[name]) && Users() == old(Users())[name := old(Users())[name] + 1]
      ensures !isAuxiliary(name) ==>
                && r == (if raiseIfAlreadyOpen then Failure(AlreadyOpen) else Success(open[name]))
                && Users() == old(Users())
    {
      var d := open[name];
      if !isAuxiliary(name) {
        return if raiseIfAlreadyOpen then Failure(AlreadyOpen) else Success(d);
      }
      d.IncrementUserCount();
      r := Success(d);
    }

    /** _get_device_class: makes an instance and registers it under its name. */
    method Register(name: string) returns (d: Device)
      requires Valid() && name !in open
      modifies this`open, this`created
      ensures Valid() && fresh(d) && created == old(created) + {d} && open == old(open)[name := d]
      ensures d.name == name && d.userCount == 1
    {
      d := new Device(this, name, isAuxiliary(name));
      open := open[name := d];
      created := created + {d};
    }

    /** The rest of create_device: the new instance is closed again if it does not become ready because of a
        DeviceError; any other exception leaves it open. */
    method NewInstance(name: string, outcome: ReadyOutcome) returns (r: Result<Device, CreateError>)
      requires Valid() && name !in open
      modifies this`open, this`created
      ensures Valid() && old(created) <= created && fresh(created - old(created))
      ensures r.Success? ==> fresh(r.value) && r.value in created && open == old(open)[name := r.value]
      ensures outcome == DeviceError ==> open == old(open)
      ensures outcome == OtherError ==> name in open && open - {name} == old(open)
      ensures Users() == if outcome == DeviceError then old(Users()) else old(Users())[name := 1]
      ensures (outcome == Ready <==> r.Success?) && (outcome == DeviceError ==> r == Failure(NotReady))
    {
      ghost var before := open;
      var d := Register(name);
      match outcome {
        case Ready => r := Success(d);
        case DeviceError =>
          CloseInstance(d);
          assert open == before;
          r := Failure(NotReady);
        case OtherError =>
          assert open - {name} == before;
          r := Failure(Foreign);
      }
      UsersKept(before);
      if outcome != DeviceError {
        UsersMore(before, name, d);
      }
    }

    // -------------------------------------------------------------------------------------------------------------
    // close_open_devices
    // -------------------------------------------------------------------------------------------------------------

    /** The first loop of close_open_devices: every open device is closed once. What stays open counts its users. */
    method CloseEach()
      requires Valid()
      modifies this`open, open.Values
      ensures Valid() && created == old(created)
      ensures open.Values <= old(open.Values)
      ensures forall n | n in open :: open[n].auxiliary
    {
      var todo := open.Values;
      while todo != {}
        invariant Valid() && created == old(created)
        invariant todo <= old(open.Values) && open.Values <= old(open.Values)
        invariant forall d | d in todo :: d in created && d.name in open && open[d.name] == d
        invariant forall n | n in open :: open[n].auxiliary || open[n] in todo
        decreases |todo|
      {
        var d :| d in todo;
        CloseInstance(d);
        todo := todo - {d};
      }
    }

    /** close(force=True) of an open auxiliary device. */
    method ForceClose(d: Device)
      requires Valid() && d in created && d.auxiliary && d.name in open && open[d.name] == d
      modifies this`open, d
      ensures Valid() && open == old(open) - {d.name}
    {
      d.Close(true);
    }

    /** The second loop: the rest is closed whatever the user counts. */
    method ForceCloseEach()
      requires Valid() && forall n | n in open :: open[n].auxiliary
      modifies this`open, open.Values
      ensures Valid() && created == old(created) && open == map[]
    {
      var todo := open.Values;
      while todo != {}
        invariant Valid() && created == old(created)
        invariant todo <= old(open.Values)
        invariant forall d | d in todo :: d in created && d.auxiliary && d.name in open && open[d.name] == d
        invariant forall n | n in open :: open[n] in todo
        decreases |todo|
      {
        var d :| d in todo;
        ForceClose(d);
        todo := todo - {d};
      }
      assert open.Keys == {};
    }

    /** close_open_devices: leaves nothing open, from every reachable state. */
    method CloseOpenDevices()
      requires Valid()
      modifies this`open, open.Values
      ensures Valid() && created == old(created) && open == map[]
    {
      CloseEach();
      if open != map[] {
        ForceCloseEach();
      }
    }

    // -------------------------------------------------------------------------------------------------------------
    // Programs of users
    // -------------------------------------------------------------------------------------------------------------

    /** Any sequence of create_device and unforced close calls, on handles from before and from the calls: the counts
        stay right. */
    method RunCalls(calls: seq<Call>, known: seq<Device>) returns (handles: seq<Device>)
      requires Valid() && forall d | d in known :: d in created
      modifies this, created
      ensures Valid() && old(created) <= created && fresh(created - old(created))
      ensures forall d | d in handles :: d in created
    {
      handles := known;
      for i := 0 to |calls|
        invariant Valid() && old(created) <= created && fresh(created - old(created))
        invariant forall d | d in handles :: d in created
      {
        match calls[i] {
          case Create(name, raise, outcome) =>
            var r := CreateDevice(name, raise, outcome);
            if r.Success? {
              handles := handles + [r.value];
            }
          case Close(h) =>
            if h < |handles| {
              assert handles[h] in handles;
              CloseInstance(handles[h]);
            }
        }
      }
    }

    /** The beginning of a with block: the create_device call. */
    method EnterBlock(name: string, raise: bool, outcome: ReadyOutcome) returns (r: Result<Device, CreateError>)
      requires Valid()
      modifies this, open.Values
      ensures Valid() && old(created) <= created && fresh(created - old(created))
      ensures r.Success? <==> Enters(isAuxiliary, name, raise, outcome, old(open.Keys))
      ensures r.Success? ==>
                && r.value in created && r.value.name == name && open.Keys == old(open.Keys) + {name}
                && Entered(name, r.value, isAuxiliary(name) || name !in old(open),
                           old(open), old(Users()), open, Users())
      ensures r.Failure? ==>
                Since(LeakedAtOnce(name, outcome, old(open.Keys)), old(open), old(Users()), open, Users())
    {
      r := CreateDevice(name, raise, outcome);
      assert name in old(open) ==> open.Keys == old(open.Keys) == old(open.Keys) + {name};
    }

    /** The end of a with block undoes its beginning, whatever its body has called, if the body leaves open devices and
        user counts as it found them, or has leaked one device. */
    method LeaveBlock(name: string, d: Device, closes: bool, ghost leak: Option<string>,
                      ghost open0: map<string, Device>, ghost users0: map<string, nat>,
                      ghost open1: map<string, Device>, ghost users1: map<string, nat>)
      requires Valid() && d in created && d.name == name
      requires Entered(name, d, closes, open0, users0, open1, users1)
      modifies this`open, d
      ensures Valid()
      ensures Since(leak, open1, users1, old(open), old(Users())) ==> Since(leak, open0, users0, open, Users())
    {
      if closes {
        if Since(leak, open1, users1, open, Users()) {
          if name !in open0 {
            UndoOpen(leak, name, d, open0, users0, open, Users());
          } else {
            UndoShare(leak, name, open0, users0, open, Users());
          }
        }
        CloseAgain(d);
      }
    }

    /** `with manager.create_and_close_device(...)` blocks, nested and in sequence. `completed` is false when an
        exception ends the program. Open devices and user counts are as before, and remain so exactly when no device
        leaks; the one that does stays open with one user. */
    method Execute(p: Program) returns (completed: bool)
      requires Valid()
      modifies this, created
      ensures Valid() && old(created) <= created && fresh(created - old(created))
      ensures completed == Completes(isAuxiliary, p, old(open.Keys))
      ensures Since(Leaked(isAuxiliary, p, old(open.Keys)), old(open), old(Users()), open, Users())
      ensures open == old(open) && Users() == old(Users()) <==> Leaked(isAuxiliary, p, old(open.Keys)).None?
      decreases p, 0
    {
      match p {
        case End => completed := true;
        case Throw => completed := false;
        case With(name, raise, outcome, body, next) =>
          completed := ExecuteBlock(name, raise, outcome, body);
          if completed {
            CompletedDoesNotLeak(isAuxiliary, body, old(open.Keys) + {name});
            completed := Execute(next);
          }
      }
    }

    /** One with block. */
    method ExecuteBlock(name: string, raise: bool, outcome: ReadyOutcome, body: Program) returns (completed: bool)
      requires Valid()
      modifies this, created
      ensures Valid() && old(created) <= created && fresh(created - old(created))
      ensures completed == (Enters(isAuxiliary, name, raise, outcome, old(open.Keys))
                            && Completes(isAuxiliary, body, old(open.Keys) + {name}))
      ensures Since(if Enters(isAuxiliary, name, raise, outcome, old(open.Keys))
                    then Leaked(isAuxiliary, body, old(open.Keys) + {name})
                    else LeakedAtOnce(name, outcome, old(open.Keys)),
                    old(open), old(Users()), open, Users())
      decreases body, 1
    {
      var closes := isAuxiliary(name) || name !in open;
      var r := EnterBlock(name, raise, outcome);
      if r.Failure? {
        return false;
      }
      ghost var during, users := open, Users();
      completed := Execute(body);
      LeaveBlock(name, r.value, closes, Leaked(isAuxiliary, body, during.Keys), old(open), old(Users()), during, users);
    }
  }

  /** A call by a user of the manager; Close names one of the handles obtained so far. */
  datatype Call = Create(name: string, raiseIfAlreadyOpen: bool, outcome: ReadyOutcome) | Close(handle: nat)

  datatype Program =
    | End
    | Throw
    | With(name: string, raiseIfAlreadyOpen: bool, outcome: ReadyOutcome, body: Program, next: Program)

  /** Whether the create_device call of a with block returns, with these names open. */
  predicate Enters(isAuxiliary: string -> bool, name: string, raise: bool, outcome: ReadyOutcome, names: set<string>) {
    if name in names then isAuxiliary(name) || !raise else outcome == Ready
  }

  /** The device that a failing create_device call leaves open. */
  function LeakedAtOnce(name: string, outcome: ReadyOutcome, names: set<string>): Option<string> {
    if name !in names && outcome == OtherError then Some(name) else None
  }

  /** Whether the program comes to its end, with these names open at the beginning. */
  predicate Completes(isAuxiliary: string -> bool, p: Program, names: set<string>) {
    match p
    case End => true
    case Throw => false
    case With(name, raise, outcome, body, next) =>
      && Enters(isAuxiliary, name, raise, outcome, names)
      && Completes(isAuxiliary, body, names + {name}) && Completes(isAuxiliary, next, names)
  }

  /** The device that stays open: the first one to be opened, not merely used, whose make_device_ready raises something
      other than a DeviceError. */
  function Leaked(isAuxiliary: string -> bool, p: Program, names: set<string>): Option<string> {
    match p
    case End => None
    case Throw => None
    case With(name, raise, outcome, body, next) =>
      if !Enters(isAuxiliary, name, raise, outcome, names) then LeakedAtOnce(name, outcome, names)
      else if Completes(isAuxiliary, body, names + {name}) then Leaked(isAuxiliary, next, names)
      else Leaked(isAuxiliary, body, names + {name})
  }

  lemma {:induction false} CompletedDoesNotLeak(isAuxiliary: string -> bool, p: Program, names: set<string>)
    requires Completes(isAuxiliary, p, names)
    ensures Leaked(isAuxiliary, p, names).None?
  {
    if p.With? { CompletedDoesNotLeak(isAuxiliary, p.next, names); }
  }

  /** How a with block has changed the open devices when its body starts: it opened one, or it is one more user of an
      open one, or it uses one without counting. */
  predicate Entered(name: string, d: Device, closes: bool, open0: map<string, Device>, users0: map<string, nat>,
                    open1: map<string, Device>, users1: map<string, nat>)
  {
    if name !in open0 then
      closes && name !in users0 && open1 == open0[name := d] && users1 == users0[name := 1]
    else if closes then
      && name in users0 && users0[name] >= 1 && open0[name] == d && d.auxiliary
      && open1 == open0 && users1 == users0[name := users0[name] + 1]
    else
      open1 == open0 && users1 == users0
  }

  /** What is open now is what was open then, and the device that leaked, with one user, if one did. */
  predicate Since(leak: Option<string>, open0: map<string, Device>, users0: map<string, nat>,
                  open1: map<string, Device>, users1: map<string, nat>)
  {
    match leak
    case None => open1 == open0 && users1 == users0
    case Some(n) => n !in open0 && n in open1 && open1 - {n} == open0 && users1 == users0[n := 1]
  }

  lemma UndoOpen(leak: Option<string>, name: string, d: Device, open0: map<string, Device>, users0: map<string, nat>,
                 open2: map<string, Device>, users2: map<string, nat>)
    requires name !in open0 && name !in users0
    requires Since(leak, open0[name := d], users0[name := 1], open2, users2)
    ensures name in open2 && open2[name] == d && name in users2 && users2[name] == 1
    ensures Since(leak, open0, users0, open2 - {name}, users2 - {name})
  {
    match leak {
      case None =>
        assert open2 - {name} == open0 && users2 - {name} == users0;
      case Some(n) =>
        assert (open2 - {n})[name] == d;
        assert open2 - {name} - {n} == open2 - {n} - {name} == open0[name := d] - {name} == open0;
        assert users2 - {name} == users0[n := 1];
    }
  }

  lemma UndoShare(leak: Option<string>, name: string, open0: map<string, Device>, users0: map<string, nat>,
                  open2: map<string, Device>, users2: map<string, nat>)
    requires name in open0 && name in users0 && users0[name] >= 1
    requires Since(leak, open0, users0[name := users0[name] + 1], open2, users2)
    ensures name in open2 && open2[name] == open0[name] && name in users2 && users2[name] == users0[name] + 1
    ensures Since(leak, open0, users0, open2, users2[name := users2[name] - 1])
  {
    match leak {
      case None =>
        assert users2[name := users2[name] - 1] == users0;
      case Some(n) =>
        assert (open2 - {n})[name] == open0[name];
        assert users2[name := users2[name] - 1] == users0[n := 1];
    }
  }

  /** The user counts of a dictionary of devices. */
  ghost function UsersOf(open: map<string, Device>): map<string, nat>
    reads open.Values
  {
    map n | n in open :: if open[n].auxiliary then open[n].userCount else 1
  }

  twostate lemma UsersKept(open: map<string, Device>)
    requires forall n | n in open :: open[n].userCount == old(open[n].userCount)
    ensures UsersOf(open) == old(UsersOf(open))
  {
  }

  lemma UsersMore(open: map<string, Device>, name: string, d: Device)
    requires name !in open && (d.auxiliary ==> d.userCount == 1)
    ensures UsersOf(open[name := d]) == UsersOf(open)[name := 1]
  {
  }
}
