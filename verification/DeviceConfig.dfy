/** Validation of a configuration, and what an accepted one guarantees to the handlers that use it. */
module DeviceConfig {
  import opened Basics
  import opened DataConversion
  import opened RegisterAddress
  import SG = SignalGroups
  import StreamScheduler

  datatype Device = Device(id: string, byteOrder: ByteOrder, signalGroups: seq<SG.SignalGroup>)

  datatype Config = Config(devices: seq<Device>, streams: seq<StreamScheduler.StreamConfig>)

  datatype ConfigError =
    | DuplicateDeviceId(id: string)
    | InvalidAddressFormat(device: string, group: string, address: string)
    | AddressOutOfRange(device: string, group: string, num: nat)
    | SignalGroupValidation(device: string, group: string)
    | StreamConfigValidation(intervalMs: nat)

  /** `Panics` is a panic of the validation itself. */
  datatype Outcome = Ok | Err(error: ConfigError) | Panics

  // ---------------------------------------------------------------- what is accepted

  predicate GroupOk(g: SG.SignalGroup) {
    AddressVerdict(g.address) == Accepted && SG.Valid(g)
  }

  predicate DeviceOk(d: Device) {
    forall k :: 0 <= k < |d.signalGroups| ==> GroupOk(d.signalGroups[k])
  }

  predicate StreamOk(s: StreamScheduler.StreamConfig) {
    5 <= s.pollIntervalMs <= 5000
  }

  predicate UniqueIds(devices: seq<Device>) {
    forall i, j :: 0 <= i < j < |devices| ==> devices[i].id != devices[j].id
  }

  predicate ConfigOk(c: Config) {
    && UniqueIds(c.devices)
    && (forall i :: 0 <= i < |c.devices| ==> DeviceOk(c.devices[i]))
    && (forall i :: 0 <= i < |c.streams| ==> StreamOk(c.streams[i]))
  }

  // ---------------------------------------------------------------- the first fault decides

  /** Validation gets to device `d` with nothing to complain of before it. */
  ghost predicate ReachesDevice(c: Config, d: nat) {
    d <= |c.devices| && UniqueIds(c.devices[..d]) && forall i :: 0 <= i < d ==> DeviceOk(c.devices[i])
  }

  /** The id of device `d` was seen before. */
  predicate IsDuplicate(c: Config, d: nat)
    requires d < |c.devices|
  {
    exists i :: 0 <= i < d && c.devices[i].id == c.devices[d].id
  }

  /** And to its group `k`. */
  ghost predicate ReachesGroup(c: Config, d: nat, k: nat) {
    && d < |c.devices| && ReachesDevice(c, d) && !IsDuplicate(c, d)
    && k < |c.devices[d].signalGroups| && forall j :: 0 <= j < k ==> GroupOk(c.devices[d].signalGroups[j])
  }

  /** And to stream `i`. */
  ghost predicate ReachesStream(c: Config, i: nat) {
    ReachesDevice(c, |c.devices|) && i < |c.streams| && forall j :: 0 <= j < i ==> StreamOk(c.streams[j])
  }

  /** How validation ends at a group of a device. */
  function GroupOutcome(device: Device, g: SG.SignalGroup): Outcome {
    match AddressVerdict(g.address)
    case BadFormat => Err(InvalidAddressFormat(device.id, g.name, Trim(g.address)))
    case OutOfRange(num) => Err(AddressOutOfRange(device.id, g.name, num))
    case SliceCrash => Panics
    case Accepted => if SG.Valid(g) then Ok else Err(SignalGroupValidation(device.id, g.name))
  }

  /** The group that decides, if a group does. */
  ghost predicate FaultAtGroup(c: Config, d: nat, k: nat, r: Outcome) {
    ReachesGroup(c, d, k) && r == GroupOutcome(c.devices[d], c.devices[d].signalGroups[k]) && !r.Ok?
  }

  ghost predicate FaultAtDevice(c: Config, d: nat, r: Outcome) {
    d < |c.devices| && ReachesDevice(c, d) && IsDuplicate(c, d) && r == Err(DuplicateDeviceId(c.devices[d].id))
  }

  ghost predicate FaultAtStream(c: Config, i: nat, r: Outcome) {
    ReachesStream(c, i) && !StreamOk(c.streams[i]) && r == Err(StreamConfigValidation(c.streams[i].pollIntervalMs))
  }

  /** The outcome is that of the first fault in the order in which validation looks. */
  ghost predicate FirstFault(c: Config, r: Outcome) {
    || (r.Ok? && ConfigOk(c))
    || (exists d: nat :: FaultAtDevice(c, d, r))
    || (exists d: nat, k: nat :: FaultAtGroup(c, d, k, r))
    || (exists i: nat :: FaultAtStream(c, i, r))
  }

  lemma GroupOutcomeOk(device: Device, g: SG.SignalGroup)
    ensures GroupOutcome(device, g).Ok? <==> GroupOk(g)
    ensures GroupOutcome(device, g).Panics? <==> AddressVerdict(g.address) == SliceCrash
  {
    hide AddressVerdict, SG.Valid, Trim;
  }

  /** The outcome in terms of how the address is written. */
  lemma GroupOutcomeIs(device: Device, g: SG.SignalGroup, n: nat)
    ensures GroupOutcome(device, g) == Err(AddressOutOfRange(device.id, g.name, n)) <==>
      0xFFFF < n <= 0xFFFF_FFFF && exists t: RegisterType :: Prefixed(g.address, t, n)
    ensures GroupOutcome(device, g) == Panics <==> BeginsWide(g.address)
    ensures (exists t: RegisterType, m: nat :: Prefixed(g.address, t, m) && m <= 0xFFFF) ==>
      GroupOutcome(device, g) == if SG.Valid(g) then Ok else Err(SignalGroupValidation(device.id, g.name))
    ensures !BeginsWide(g.address)
            && !(exists t: RegisterType, m: nat :: Prefixed(g.address, t, m) && m <= 0xFFFF_FFFF) ==>
      exists body: string :: Holds(g.address, body)
                             && GroupOutcome(device, g) == Err(InvalidAddressFormat(device.id, g.name, body))
  {
    hide AddressVerdict, Prefixed, BeginsWide, Holds, Trim, SG.Valid;
    VerdictExactly(g.address, n);
    TrimLeaves(g.address);
    match AddressVerdict(g.address)
    case OutOfRange(m) => VerdictExactly(g.address, m);
    case _ =>
  }

  method CheckGroup(device: Device, group: SG.SignalGroup) returns (r: Outcome)
    ensures r == GroupOutcome(device, group)
    ensures r.Ok? <==> GroupOk(group)
    ensures r.Err? ==> !r.error.StreamConfigValidation? && !r.error.DuplicateDeviceId?
  {
    hide AddressVerdict, Trim, SG.Valid;
    match AddressVerdict(group.address) {
      case BadFormat => return Err(InvalidAddressFormat(device.id, group.name, Trim(group.address)));
      case OutOfRange(num) => return Err(AddressOutOfRange(device.id, group.name, num));
      case SliceCrash => return Panics;
      case Accepted =>
        var ok := SG.ValidateGroup(group);
        r := if ok then Ok else Err(SignalGroupValidation(device.id, group.name));
    }
  }

  /** Accepts exactly the configurations with distinct device ids whose groups and streams are all fine; otherwise
      the first fault decides. */
  method Validate(c: Config) returns (r: Outcome)
    ensures r.Ok? <==> ConfigOk(c)
    ensures FirstFault(c, r)
    ensures r.Ok? ==> forall i :: 0 <= i < |c.streams| ==> 5 <= c.streams[i].pollIntervalMs <= 5000
    ensures r.Err? && r.error.StreamConfigValidation? ==> !(5 <= r.error.intervalMs <= 5000)
  {
    hide GroupOk, GroupOutcome, StreamOk;
    var seenIds: set<string> := {};
    var d := 0;
    while d < |c.devices|
      invariant 0 <= d <= |c.devices| && ReachesDevice(c, d)
      invariant seenIds == set i | 0 <= i < d :: c.devices[i].id
    {
      var device := c.devices[d];
      if device.id in seenIds {
        r := Err(DuplicateDeviceId(device.id));
        assert FaultAtDevice(c, d, r);
        return;
      }
      seenIds := seenIds + {device.id};
      var k := 0;
      while k < |device.signalGroups|
        invariant 0 <= k <= |device.signalGroups|
        invariant forall i :: 0 <= i < k ==> GroupOk(device.signalGroups[i])
      {
        r := CheckGroup(device, device.signalGroups[k]);
        if !r.Ok? {
          assert FaultAtGroup(c, d, k, r);
          return;
        }
        k := k + 1;
      }
      d := d + 1;
    }
    assert c.devices[..d] == c.devices;
    var s := 0;
    while s < |c.streams|
      invariant 0 <= s <= |c.streams|
      invariant forall i :: 0 <= i < s ==> StreamOk(c.streams[i]) && 5 <= c.streams[i].pollIntervalMs <= 5000
    {
      var interval := c.streams[s].pollIntervalMs;
      StreamOkIs(c.streams[s]);
      if interval < 5 || interval > 5000 {
        r := Err(StreamConfigValidation(interval));
        assert FaultAtStream(c, s, r);
        return;
      }
      s := s + 1;
    }
    r := Ok;
  }

  /** Where validation stops is determined: a fault that it reaches keeps it from every other. */
  lemma ReachedGroupIsUnique(c: Config, d1: nat, k1: nat, r1: Outcome, d2: nat, k2: nat, r2: Outcome)
    requires FaultAtGroup(c, d1, k1, r1) && FaultAtGroup(c, d2, k2, r2)
    ensures d1 == d2 && k1 == k2 && r1 == r2
  {
    hide GroupOk, GroupOutcome, ReachesDevice;
    FaultyGroupStops(c, d1, k1, r1, d2);
    FaultyGroupStops(c, d2, k2, r2, d1);
    GroupOutcomeOk(c.devices[d1], c.devices[d1].signalGroups[k1]);
    GroupOutcomeOk(c.devices[d2], c.devices[d2].signalGroups[k2]);
  }

  /** A faulty group keeps validation from every later device and from the streams. */
  lemma FaultyGroupStops(c: Config, d: nat, k: nat, r: Outcome, e: nat)
    requires FaultAtGroup(c, d, k, r) && ReachesDevice(c, e)
    ensures e <= d
  {
    hide GroupOk, GroupOutcome, ReachesDevice;
    GroupOutcomeOk(c.devices[d], c.devices[d].signalGroups[k]);
    if d < e { PassedGroupIsOk(c, e, d, k); }
  }

  lemma PassedGroupIsOk(c: Config, e: nat, d: nat, k: nat)
    requires ReachesDevice(c, e) && d < e && d < |c.devices| && k < |c.devices[d].signalGroups|
    ensures GroupOk(c.devices[d].signalGroups[k])
  {
    hide GroupOk;
    assert DeviceOk(c.devices[d]);
  }

  /** A repeated id keeps it from the groups of its device and from all that follows. */
  lemma DuplicateStops(c: Config, d: nat, r: Outcome, e: nat)
    requires FaultAtDevice(c, d, r) && ReachesDevice(c, e)
    ensures e <= d
  {
    hide DeviceOk;
    if d < e { RepeatedIsNotUnique(c.devices[..e], d); }
  }

  lemma RepeatedIsNotUnique(devices: seq<Device>, d: nat)
    requires d < |devices| && exists i :: 0 <= i < d && devices[i].id == devices[d].id
    ensures !UniqueIds(devices)
  {
    var i :| 0 <= i < d && devices[i].id == devices[d].id;
  }

  /** There is one first fault. */
  lemma FirstFaultIsUnique(c: Config, r1: Outcome, r2: Outcome)
    requires FirstFault(c, r1) && FirstFault(c, r2)
    ensures r1 == r2
  {
    hide FaultAtDevice, FaultAtGroup, FaultAtStream, ConfigOk;
    if d1: nat :| FaultAtDevice(c, d1, r1) {
      DeviceFaultDecides(c, d1, r1, r2);
    } else if d2: nat :| FaultAtDevice(c, d2, r2) {
      DeviceFaultDecides(c, d2, r2, r1);
    } else if d1: nat, k1: nat :| FaultAtGroup(c, d1, k1, r1) {
      GroupFaultDecides(c, d1, k1, r1, r2);
    } else if d2: nat, k2: nat :| FaultAtGroup(c, d2, k2, r2) {
      GroupFaultDecides(c, d2, k2, r2, r1);
    } else {
      StreamFaultDecides(c, r1, r2);
    }
  }

  lemma AcceptedReachesAll(c: Config)
    requires ConfigOk(c)
    ensures ReachesDevice(c, |c.devices|)
  {
    assert c.devices[..|c.devices|] == c.devices;
  }

  lemma DeviceFaultDecides(c: Config, d: nat, r1: Outcome, r2: Outcome)
    requires FaultAtDevice(c, d, r1) && FirstFault(c, r2)
    ensures r1 == r2
  {
    hide DeviceOk, GroupOk, GroupOutcome, StreamOk;
    if r2.Ok? && ConfigOk(c) {
      AcceptedReachesAll(c);
      DuplicateStops(c, d, r1, |c.devices|);
    } else if e: nat :| FaultAtDevice(c, e, r2) {
      DuplicateStops(c, d, r1, e);
      DuplicateStops(c, e, r2, d);
    } else if e: nat, k: nat :| FaultAtGroup(c, e, k, r2) {
      DuplicateStops(c, d, r1, e);
      FaultyGroupStops(c, e, k, r2, d);
    } else {
      DuplicateStops(c, d, r1, |c.devices|);
    }
  }

  lemma GroupFaultDecides(c: Config, d: nat, k: nat, r1: Outcome, r2: Outcome)
    requires FaultAtGroup(c, d, k, r1) && FirstFault(c, r2) && !(exists e: nat :: FaultAtDevice(c, e, r2))
    ensures r1 == r2
  {
    hide DeviceOk, GroupOk, GroupOutcome, StreamOk, FaultAtDevice;
    if r2.Ok? && ConfigOk(c) {
      AcceptedReachesAll(c);
      FaultyGroupStops(c, d, k, r1, |c.devices|);
    } else if e: nat, j: nat :| FaultAtGroup(c, e, j, r2) {
      ReachedGroupIsUnique(c, d, k, r1, e, j, r2);
    } else {
      FaultyGroupStops(c, d, k, r1, |c.devices|);
    }
  }

  lemma StreamFaultDecides(c: Config, r1: Outcome, r2: Outcome)
    requires FirstFault(c, r1) && FirstFault(c, r2)
    requires !(exists d: nat :: FaultAtDevice(c, d, r1)) && !(exists d: nat :: FaultAtDevice(c, d, r2))
    requires !(exists d: nat, k: nat :: FaultAtGroup(c, d, k, r1))
    requires !(exists d: nat, k: nat :: FaultAtGroup(c, d, k, r2))
    ensures r1 == r2
  {
    hide FaultAtDevice, FaultAtGroup, ReachesDevice, DeviceOk;
    if i: nat :| FaultAtStream(c, i, r1) {
      if j: nat :| FaultAtStream(c, j, r2) {}
    }
  }

  /** The first fault is a group whose address begins with a character of several bytes. */
  ghost predicate CutsCharacter(c: Config, d: nat, k: nat) {
    && ReachesGroup(c, d, k)
    && var s := Trim(c.devices[d].signalGroups[k].address);
       s != "" && Width(s[0]) > 1
  }

  lemma CutIsFault(c: Config, d: nat, k: nat)
    ensures CutsCharacter(c, d, k) <==> FaultAtGroup(c, d, k, Panics)
  {
    hide GroupOk, GroupOutcome, Trim, ReachesDevice;
    if ReachesGroup(c, d, k) {
      GroupOutcomeOk(c.devices[d], c.devices[d].signalGroups[k]);
      SliceCrashExactly(c.devices[d].signalGroups[k].address);
    }
  }

  /** Validation panics exactly when it gets to such a group. */
  lemma PanicsExactly(c: Config, r: Outcome)
    requires FirstFault(c, r)
    ensures r.Panics? <==> exists d: nat, k: nat :: CutsCharacter(c, d, k)
  {
    hide CutsCharacter, FaultAtGroup, ConfigOk;
    if r.Panics? {
      var d: nat, k: nat :| FaultAtGroup(c, d, k, r);
      CutIsFault(c, d, k);
    }
    if d: nat, k: nat :| CutsCharacter(c, d, k) {
      CutIsFault(c, d, k);
      FirstFaultIsUnique(c, r, Panics);
    }
  }

  lemma StreamOkIs(s: StreamScheduler.StreamConfig)
    ensures StreamOk(s) <==> !(s.pollIntervalMs < 5 || s.pollIntervalMs > 5000)
  {}

  // ---------------------------------------------------------------- what that guarantees

  /** The address of every accepted group is a letter and a numeral, and is parsed to the type and the number; and
      the encoder's writes stay inside the group and a full read skips no field, except where a sum of 16 bits was
      saturated in a group of the largest size. */
  lemma AcceptedConfigIsExecutable(c: Config, d: nat, k: nat)
    requires ConfigOk(c) && d < |c.devices| && k < |c.devices[d].signalGroups|
    ensures var g := c.devices[d].signalGroups[k];
      && ParseRegisterAddress(g.address).Some?
      && Prefixed(g.address, ParseRegisterAddress(g.address).value.0, ParseRegisterAddress(g.address).value.1)
      && (SG.AllEndInside(g) <==>
            !(g.registerCount == 0xFFFF && exists i :: 0 <= i < |g.fields| && SG.End(g.fields[i]) > 0xFFFF))
  {
    hide AddressVerdict, ParseRegisterAddress, ParseUnsigned, Trim, TypeOf, Prefixed;
    assert DeviceOk(c.devices[d]);
    var g := c.devices[d].signalGroups[k];
    assert GroupOk(g);
    AcceptedIsParsed(g.address);
    SG.ValidEndsInside(g);
  }
}
