/** The shared table of USB/IP ports and the life cycle of virtual devices. */
module Ports {
  import opened Wrappers
  import opened DeviceLists

  const PORT_COUNT: nat := 8

  datatype Device = Device(created: bool, attached: bool, port: int, info: Option<DeviceInfo>)

  /** A device as its constructor leaves it. */
  const NEW: Device := Device(false, false, -1, None)

  // ---------- the table ----------

  /** The free ports from `from` on, lowest first. */
  function FreePorts(ports: seq<bool>, from: nat): seq<nat>
    requires from <= |ports|
    decreases |ports| - from
  {
    if from == |ports| then [] else (if ports[from] then [] else [from]) + FreePorts(ports, from + 1)
  }

  function LowestFree(ports: seq<bool>): int {
    if FreePorts(ports, 0) == [] then -1 else FreePorts(ports, 0)[0]
  }

  lemma FreePortsSplit(ports: seq<bool>, from: nat)
    requires from < |ports|
    ensures FreePorts(ports, from) == (if ports[from] then [] else [from]) + FreePorts(ports, from + 1)
  {}

  lemma InPrepended(first: seq<nat>, later: seq<nat>, q: int)
    ensures q in first + later <==> q in first || q in later
  {}

  lemma {:induction false} FreePortsMembers(ports: seq<bool>, from: nat, q: int)
    requires from <= |ports|
    ensures q in FreePorts(ports, from) <==> from <= q < |ports| && !ports[q]
    decreases |ports| - from
  {
    if from < |ports| {
      hide FreePorts;
      FreePortsSplit(ports, from);
      InPrepended(if ports[from] then [] else [from], FreePorts(ports, from + 1), q);
      FreePortsMembers(ports, from + 1, q);
    }
  }

  ghost predicate Ascending(f: seq<nat>) {
    forall i, j :: 0 <= i < j < |f| ==> f[i] < f[j]
  }

  lemma PrependKeepsAscending(p: nat, f: seq<nat>)
    requires Ascending(f) && forall i :: 0 <= i < |f| ==> p < f[i]
    ensures Ascending([p] + f)
  {}

  lemma {:induction false} FreePortsSorted(ports: seq<bool>, from: nat)
    requires from <= |ports|
    ensures Ascending(FreePorts(ports, from))
    decreases |ports| - from
  {
    if from < |ports| {
      hide FreePorts, Ascending;
      FreePortsSorted(ports, from + 1);
      FreePortsSplit(ports, from);
      var later := FreePorts(ports, from + 1);
      forall i | 0 <= i < |later|
        ensures from < later[i]
      {
        FreePortsMembers(ports, from + 1, later[i]);
      }
      PrependKeepsAscending(from, later);
      assert [] + later == later;
    }
  }

  lemma FreePortsAscend(ports: seq<bool>, from: nat)
    requires from <= |ports|
    ensures var f := FreePorts(ports, from);
            && (forall i :: 0 <= i < |f| ==> from <= f[i] < |ports| && !ports[f[i]])
            && (forall i, j :: 0 <= i < j < |f| ==> f[i] < f[j])
            && (forall p :: from <= p < |ports| && !ports[p] ==> p in f)
  {
    hide FreePorts;
    FreePortsSorted(ports, from);
    var f := FreePorts(ports, from);
    forall i | 0 <= i < |f|
      ensures from <= f[i] < |ports| && !ports[f[i]]
    {
      assert f[i] in f;
      FreePortsMembers(ports, from, f[i]);
    }
    forall p | from <= p < |ports| && !ports[p]
      ensures p in f
    {
      FreePortsMembers(ports, from, p);
    }
  }

  lemma {:induction false} FreePortsAfterTake(ports: seq<bool>, from: nat, p: nat)
    requires from <= |ports| && p < |ports| && FreePorts(ports, from) != [] && FreePorts(ports, from)[0] == p
    ensures FreePorts(ports[p := true], from) == FreePorts(ports, from)[1..]
    decreases |ports| - from
  {
    if ports[from] {
      FreePortsAfterTake(ports, from + 1, p);
    } else {
      FreePortsSame(ports, ports[p := true], from + 1);
    }
  }

  lemma {:induction false} FreePortsSame(ports: seq<bool>, others: seq<bool>, from: nat)
    requires |ports| == |others| && from <= |ports|
    requires forall q :: from <= q < |ports| ==> ports[q] == others[q]
    ensures FreePorts(ports, from) == FreePorts(others, from)
    decreases |ports| - from
  {
    if from < |ports| {
      FreePortsSame(ports, others, from + 1);
    }
  }

  // ---------- operations on one device ----------

  datatype Outcome = Outcome(ports: seq<bool>, device: Device, ok: bool)

  function CreateOn(ports: seq<bool>, d: Device, info: DeviceInfo): Outcome {
    if d.created then
      Outcome(ports, d, true)
    else
      var p := LowestFree(ports);
      if 0 <= p < |ports| then
        Outcome(ports[p := true], Device(true, d.attached, p, Some(info)), true)
      else
        Outcome(ports, d.(port := -1, info := Some(info)), false)
  }

  /** `kernel` is the outcome of the attach command. */
  function AttachOn(ports: seq<bool>, d: Device, kernel: bool): Outcome {
    if !d.created then Outcome(ports, d, false)
    else if d.attached then Outcome(ports, d, true)
    else Outcome(ports, d.(attached := kernel), kernel)
  }

  function DetachOn(ports: seq<bool>, d: Device): Outcome {
    Outcome(ports, d.(attached := false), true)
  }

  function Release(ports: seq<bool>, p: int): seq<bool> {
    if 0 <= p < |ports| then ports[p := false] else ports
  }

  function DestroyOn(ports: seq<bool>, d: Device): Outcome {
    if !d.created then Outcome(ports, d.(attached := false), true)
    else if d.port >= 0 then Outcome(Release(ports, d.port), Device(false, false, -1, d.info), true)
    else Outcome(ports, Device(false, false, d.port, d.info), true)
  }

  /** The life of a new device: it is created exactly when a port is free, on the lowest
      one; attaching does what the kernel does and detaching undoes it; destroying
      gives the table back as it was; and none of the steps does anything twice. */
  lemma LifeCycle(ports: seq<bool>, info: DeviceInfo, kernel: bool)
    ensures var c := CreateOn(ports, NEW, info);
            && (c.ok <==> exists p :: 0 <= p < |ports| && !ports[p])
            && (!c.ok ==> c.ports == ports && !c.device.created)
            && (c.ok ==>
                  var a := AttachOn(c.ports, c.device, kernel);
                  && c.device == Device(true, false, LowestFree(ports), Some(info))
                  && CreateOn(c.ports, c.device, info) == Outcome(c.ports, c.device, true)
                  && a.ports == c.ports && a.ok == a.device.attached == kernel
                  && (kernel ==> AttachOn(a.ports, a.device, false) == a)
                  && DetachOn(a.ports, a.device) == Outcome(c.ports, c.device, true)
                  && DestroyOn(a.ports, a.device) == Outcome(ports, Device(false, false, -1, Some(info)), true)
                  && DestroyOn(ports, Device(false, false, -1, Some(info))).ports == ports)
  {
    FreePortsAscend(ports, 0);
    LowestIsFree(ports);
  }

  // ---------- any number of devices ----------

  datatype World = World(ports: seq<bool>, devices: seq<Device>)

  datatype Operation =
    | New
    | Create(i: nat, info: DeviceInfo)
    | Attach(i: nat, kernel: bool)
    | Detach(i: nat)
    | Destroy(i: nat)

  function Put(w: World, i: nat, o: Outcome): World
    requires i < |w.devices|
  {
    World(o.ports, w.devices[i := o.device])
  }

  /** An operation on a device that does not exist does nothing. */
  function Apply(w: World, op: Operation): World {
    if op.New? then
      w.(devices := w.devices + [NEW])
    else if op.i >= |w.devices| then
      w
    else
      var d := w.devices[op.i];
      match op
      case Create(i, info) => Put(w, i, CreateOn(w.ports, d, info))
      case Attach(i, kernel) => Put(w, i, AttachOn(w.ports, d, kernel))
      case Detach(i) => Put(w, i, DetachOn(w.ports, d))
      case Destroy(i) => Put(w, i, DestroyOn(w.ports, d))
  }

  function ApplyAll(w: World, ops: seq<Operation>): World
    decreases |ops|
  {
    if ops == [] then w else ApplyAll(Apply(w, ops[0]), ops[1..])
  }

  /** A device's own fields agree with each other and with the table. */
  predicate DeviceOk(ports: seq<bool>, d: Device) {
    && (d.created <==> d.port >= 0)
    && (d.attached ==> d.created)
    && (d.created ==> d.port < |ports| && ports[d.port])
  }

  ghost predicate Holds(w: World, i: int, p: int) {
    0 <= i < |w.devices| && w.devices[i].created && w.devices[i].port == p
  }

  /** A port is marked used exactly when one and only one created device holds it. */
  ghost predicate Agreement(w: World) {
    && (forall i :: 0 <= i < |w.devices| ==> DeviceOk(w.ports, w.devices[i]))
    && (forall p :: 0 <= p < |w.ports| && w.ports[p] ==> exists i :: Holds(w, i, p))
    && (forall i, j, p :: Holds(w, i, p) && Holds(w, j, p) ==> i == j)
  }

  lemma LowestIsFree(ports: seq<bool>)
    ensures LowestFree(ports) == -1 || (0 <= LowestFree(ports) < |ports| && !ports[LowestFree(ports)])
    ensures forall p :: 0 <= p < |ports| && !ports[p] ==> 0 <= LowestFree(ports) <= p
  {
    FreePortsAscend(ports, 0);
    var f := FreePorts(ports, 0);
    forall p | 0 <= p < |ports| && !ports[p]
      ensures 0 <= LowestFree(ports) <= p
    {
      var i :| 0 <= i < |f| && f[i] == p;
      assert f[0] <= f[i];
    }
  }

  lemma CreateKeepsAgreement(w: World, i: nat, info: DeviceInfo)
    requires Agreement(w) && i < |w.devices|
    ensures Agreement(Put(w, i, CreateOn(w.ports, w.devices[i], info)))
  {
    LowestIsFree(w.ports);
    var w' := Put(w, i, CreateOn(w.ports, w.devices[i], info));
    if w.devices[i].created {
      assert w' == w;
      return;
    }
    forall p | 0 <= p < |w'.ports| && w'.ports[p]
      ensures exists j :: Holds(w', j, p)
    {
      if w.ports[p] {
        var j :| Holds(w, j, p);
        assert j != i;
        assert Holds(w', j, p);
      } else {
        assert Holds(w', i, p);
      }
    }
    forall j, k, p | Holds(w', j, p) && Holds(w', k, p)
      ensures j == k
    {
      assert j != i ==> Holds(w, j, p);
      assert k != i ==> Holds(w, k, p);
    }
  }

  lemma DestroyKeepsAgreement(w: World, i: nat)
    requires Agreement(w) && i < |w.devices|
    ensures Agreement(Put(w, i, DestroyOn(w.ports, w.devices[i])))
  {
    var w' := Put(w, i, DestroyOn(w.ports, w.devices[i]));
    assert w.devices[i].created ==> Holds(w, i, w.devices[i].port);
    forall j | 0 <= j < |w'.devices|
      ensures DeviceOk(w'.ports, w'.devices[j])
    {
      assert w.devices[j].created ==> Holds(w, j, w.devices[j].port);
    }
    forall p | 0 <= p < |w'.ports| && w'.ports[p]
      ensures exists j :: Holds(w', j, p)
    {
      var j :| Holds(w, j, p);
      assert j != i;
      assert Holds(w', j, p);
    }
    forall j, k, p | Holds(w', j, p) && Holds(w', k, p)
      ensures j == k
    {
      assert Holds(w, j, p) && Holds(w, k, p);
    }
  }

  /** Operations that leave the table and every device's port alone. */
  lemma FlagKeepsAgreement(w: World, w': World)
    requires Agreement(w) && w'.ports == w.ports && |w.devices| <= |w'.devices|
    requires forall i :: 0 <= i < |w.devices| ==>
               && w'.devices[i].created == w.devices[i].created && w'.devices[i].port == w.devices[i].port
               && (w'.devices[i].attached ==> w.devices[i].created)
    requires forall i :: |w.devices| <= i < |w'.devices| ==> w'.devices[i] == NEW
    ensures Agreement(w')
  {
    assert forall i, p :: Holds(w', i, p) <==> Holds(w, i, p);
    forall p | 0 <= p < |w'.ports| && w'.ports[p]
      ensures exists i :: Holds(w', i, p)
    {
      var i :| Holds(w, i, p);
      assert Holds(w', i, p);
    }
  }

  lemma ApplyKeepsAgreement(w: World, op: Operation)
    requires Agreement(w)
    ensures Agreement(Apply(w, op))
  {
    if op.New? || (op.i < |w.devices| && (op.Attach? || op.Detach?)) {
      FlagKeepsAgreement(w, Apply(w, op));
    } else if op.i < |w.devices| {
      if op.Create? {
        CreateKeepsAgreement(w, op.i, op.info);
      } else {
        DestroyKeepsAgreement(w, op.i);
      }
    }
  }

  /** After any run of operations on any number of devices: a used port has exactly
      one holder, attached devices are created, a device is created exactly when its
      port number is non-negative, and as many ports are used as devices are created. */
  lemma {:induction false} TableAgrees(w: World, ops: seq<Operation>)
    requires Agreement(w)
    ensures Agreement(ApplyAll(w, ops))
    ensures |UsedPorts(ApplyAll(w, ops))| == |CreatedDevices(ApplyAll(w, ops))|
    decreases |ops|
  {
    if ops == [] {
      CountsAgree(w);
    } else {
      ApplyKeepsAgreement(w, ops[0]);
      TableAgrees(Apply(w, ops[0]), ops[1..]);
    }
  }

  /** When no device is created, no port is used, and an empty list agrees. */
  lemma NoDeviceNoPort(w: World)
    requires Agreement(w) && forall i :: 0 <= i < |w.devices| ==> !w.devices[i].created
    ensures forall p :: 0 <= p < |w.ports| ==> !w.ports[p]
    ensures Agreement(World(w.ports, []))
  {
    assert forall i, p :: !Holds(w, i, p);
  }

  /** A table of `n` free ports and no devices, as after `Initialize`. */
  function FreeTable(n: nat): (w: World)
    ensures Agreement(w)
  {
    World(seq(n, _ => false), [])
  }

  /** So in every run from the start. */
  lemma RunsAgree(n: nat, ops: seq<Operation>)
    ensures var w := ApplyAll(FreeTable(n), ops);
            Agreement(w) && |UsedPorts(w)| == |CreatedDevices(w)|
  {
    TableAgrees(FreeTable(n), ops);
  }

  // ---------- counting ----------

  ghost function UsedPorts(w: World): set<int> {
    set p | 0 <= p < |w.ports| && w.ports[p]
  }

  ghost function CreatedDevices(w: World): set<int> {
    set i | 0 <= i < |w.devices| && w.devices[i].created
  }

  ghost function CreatedBelow(ds: seq<Device>, n: nat): set<int>
    requires n <= |ds|
  {
    set i | 0 <= i < n && ds[i].created
  }

  ghost function PortsBelow(ds: seq<Device>, n: nat): set<int>
    requires n <= |ds|
  {
    set i | 0 <= i < n && ds[i].created :: ds[i].port
  }

  lemma LastPortIsNew(w: World, last: nat)
    requires Agreement(w) && last < |w.devices| && w.devices[last].created
    ensures w.devices[last].port !in PortsBelow(w.devices, last)
  {
    assert Holds(w, last, w.devices[last].port);
    forall i | 0 <= i < last && w.devices[i].created
      ensures w.devices[i].port != w.devices[last].port
    {
      assert Holds(w, i, w.devices[i].port);
    }
  }

  lemma BelowZero(ds: seq<Device>)
    ensures PortsBelow(ds, 0) == CreatedBelow(ds, 0) == {}
  {}

  lemma CreatedBelowMore(ds: seq<Device>, last: nat)
    requires last < |ds|
    ensures last !in CreatedBelow(ds, last)
    ensures CreatedBelow(ds, last + 1)
         == if ds[last].created then CreatedBelow(ds, last) + {last} else CreatedBelow(ds, last)
  {}

  lemma PortsBelowMore(ds: seq<Device>, last: nat)
    requires last < |ds|
    ensures PortsBelow(ds, last + 1)
         == if ds[last].created then PortsBelow(ds, last) + {ds[last].port} else PortsBelow(ds, last)
  {}

  lemma {:induction false} PortsOfCreated(w: World, n: nat)
    requires Agreement(w) && n <= |w.devices|
    ensures |PortsBelow(w.devices, n)| == |CreatedBelow(w.devices, n)|
  {
    hide PortsBelow, CreatedBelow, Agreement;
    if n == 0 {
      BelowZero(w.devices);
    } else {
      PortsOfCreated(w, n - 1);
      CreatedBelowMore(w.devices, n - 1);
      PortsBelowMore(w.devices, n - 1);
      if w.devices[n - 1].created {
        LastPortIsNew(w, n - 1);
      }
    }
  }

  lemma CountsAgree(w: World)
    requires Agreement(w)
    ensures |UsedPorts(w)| == |CreatedDevices(w)|
  {
    var n := |w.devices|;
    PortsOfCreated(w, n);
    assert CreatedDevices(w) == CreatedBelow(w.devices, n);
    forall p | p in UsedPorts(w)
      ensures p in PortsBelow(w.devices, n)
    {
      var i :| Holds(w, i, p);
      assert w.devices[i].port == p;
    }
    forall p | p in PortsBelow(w.devices, n)
      ensures p in UsedPorts(w)
    {
      var i :| 0 <= i < n && w.devices[i].created && w.devices[i].port == p;
      assert DeviceOk(w.ports, w.devices[i]);
    }
    assert PortsBelow(w.devices, n) == UsedPorts(w);
  }
}
