/** Importing devices: one import is all or nothing, and a list of imports fills the
    lowest free ports in order. */
module Imports {
  import opened Bytes
  import opened Wrappers
  import Usbip
  import opened DeviceLists
  import opened Ports

  /** How the outside behaves during one import: the attach command, and sending
      the import request. */
  datatype Fate = Fate(attaches: bool, sends: bool)

  datatype Import = Import(world: World, ok: bool)

  /** Creating, attaching and announcing one device, with its roll-back. */
  function ImportDevice(w: World, info: DeviceInfo, fate: Fate): Import {
    var c := CreateOn(w.ports, NEW, info);
    if !c.ok then
      Import(w.(ports := c.ports), false)
    else
      var a := AttachOn(c.ports, c.device, fate.attaches);
      if !a.ok then
        Import(w.(ports := DestroyOn(a.ports, a.device).ports), false)
      else if !fate.sends then
        var d := DetachOn(a.ports, a.device);
        Import(w.(ports := DestroyOn(d.ports, d.device).ports), false)
      else
        Import(World(a.ports, w.devices + [a.device]), true)
  }

  /** For every outcome of the attach command and the request: a failed import leaves
      the port table and the device list as they were; it succeeds exactly when both
      succeed and a port is free, and then it appends one attached device that holds
      the lowest free port. */
  lemma ImportIsAllOrNothing(w: World, info: DeviceInfo, fate: Fate)
    ensures var r := ImportDevice(w, info, fate);
            && (r.ok <==> fate.attaches && fate.sends && FreePorts(w.ports, 0) != [])
            && (!r.ok ==> r.world == w)
            && (r.ok ==> 0 <= LowestFree(w.ports) < |w.ports| && !w.ports[LowestFree(w.ports)])
            && (r.ok ==> r.world == World(w.ports[LowestFree(w.ports) := true],
                                          w.devices + [Device(true, true, LowestFree(w.ports), Some(info))]))
  {
    LowestIsFree(w.ports);
    FreePortsAscend(w.ports, 0);
  }

  lemma ImportKeepsAgreement(w: World, info: DeviceInfo, fate: Fate)
    requires Agreement(w)
    ensures Agreement(ImportDevice(w, info, fate).world)
  {
    ImportIsAllOrNothing(w, info, fate);
    var r := ImportDevice(w, info, fate);
    if r.ok {
      var n := |w.devices|;
      var w1 := Apply(w, New);
      ApplyKeepsAgreement(w, New);
      var w2 := Apply(w1, Create(n, info));
      ApplyKeepsAgreement(w1, Create(n, info));
      var w3 := Apply(w2, Attach(n, true));
      ApplyKeepsAgreement(w2, Attach(n, true));
      assert w3.devices == r.world.devices;
    }
  }

  /** The import loop over a received device list. */
  function ImportList(w: World, infos: seq<DeviceInfo>, fates: seq<Fate>): World
    requires |fates| == |infos|
    decreases |infos|
  {
    if infos == [] then
      w
    else
      var w' := if DeviceClass(infos[0]) == Usbip.MASS_STORAGE then ImportDevice(w, infos[0], fates[0]).world else w;
      ImportList(w', infos[1..], fates[1..])
  }

  /** A mass-storage device for which the outside plays along. */
  predicate Plays(info: DeviceInfo, fate: Fate) {
    DeviceClass(info) == Usbip.MASS_STORAGE && fate.attaches && fate.sends
  }

  /** These devices of the list. */
  function Importable(infos: seq<DeviceInfo>, fates: seq<Fate>): seq<DeviceInfo>
    requires |fates| == |infos|
  {
    if infos == [] then
      []
    else
      (if Plays(infos[0], fates[0]) then [infos[0]] else []) + Importable(infos[1..], fates[1..])
  }

  /** Attached devices for the first of `infos`, one on each of `free`. */
  function Placed(infos: seq<DeviceInfo>, free: seq<nat>): seq<Device> {
    if infos == [] || free == [] then
      []
    else
      [Device(true, true, free[0], Some(infos[0]))] + Placed(infos[1..], free[1..])
  }

  /** Whatever fails in between: of n importable devices, with k ports free, exactly
      min(n, k) are imported, in list order, on the k lowest free ports in ascending
      order, and the other ports stay free. */
  lemma ImportListFillsLowest(w: World, infos: seq<DeviceInfo>, fates: seq<Fate>)
    requires |fates| == |infos|
    ensures var w', free, chosen := ImportList(w, infos, fates), FreePorts(w.ports, 0), Importable(infos, fates);
            var n := Min(|chosen|, |free|);
            && |w'.devices| == |w.devices| + n
            && w'.devices[..|w.devices|] == w.devices
            && (forall i :: 0 <= i < n ==>
                  w'.devices[|w.devices| + i] == Device(true, true, free[i], Some(chosen[i])))
            && FreePorts(w'.ports, 0) == free[n..]
  {
    ImportListPlaces(w, infos, fates);
    PlacedAt(Importable(infos, fates), FreePorts(w.ports, 0));
  }

  lemma {:induction false} ImportListPlaces(w: World, infos: seq<DeviceInfo>, fates: seq<Fate>)
    requires |fates| == |infos|
    ensures ImportList(w, infos, fates).devices == w.devices + Placed(Importable(infos, fates), FreePorts(w.ports, 0))
    ensures FreePorts(ImportList(w, infos, fates).ports, 0)
         == FreePorts(w.ports, 0)[Min(|Importable(infos, fates)|, |FreePorts(w.ports, 0)|)..]
    decreases |infos|
  {
    var free := FreePorts(w.ports, 0);
    if infos != [] {
      var step := ImportDevice(w, infos[0], fates[0]);
      ImportIsAllOrNothing(w, infos[0], fates[0]);
      if DeviceClass(infos[0]) == Usbip.MASS_STORAGE && step.ok {
        FreePortsAfterTake(w.ports, 0, free[0]);
        ImportListPlaces(step.world, infos[1..], fates[1..]);
        assert Importable(infos, fates) == [infos[0]] + Importable(infos[1..], fates[1..]);
        ConcatPlaced(w.devices, infos[0], Importable(infos[1..], fates[1..]), free);
        var n := Min(|Importable(infos[1..], fates[1..])|, |free[1..]|);
        assert free[1..][n..] == free[n + 1..];
      } else {
        ImportListPlaces(w, infos[1..], fates[1..]);
        assert free != [] ==> Importable(infos, fates) == Importable(infos[1..], fates[1..]);
      }
    }
  }

  lemma PlacedCons(info: DeviceInfo, infos: seq<DeviceInfo>, free: seq<nat>)
    requires free != []
    ensures Placed([info] + infos, free)
         == [Device(true, true, free[0], Some(info))] + Placed(infos, free[1..])
  {
    assert ([info] + infos)[1..] == infos;
  }

  lemma ConcatPlaced(devices: seq<Device>, info: DeviceInfo, infos: seq<DeviceInfo>, free: seq<nat>)
    requires free != []
    ensures devices + Placed([info] + infos, free)
         == devices + [Device(true, true, free[0], Some(info))] + Placed(infos, free[1..])
  {
    hide Placed;
    PlacedCons(info, infos, free);
    ConcatAssociative(devices, [Device(true, true, free[0], Some(info))], Placed(infos, free[1..]));
  }

  lemma {:induction false} PlacedAt(infos: seq<DeviceInfo>, free: seq<nat>)
    ensures |Placed(infos, free)| == Min(|infos|, |free|)
    ensures forall i :: 0 <= i < |Placed(infos, free)| ==>
              Placed(infos, free)[i] == Device(true, true, free[i], Some(infos[i]))
    decreases |infos|
  {
    if infos != [] && free != [] {
      PlacedAt(infos[1..], free[1..]);
    }
  }

  // ---------- from the bytes of a payload ----------

  /** Entry `i` of a payload is a mass-storage device for which the outside plays along. */
  predicate Chosen(p: seq<byte>, fates: seq<Fate>, i: nat)
    requires |fates| == EntryCount(p) && i < |fates|
  {
    p[12 + 312 * i + 306] == 0x08 && fates[i].attaches && fates[i].sends
  }

  function ChosenEntries(p: seq<byte>, fates: seq<Fate>, n: nat): seq<nat>
    requires |fates| == EntryCount(p) && n <= |fates|
  {
    if n == 0 then [] else ChosenEntries(p, fates, n - 1) + if Chosen(p, fates, n - 1) then [n - 1] else []
  }

  lemma {:induction false} ChosenEntriesAre(p: seq<byte>, fates: seq<Fate>, n: nat)
    requires |fates| == EntryCount(p) && n <= |fates|
    ensures var idx := ChosenEntries(p, fates, n);
            && (forall j :: 0 <= j < |idx| ==> idx[j] < n && Chosen(p, fates, idx[j]))
            && (forall j, k :: 0 <= j < k < |idx| ==> idx[j] < idx[k])
            && (forall i: nat :: i < n && Chosen(p, fates, i) ==> i in idx)
  {
    if n > 0 {
      ChosenEntriesAre(p, fates, n - 1);
    }
  }

  lemma {:induction false} ImportableMore(infos: seq<DeviceInfo>, fates: seq<Fate>, n: nat)
    requires |fates| == |infos| && n < |infos|
    ensures Importable(infos[..n + 1], fates[..n + 1])
         == Importable(infos[..n], fates[..n])
          + if Plays(infos[n], fates[n]) then [infos[n]] else []
    decreases n
  {
    assert infos[..n + 1][1..] == infos[1..][..n] && fates[..n + 1][1..] == fates[1..][..n];
    if n > 0 {
      assert infos[..n][1..] == infos[1..][..n - 1] && fates[..n][1..] == fates[1..][..n - 1];
      ImportableMore(infos[1..], fates[1..], n - 1);
    }
  }

  /** The devices at the given places of a list. */
  function Pick(infos: seq<DeviceInfo>, idx: seq<nat>): (picked: seq<DeviceInfo>)
    requires forall j :: 0 <= j < |idx| ==> idx[j] < |infos|
    ensures |picked| == |idx|
  {
    seq(|idx|, j requires 0 <= j < |idx| => infos[idx[j]])
  }

  lemma {:induction false} ImportableAreChosen(p: seq<byte>, fates: seq<Fate>, n: nat)
    requires |fates| == EntryCount(p) && n <= |fates|
    ensures forall j :: 0 <= j < |ChosenEntries(p, fates, n)| ==> ChosenEntries(p, fates, n)[j] < n
    ensures Importable(ParseList(p)[..n], fates[..n]) == Pick(ParseList(p), ChosenEntries(p, fates, n))
  {
    ChosenEntriesAre(p, fates, n);
    if n > 0 {
      ImportableAreChosen(p, fates, n - 1);
      ImportableMore(ParseList(p), fates, n - 1);
      ParsedClass(p, n - 1);
    }
  }

  /** From a received payload, whatever its bytes: of the whole entries that the count
      covers exactly those with class byte 8 for which the outside plays along are
      imported, as far as ports are free, in their order in the payload, each on the
      lowest port still free. */
  lemma PayloadImportsExactly(w: World, p: seq<byte>, fates: seq<Fate>)
    requires |fates| == EntryCount(p)
    ensures forall j :: 0 <= j < |ChosenEntries(p, fates, |fates|)| ==> ChosenEntries(p, fates, |fates|)[j] < |fates|
    ensures var w', free := ImportList(w, ParseList(p), fates), FreePorts(w.ports, 0);
            var idx := ChosenEntries(p, fates, |fates|);
            var n := Min(|idx|, |free|);
            && |w'.devices| == |w.devices| + n
            && w'.devices[..|w.devices|] == w.devices
            && (forall j :: 0 <= j < n ==>
                  w'.devices[|w.devices| + j] == Device(true, true, free[j], Some(ParseList(p)[idx[j]])))
            && FreePorts(w'.ports, 0) == free[n..]
  {
    ImportableAreChosen(p, fates, |fates|);
    assert ParseList(p)[..|fates|] == ParseList(p) && fates[..|fates|] == fates;
    ImportListFillsLowest(w, ParseList(p), fates);
  }

  lemma {:induction false} ImportListKeepsAgreement(w: World, infos: seq<DeviceInfo>, fates: seq<Fate>)
    requires |fates| == |infos| && Agreement(w)
    ensures Agreement(ImportList(w, infos, fates))
    decreases |infos|
  {
    if infos != [] {
      ImportKeepsAgreement(w, infos[0], fates[0]);
      var w' := if DeviceClass(infos[0]) == Usbip.MASS_STORAGE then ImportDevice(w, infos[0], fates[0]).world else w;
      ImportListKeepsAgreement(w', infos[1..], fates[1..]);
    }
  }
}
