/** The port manager, the virtual devices and the receiver as objects. */
module VirtualDevices {
  import opened Bytes
  import opened Wrappers
  import Usbip
  import opened DeviceLists
  import opened Ports
  import opened Imports

  class UsbipManager {
    var portUsage: seq<bool>
    var initialized: bool

    constructor ()
      ensures portUsage == [] && !initialized
    {
      portUsage, initialized := [], false;
    }

    /** `loads` is the outcome of loading the kernel module. */
    method Initialize(loads: bool) returns (ok: bool)
      modifies this
      ensures ok <==> old(initialized) || loads
      ensures initialized == ok
      ensures old(initialized) ==> portUsage == old(portUsage)
      ensures !old(initialized) ==>
                && |portUsage| == PORT_COUNT
                && forall p :: 0 <= p < PORT_COUNT ==> portUsage[p] == (p < old(|portUsage|) && old(portUsage)[p])
    {
      if initialized {
        return true;
      }
      if |portUsage| < PORT_COUNT {
        portUsage := portUsage + seq(PORT_COUNT - |portUsage|, _ => false);
      } else {
        portUsage := portUsage[..PORT_COUNT];
      }
      if !loads {
        return false;
      }
      initialized := true;
      return true;
    }

    /** Unloads the kernel module. The table keeps its marks. */
    method Cleanup()
      modifies this`initialized
      ensures !initialized
    {
      if !initialized {
        return;
      }
      initialized := false;
    }

    method GetAvailablePort() returns (port: int)
      modifies this`portUsage
      ensures port == LowestFree(old(portUsage))
      ensures portUsage == if 0 <= port < |old(portUsage)| then old(portUsage)[port := true] else old(portUsage)
      ensures port < |portUsage|
    {
      LowestIsFree(portUsage);
      var i := 0;
      while i < |portUsage|
        invariant 0 <= i <= |portUsage| && portUsage == old(portUsage)
        invariant FreePorts(portUsage, 0) == FreePorts(portUsage, i)
      {
        if !portUsage[i] {
          portUsage := portUsage[i := true];
          return i;
        }
        i := i + 1;
      }
      return -1;
    }

    method ReleasePort(port: int)
      modifies this`portUsage
      ensures portUsage == Release(old(portUsage), port)
    {
      if port >= 0 && port < |portUsage| {
        portUsage := portUsage[port := false];
      }
    }
  }

  class VirtualUsbDevice {
    const manager: UsbipManager
    var created: bool
    var attached: bool
    var processing: bool
    var portNumber: int
    var deviceInfo: Option<DeviceInfo>

    function Value(): Device
      reads this
    {
      Device(created, attached, portNumber, deviceInfo)
    }

    constructor (manager: UsbipManager)
      ensures this.manager == manager && Value() == NEW && !processing
    {
      this.manager := manager;
      created, attached, processing, portNumber, deviceInfo := false, false, false, -1, None;
    }

    method CreateDevice(info: DeviceInfo) returns (ok: bool)
      modifies this, manager`portUsage
      ensures Outcome(manager.portUsage, Value(), ok) == CreateOn(old(manager.portUsage), old(Value()), info)
      ensures processing == old(processing)
    {
      if created {
        return true;
      }
      deviceInfo := Some(info);
      LowestIsFree(manager.portUsage);
      portNumber := manager.GetAvailablePort();
      if portNumber < 0 {
        return false;
      }
      created := true;
      return true;
    }

    /** `kernel` is the outcome of the attach command. */
    method AttachDevice(kernel: bool) returns (ok: bool)
      modifies this
      ensures Outcome(manager.portUsage, Value(), ok) == AttachOn(manager.portUsage, old(Value()), kernel)
      ensures old(processing == attached) ==> processing == attached
    {
      if !created {
        return false;
      }
      if attached {
        return true;
      }
      if !kernel {
        return false;
      }
      processing := true;
      attached := true;
      return true;
    }

    method DetachDevice() returns (ok: bool)
      modifies this
      ensures Outcome(manager.portUsage, Value(), ok) == DetachOn(manager.portUsage, old(Value()))
      ensures old(processing == attached) ==> processing == attached
    {
      if !attached {
        return true;
      }
      processing := false;
      attached := false;
      return true;
    }

    method DestroyDevice()
      modifies this, manager`portUsage
      ensures Outcome(manager.portUsage, Value(), true) == DestroyOn(old(manager.portUsage), old(Value()))
      ensures old(processing == attached) ==> processing == attached
    {
      var detached := DetachDevice();
      if created {
        if portNumber >= 0 {
          manager.ReleasePort(portNumber);
          portNumber := -1;
        }
        created := false;
      }
    }
  }

  class UsbReceiver {
    const manager: UsbipManager
    var running: bool
    var virtualDevices: seq<VirtualUsbDevice>

    /** The port table and the devices of the receiver, as values. */
    ghost function Contents(): World
      reads this, manager, virtualDevices
    {
      World(manager.portUsage,
            seq(|virtualDevices|,
                i requires 0 <= i < |virtualDevices| reads this, virtualDevices => virtualDevices[i].Value()))
    }

    /** The devices are distinct, share the manager and agree with its table. */
    ghost predicate Valid()
      reads this, manager, virtualDevices
    {
      && (forall i, j :: 0 <= i < j < |virtualDevices| ==> virtualDevices[i] != virtualDevices[j])
      && (forall i :: 0 <= i < |virtualDevices| ==> virtualDevices[i].manager == manager)
      && Agreement(Contents())
    }

    constructor (manager: UsbipManager)
      requires forall p :: 0 <= p < |manager.portUsage| ==> !manager.portUsage[p]
      ensures Valid() && this.manager == manager && !running && virtualDevices == []
    {
      this.manager := manager;
      running, virtualDevices := false, [];
    }

    /** `connects` and `requests` are the outcomes of connecting to the sender and of
        asking it for its device list. */
    method Start(connects: bool, requests: bool) returns (ok: bool)
      modifies this`running
      ensures ok == running == (old(running) || (connects && requests))
    {
      if running {
        return true;
      }
      if !connects {
        return false;
      }
      if !requests {
        return false;
      }
      running := true;
      return true;
    }

    method ImportDeviceInternal(info: DeviceInfo, fate: Fate) returns (ok: bool)
      requires Valid()
      modifies this`virtualDevices, manager`portUsage
      ensures Valid()
      ensures Import(Contents(), ok) == ImportDevice(old(Contents()), info, fate)
      ensures virtualDevices == old(virtualDevices)
           || (|virtualDevices| == |old(virtualDevices)| + 1
               && virtualDevices[..|old(virtualDevices)|] == old(virtualDevices)
               && fresh(virtualDevices[|old(virtualDevices)|]))
    {
      hide Agreement, FreePorts;
      ghost var before := Contents();
      ghost var result := ImportDevice(before, info, fate);
      ImportKeepsAgreement(before, info, fate);
      ImportIsAllOrNothing(before, info, fate);
      var device := new VirtualUsbDevice(manager);
      var created := device.CreateDevice(info);
      if !created {
        assert Contents() == result.world;
        return false;
      }
      var attached := device.AttachDevice(fate.attaches);
      if !attached {
        device.DestroyDevice();
        assert Contents() == result.world;
        return false;
      }
      virtualDevices := virtualDevices + [device];
      if !fate.sends {
        var detached := device.DetachDevice();
        device.DestroyDevice();
        virtualDevices := virtualDevices[..|virtualDevices| - 1];
        assert virtualDevices == old(virtualDevices);
        assert Contents() == result.world;
        return false;
      }
      assert Contents().devices == before.devices + [device.Value()];
      return true;
    }

    /** Importing every mass-storage device of a received list. */
    method OnDeviceListReceived(infos: seq<DeviceInfo>, fates: seq<Fate>)
      requires Valid() && |fates| == |infos|
      modifies this`virtualDevices, manager`portUsage
      ensures Valid()
      ensures Contents() == ImportList(old(Contents()), infos, fates)
    {
      var i := 0;
      ghost var known := virtualDevices;
      while i < |infos|
        invariant 0 <= i <= |infos| && Valid()
        invariant ImportList(Contents(), infos[i..], fates[i..]) == ImportList(old(Contents()), infos, fates)
      {
        var info := infos[i];
        assert infos[i..][1..] == infos[i + 1..] && fates[i..][1..] == fates[i + 1..];
        if DeviceClass(info) == Usbip.MASS_STORAGE {
          var ok := ImportDeviceInternal(info, fates[i]);
        }
        i := i + 1;
      }
    }

    /** A device list response: the client parses it and calls the receiver back. */
    method OnDeviceListMessage(order: ByteOrder, payload: seq<byte>, fates: seq<Fate>)
      requires Valid() && |fates| == EntryCount(payload)
      modifies this`virtualDevices, manager`portUsage
      ensures Valid()
      ensures Contents() == ImportList(old(Contents()), ParseList(payload), fates)
    {
      var infos := HandleDeviceListResponse(order, payload);
      OnDeviceListReceived(infos, fates);
    }

    /** Stopping a running receiver detaches every device and drops the list, which
        destroys them: no port stays in use. On any other it does nothing, even if
        devices were imported before a start that failed. */
    method Stop()
      requires Valid()
      modifies this`running, this`virtualDevices, manager`portUsage, manager`initialized, virtualDevices
      ensures Valid() && !running
      ensures |manager.portUsage| == old(|manager.portUsage|)
      ensures old(running) ==> virtualDevices == [] && !manager.initialized
      ensures old(running) ==> forall p :: 0 <= p < |manager.portUsage| ==> !manager.portUsage[p]
      ensures !old(running) ==> virtualDevices == old(virtualDevices) && Contents() == old(Contents())
      ensures !old(running) ==> manager.initialized == old(manager.initialized)
    {
      if !running {
        return;
      }
      running := false;
      assert Contents() == old(Contents());
      DropDevices();
      manager.Cleanup();
      assert Contents().ports == manager.portUsage && Contents().devices == [];
    }

    /** The part of `Stop` that detaches every device and clears the list. */
    method DropDevices()
      requires Valid()
      modifies this`virtualDevices, manager`portUsage, virtualDevices
      ensures Valid() && virtualDevices == []
      ensures |manager.portUsage| == old(|manager.portUsage|)
      ensures forall p :: 0 <= p < |manager.portUsage| ==> !manager.portUsage[p]
    {
      hide Agreement;
      var devices := virtualDevices;
      for i := 0 to |devices|
        invariant virtualDevices == devices && Valid() && |manager.portUsage| == old(|manager.portUsage|)
      {
        ghost var before := Contents();
        var ok := devices[i].DetachDevice();
        assert Contents() == Apply(before, Detach(i));
        ApplyKeepsAgreement(before, Detach(i));
      }
      for i := 0 to |devices|
        invariant virtualDevices == devices && Valid() && |manager.portUsage| == old(|manager.portUsage|)
        invariant forall j :: 0 <= j < i ==> !devices[j].created
      {
        ghost var before := Contents();
        devices[i].DestroyDevice();
        assert Contents() == Apply(before, Destroy(i));
        ApplyKeepsAgreement(before, Destroy(i));
      }
      NoDeviceNoPort(Contents());
      virtualDevices := [];
      assert Contents() == World(manager.portUsage, []);
    }
  }
}
