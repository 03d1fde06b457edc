/**
 * The delegate callbacks of `BluetoothManager`
 * (BLEBackground/BluetoothManager.swift). Each radio event is a method on
 * `BluetoothManager`; the radio itself is replaced by the log of the
 * commands the callbacks issue to it, and the one field the callbacks
 * update, `connectedPeripheral`, is a field of the class.
 */
module BluetoothSession {
  import opened Wrappers
  import opened ServiceCatalog

  /** A peripheral, known by the identifier the platform assigns to it. */
  datatype Peripheral = Peripheral(identifier: string)

  /** The states `CBCentralManager` reports. */
  datatype ManagerState = Unknown | Resetting | Unsupported | Unauthorized | PoweredOff | PoweredOn

  /** A service of a peripheral, as the radio discovered it. */
  datatype Service = Service(uuid: Uuid)

  /** A characteristic: its UUID and the raw value of its `CBCharacteristicProperties`. */
  datatype Characteristic = Characteristic(uuid: Uuid, properties: bv64)

  /** An error the radio reports with an event. */
  datatype Error = Error(description: string)

  /**
   * The Read bit of the characteristic properties (Bluetooth Core
   * Specification v4.2, Vol 3 Part G, section 3.3.1.1).
   */
  const READ_PROPERTY: bv64 := 0x02

  predicate IsReadable(c: Characteristic) {
    c.properties & READ_PROPERTY != 0
  }

  /** The calls the callbacks make on the central manager and on the connected peripheral. */
  datatype Command =
    | Scan(serviceUuids: seq<Uuid>, allowDuplicates: bool)
    | StopScan
    | Connect(peripheral: Peripheral)
    | DiscoverServices(target: Peripheral, serviceUuids: seq<Uuid>)
    | DiscoverCharacteristics(target: Peripheral, filter: Option<seq<Uuid>>, service: Service)
    | SetNotify(target: Peripheral, enabled: bool, characteristic: Characteristic)

  /** The peripheral a command is sent to, for the commands sent to a peripheral object. */
  function Target(c: Command): Option<Peripheral> {
    match c
    case DiscoverServices(p, _) => Some(p)
    case DiscoverCharacteristics(p, _, _) => Some(p)
    case SetNotify(p, _, _) => Some(p)
    case _ => None
  }

  /** Every command sent to a peripheral comes after a request to connect to that peripheral. */
  ghost predicate ConnectPrecedesPeripheralCommands(log: seq<Command>) {
    forall i :: 0 <= i < |log| && Target(log[i]).Some? ==> Connect(Target(log[i]).value) in log[..i]
  }

  /** Appending commands whose targets were all asked to connect keeps the ordering. */
  lemma AppendKeepsConnectFirst(log: seq<Command>, commands: seq<Command>)
    requires ConnectPrecedesPeripheralCommands(log)
    requires forall c :: c in commands && Target(c).Some? ==> Connect(Target(c).value) in log
    ensures ConnectPrecedesPeripheralCommands(log + commands)
  {
    var all := log + commands;
    forall i | 0 <= i < |all| && Target(all[i]).Some?
      ensures Connect(Target(all[i]).value) in all[..i]
    {
      if i < |log| {
        assert all[..i] == log[..i];
      } else {
        assert all[i] == commands[i - |log|];
        var k :| 0 <= k < |log| && log[k] == Connect(Target(all[i]).value);
        assert all[..i][k] == log[k];
      }
    }
  }

  /** One `Connect` per peripheral, in the order given. */
  function ConnectEach(peripherals: seq<Peripheral>): (r: seq<Command>)
    ensures |r| == |peripherals|
    ensures forall i :: 0 <= i < |peripherals| ==> r[i] == Connect(peripherals[i])
  {
    if peripherals == [] then []
    else ConnectEach(peripherals[..|peripherals| - 1]) + [Connect(peripherals[|peripherals| - 1])]
  }

  /**
   * What `centralManagerDidUpdateState` issues, given the state, the
   * catalog's service UUIDs and the peripherals the radio reports as
   * already connected: reconnect to each of those if there are any,
   * otherwise one scan for the catalog's services with duplicates allowed;
   * nothing in any state other than powered on.
   */
  function UpdateStateCommands(state: ManagerState, serviceUuids: seq<Uuid>, connected: seq<Peripheral>): (r: seq<Command>)
    ensures state != PoweredOn ==> r == []
    ensures state == PoweredOn && connected != [] ==>
              && |r| == |connected|
              && (forall i :: 0 <= i < |r| ==> r[i] == Connect(connected[i]))
              && (forall c :: c in r ==> !c.Scan?)
    ensures state == PoweredOn && connected == [] ==> r == [Scan(serviceUuids, true)]
  {
    if state != PoweredOn then []
    else if |connected| > 0 then ConnectEach(connected)
    else [Scan(serviceUuids, true)]
  }

  /**
   * The characteristic filter of a discovered service: the UUIDs of the
   * first catalog descriptor with the service's UUID, or none (every
   * characteristic) when no descriptor has it.
   */
  function CharacteristicFilter(catalog: seq<ServiceDescriptor>, service: Service): (r: Option<seq<Uuid>>)
    ensures r.None? <==> forall i :: 0 <= i < |catalog| ==> catalog[i].uuidString != service.uuid
    ensures forall i :: IsFirstMatch(catalog, service.uuid, i) ==> r == Some(CharacteristicsUuid(catalog[i]))
  {
    match FirstServiceDescriptorForService(catalog, service.uuid)
    case None => None
    case Some(d) => Some(CharacteristicsUuid(d))
  }

  /** One `DiscoverCharacteristics` per service, in order, each with its service's filter. */
  function DiscoverCharacteristicsEach(target: Peripheral, catalog: seq<ServiceDescriptor>, services: seq<Service>): (r: seq<Command>)
    ensures |r| == |services|
    ensures forall i :: 0 <= i < |services| ==>
              r[i] == DiscoverCharacteristics(target, CharacteristicFilter(catalog, services[i]), services[i])
  {
    if services == [] then []
    else
      var last := services[|services| - 1];
      DiscoverCharacteristicsEach(target, catalog, services[..|services| - 1])
      + [DiscoverCharacteristics(target, CharacteristicFilter(catalog, last), last)]
  }

  /** A `SetNotify(true, c)` for each readable characteristic `c`, in order. */
  function NotifyReadable(target: Peripheral, characteristics: seq<Characteristic>): (r: seq<Command>)
    ensures |r| <= |characteristics|
    ensures forall k :: 0 <= k < |r| ==>
              && r[k].SetNotify? && r[k].target == target && r[k].enabled
              && IsReadable(r[k].characteristic)
  {
    if characteristics == [] then []
    else
      var rest := NotifyReadable(target, characteristics[1..]);
      if IsReadable(characteristics[0]) then [SetNotify(target, true, characteristics[0])] + rest else rest
  }

  /** Notification is requested for a characteristic exactly when it is among them and readable. */
  lemma {:induction false} NotifyReadableExactly(target: Peripheral, characteristics: seq<Characteristic>, c: Characteristic)
    ensures SetNotify(target, true, c) in NotifyReadable(target, characteristics)
            <==> c in characteristics && IsReadable(c)
  {
    if characteristics != [] {
      NotifyReadableExactly(target, characteristics[1..], c);
      assert characteristics == [characteristics[0]] + characteristics[1..];
    }
  }

  /** The requests keep the order of the characteristics: a split list gives the split requests. */
  lemma {:induction false} NotifyReadableAppend(target: Peripheral, a: seq<Characteristic>, b: seq<Characteristic>)
    ensures NotifyReadable(target, a + b) == NotifyReadable(target, a) + NotifyReadable(target, b)
  {
    if a != [] {
      assert (a + b)[1..] == a[1..] + b;
      NotifyReadableAppend(target, a[1..], b);
    } else {
      assert a + b == b;
    }
  }

  class BluetoothManager {
    /** `servicesDescriptors`, set once from `loadServicesDescriptors()`. */
    const servicesDescriptors: seq<ServiceDescriptor>
    /** The peripheral the manager keeps a reference to. */
    var connectedPeripheral: Option<Peripheral>
    /** Every command issued to the radio so far, oldest first. */
    var log: seq<Command>

    /**
     * The connected peripheral is one a connection was requested to, and
     * no command goes to a peripheral before a connection to it was
     * requested.
     */
    ghost predicate Valid()
      reads this
    {
      && (connectedPeripheral.Some? ==> Connect(connectedPeripheral.value) in log)
      && ConnectPrecedesPeripheralCommands(log)
    }

    constructor ()
      ensures Valid()
      ensures servicesDescriptors == LoadServicesDescriptors()
      ensures connectedPeripheral == None && log == []
    {
      servicesDescriptors := LoadServicesDescriptors();
      connectedPeripheral := None;
      log := [];
    }

    /**
     * `centralManagerDidUpdateState(_:)`. The radio's answer to
     * `retrieveConnectedPeripheralsWithServices` is a function of the
     * service UUIDs it is asked for.
     */
    method CentralManagerDidUpdateState(state: ManagerState, retrieveConnectedPeripherals: seq<Uuid> -> seq<Peripheral>)
      requires Valid()
      modifies this
      ensures Valid()
      ensures connectedPeripheral == old(connectedPeripheral)
      ensures log == old(log) + UpdateStateCommands(state, ServiceUuids(servicesDescriptors),
                                                    retrieveConnectedPeripherals(ServiceUuids(servicesDescriptors)))
    {
      if state == PoweredOn {
        var servicesUuids := ServiceUuids(servicesDescriptors);
        var connectedPeripherals := retrieveConnectedPeripherals(servicesUuids);
        if |connectedPeripherals| > 0 {
          for i := 0 to |connectedPeripherals|
            invariant connectedPeripheral == old(connectedPeripheral)
            invariant log == old(log) + ConnectEach(connectedPeripherals[..i])
          {
            assert connectedPeripherals[..i + 1][..i] == connectedPeripherals[..i];
            log := log + [Connect(connectedPeripherals[i])];
          }
          assert connectedPeripherals[..|connectedPeripherals|] == connectedPeripherals;
        } else {
          log := log + [Scan(servicesUuids, true)];
        }
      }
      AppendKeepsConnectFirst(old(log), log[|old(log)|..]);
      assert log == old(log) + log[|old(log)|..];
    }

    /** `centralManager(_:didDiscoverPeripheral:advertisementData:RSSI:)`: stop scanning, keep and connect. */
    method DidDiscoverPeripheral(peripheral: Peripheral)
      requires Valid()
      modifies this
      ensures Valid()
      ensures connectedPeripheral == Some(peripheral)
      ensures log == old(log) + [StopScan, Connect(peripheral)]
    {
      log := log + [StopScan];
      connectedPeripheral := Some(peripheral);
      log := log + [Connect(peripheral)];
      assert log == old(log) + [StopScan, Connect(peripheral)];
      AppendKeepsConnectFirst(old(log), [StopScan, Connect(peripheral)]);
    }

    /**
     * `centralManager(_:didConnectPeripheral:)`: service discovery is
     * requested of the kept peripheral, whichever peripheral connected.
     */
    method DidConnectPeripheral(peripheral: Peripheral)
      requires Valid()
      modifies this
      ensures Valid()
      ensures connectedPeripheral == old(connectedPeripheral)
      ensures log == old(log) + match connectedPeripheral
                                case None => []
                                case Some(p) => [DiscoverServices(p, ServiceUuids(servicesDescriptors))]
    {
      if connectedPeripheral.Some? {
        var command := DiscoverServices(connectedPeripheral.value, ServiceUuids(servicesDescriptors));
        AppendKeepsConnectFirst(log, [command]);
        log := log + [command];
      }
    }

    /** `centralManager(_:didFailToConnectPeripheral:error:)`: retry when it is the kept peripheral. */
    method DidFailToConnectPeripheral(peripheral: Peripheral, error: Option<Error>)
      requires Valid()
      modifies this
      ensures Valid()
      ensures connectedPeripheral == old(connectedPeripheral)
      ensures log == old(log) + if connectedPeripheral == Some(peripheral) then [Connect(peripheral)] else []
    {
      if connectedPeripheral == Some(peripheral) {
        AppendKeepsConnectFirst(log, [Connect(peripheral)]);
        log := log + [Connect(peripheral)];
      }
    }

    /**
     * `peripheral(_:didDiscoverServices:)`. The loop runs over the services
     * of the kept peripheral, which the source force-unwraps; the error is
     * not looked at.
     */
    method DidDiscoverServices(peripheral: Peripheral, connectedPeripheralServices: seq<Service>, error: Option<Error>)
      requires Valid()
      requires connectedPeripheral.Some?
      modifies this
      ensures Valid()
      ensures connectedPeripheral == old(connectedPeripheral)
      ensures log == old(log) + DiscoverCharacteristicsEach(connectedPeripheral.value, servicesDescriptors, connectedPeripheralServices)
    {
      var target := connectedPeripheral.value;
      var services := connectedPeripheralServices;
      for i := 0 to |services|
        invariant connectedPeripheral == old(connectedPeripheral)
        invariant log == old(log) + DiscoverCharacteristicsEach(target, servicesDescriptors, services[..i])
      {
        var filter := CharacteristicFilter(servicesDescriptors, services[i]);
        assert services[..i + 1][..i] == services[..i];
        log := log + [DiscoverCharacteristics(target, filter, services[i])];
      }
      assert services[..|services|] == services;
      AppendKeepsConnectFirst(old(log), DiscoverCharacteristicsEach(target, servicesDescriptors, services));
    }

    /**
     * `peripheral(_:didDiscoverCharacteristicsForService:error:)`: on an
     * error nothing; otherwise notification on every readable
     * characteristic, requested of the kept peripheral if there is one.
     */
    method DidDiscoverCharacteristicsForService(peripheral: Peripheral, service: Service,
                                                characteristics: seq<Characteristic>, error: Option<Error>)
      requires Valid()
      modifies this
      ensures Valid()
      ensures connectedPeripheral == old(connectedPeripheral)
      ensures log == old(log) + if error.Some? || connectedPeripheral.None? then []
                                else NotifyReadable(connectedPeripheral.value, characteristics)
    {
      if error.Some? {
        return;
      }
      for i := 0 to |characteristics|
        invariant connectedPeripheral == old(connectedPeripheral)
        invariant log == old(log) + if connectedPeripheral.None? then []
                                    else NotifyReadable(connectedPeripheral.value, characteristics[..i])
      {
        var characteristic := characteristics[i];
        if connectedPeripheral.Some? {
          assert characteristics[..i + 1] == characteristics[..i] + [characteristic];
          NotifyReadableAppend(connectedPeripheral.value, characteristics[..i], [characteristic]);
        }
        if IsReadable(characteristic) {
          if connectedPeripheral.Some? {
            log := log + [SetNotify(connectedPeripheral.value, true, characteristic)];
          }
        }
      }
      assert characteristics[..|characteristics|] == characteristics;
      if connectedPeripheral.Some? {
        AppendKeepsConnectFirst(old(log), NotifyReadable(connectedPeripheral.value, characteristics));
      }
    }
  }
}
