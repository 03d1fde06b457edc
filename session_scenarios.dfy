/**
 * Whole sessions of `BluetoothManager`: a fresh manager receives a
 * sequence of radio events, and the command log it leaves is stated in
 * full. Each scenario is what the callbacks in
 * BLEBackground/BluetoothManager.swift do when the events arrive in that
 * order.
 */
module SessionScenarios {
  import opened Wrappers
  import opened ServiceCatalog
  import opened BluetoothSession

  /**
   * Power on with no peripheral already connected, discover `p`, connect,
   * find the BLEBee service and two characteristics of which only `rx` is
   * readable: one scan, then stop and connect, service discovery for the
   * catalog's service, characteristic discovery for its two UUIDs, and
   * notification on `rx` alone.
   */
  method FirstConnectionSession(p: Peripheral, rx: Characteristic, tx: Characteristic) returns (log: seq<Command>)
    requires rx.uuid == BLEBEE_RX_CHARACTERISTIC_UUID && tx.uuid == BLEBEE_TX_CHARACTERISTIC_UUID
    requires IsReadable(rx) && !IsReadable(tx)
    ensures log == [Scan([BLEBEE_SERVICE_UUID], true)]
                   + [StopScan, Connect(p)]
                   + [DiscoverServices(p, [BLEBEE_SERVICE_UUID])]
                   + [DiscoverCharacteristics(p, Some([BLEBEE_RX_CHARACTERISTIC_UUID, BLEBEE_TX_CHARACTERISTIC_UUID]),
                                              Service(BLEBEE_SERVICE_UUID))]
                   + [SetNotify(p, true, rx)]
  {
    var manager := new BluetoothManager();
    var service := Service(BLEBEE_SERVICE_UUID);
    FirstConnectionCommands(p, rx, tx);
    manager.CentralManagerDidUpdateState(PoweredOn, ids => []);
    assert manager.log == [Scan([BLEBEE_SERVICE_UUID], true)];
    manager.DidDiscoverPeripheral(p);
    manager.DidConnectPeripheral(p);
    manager.DidDiscoverServices(p, [service], None);
    manager.DidDiscoverCharacteristicsForService(p, service, [rx, tx], None);
    log := manager.log;
  }

  /** The commands the loaded catalog leads to in `FirstConnectionSession`, one callback at a time. */
  lemma FirstConnectionCommands(p: Peripheral, rx: Characteristic, tx: Characteristic)
    requires IsReadable(rx) && !IsReadable(tx)
    ensures ServiceUuids(LoadServicesDescriptors()) == [BLEBEE_SERVICE_UUID]
    ensures DiscoverCharacteristicsEach(p, LoadServicesDescriptors(), [Service(BLEBEE_SERVICE_UUID)])
            == [DiscoverCharacteristics(p, Some([BLEBEE_RX_CHARACTERISTIC_UUID, BLEBEE_TX_CHARACTERISTIC_UUID]),
                                        Service(BLEBEE_SERVICE_UUID))]
    ensures NotifyReadable(p, [rx, tx]) == [SetNotify(p, true, rx)]
  {
    var catalog := LoadServicesDescriptors();
    LoadedCatalogLookups();
    assert IsFirstMatch(catalog, BLEBEE_SERVICE_UUID, 0);
    assert [rx, tx][1..] == [tx];
    assert NotifyReadable(p, [tx]) == [];
  }

  /**
   * Power on while `q` is already connected to the device: the manager
   * asks to connect to `q` but never keeps it, so the connection event
   * that follows issues nothing and the session stops there.
   */
  method ReconnectionSession(q: Peripheral) returns (log: seq<Command>, kept: Option<Peripheral>)
    ensures log == [Connect(q)]
    ensures kept == None
  {
    var manager := new BluetoothManager();
    manager.CentralManagerDidUpdateState(PoweredOn, ids => [q]);
    manager.DidConnectPeripheral(q);
    log, kept := manager.log, manager.connectedPeripheral;
  }

  /** `n` connection failures in a row: every one of them is retried, with no limit. */
  method RepeatedFailureSession(p: Peripheral, n: nat) returns (log: seq<Command>)
    ensures log == [StopScan, Connect(p)] + seq(n, _ => Connect(p))
  {
    var manager := new BluetoothManager();
    manager.DidDiscoverPeripheral(p);
    var failures := 0;
    while failures < n
      invariant failures <= n
      invariant manager.Valid() && manager.connectedPeripheral == Some(p)
      invariant manager.log == [StopScan, Connect(p)] + seq(failures, _ => Connect(p))
    {
      manager.DidFailToConnectPeripheral(p, Some(Error("connection failed")));
      failures := failures + 1;
    }
    log := manager.log;
  }

  /**
   * A second discovery is not filtered out: the manager stops and connects
   * again, now keeping `q`, and a later failure of `p` is no longer retried.
   */
  method SecondDiscoverySession(p: Peripheral, q: Peripheral) returns (log: seq<Command>, kept: Option<Peripheral>)
    requires p != q
    ensures log == [StopScan, Connect(p), StopScan, Connect(q)]
    ensures kept == Some(q)
  {
    var manager := new BluetoothManager();
    manager.DidDiscoverPeripheral(p);
    manager.DidDiscoverPeripheral(q);
    manager.DidFailToConnectPeripheral(p, None);
    log, kept := manager.log, manager.connectedPeripheral;
  }

  /** Any state other than powered on issues nothing, whatever the radio reports as connected. */
  method AdapterUnavailableSession(state: ManagerState, connected: seq<Peripheral>) returns (log: seq<Command>)
    requires state != PoweredOn
    ensures log == []
  {
    var manager := new BluetoothManager();
    manager.CentralManagerDidUpdateState(state, ids => connected);
    log := manager.log;
  }
}
