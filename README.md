# BLEBackground: service catalog and BLE session callbacks

A Dafny model of `BLEBackground/BluetoothManager.swift`, the class that
drives an iOS app's Bluetooth Low Energy central role. It finds a peripheral
that advertises the BLEBee service, connects to it, discovers the service
and its characteristics, and asks to be notified of changes on the readable
ones.

The model has two parts:

- `ServiceCatalog` (`service_catalog.dfy`) covers the immutable
  `ServiceDescriptor` record and the lookups over it. These are the reverse
  lookup from characteristic UUID to name, the list of characteristic UUIDs,
  and the catalog searches by service UUID. The catalog is built by
  `loadServicesDescriptors`. A Swift `[String: CBUUID]` dictionary becomes
  an association list with unique names (`CharacteristicTable`), kept in
  iteration order. `AsMap` gives its dictionary view, and every lookup is
  specified against that view. UUIDs are opaque strings compared by
  equality.
- `BluetoothSession` (`bluetooth_session.dfy`) covers the delegate
  callbacks. Each one is a method of the class `BluetoothManager`, whose
  fields are `connectedPeripheral` and `log`. `log` records every command
  issued to the radio, oldest first: `Scan`, `StopScan`, `Connect`,
  `DiscoverServices`, `DiscoverCharacteristics` and `SetNotify`. Each
  callback's contract gives the exact commands it appends and the new value
  of `connectedPeripheral`. For the callbacks that loop, the appended
  commands are given by a specification function, and lemmas about that
  function state the properties. Commands sent to a peripheral object name
  their target. The source always sends them to `connectedPeripheral`, not
  to the peripheral named in the event. The class invariant `Valid()` says
  two things: a connection was requested to the kept peripheral, and no
  command reaches a peripheral before a connection to it was requested.
- `SessionScenarios` (`session_scenarios.dfy`) runs whole sessions on a
  fresh manager and states the full command log each one leaves.

Some behaviour is modelled as the code has it:

- Discovery is not filtered: every discovery stops the scan, replaces the
  kept peripheral and connects.
- A failed connection to the kept peripheral is retried every time, with no
  limit.
- Reconnecting to peripherals that are already connected never sets
  `connectedPeripheral`. So the connection event that follows issues
  nothing, and that session stalls (`ReconnectionSession`).
- Notification is requested because of the Read property bit `0x02`
  (Bluetooth Core Specification v4.2, Vol 3 Part G, section 3.3.1.1), not
  because of a characteristic's name. Note that the name `WriteToBLEBee` is
  mapped to the BLEBee's receive UUID `A1E8F5B1-…`, and `ReadFromBLEBee` to
  its transmit UUID `1494440E-…`.
- `serviceDescriptorForService` picks the last matching descriptor. The
  services-discovered callback does its own search, which picks the first.
  Both searches are modelled. `FirstAndLastMatchAgree` shows that they agree
  whenever no service UUID is registered twice, which holds for the loaded
  catalog.

## Model

| member | source | states |
|---|---|---|
| ServiceCatalog.AsMap | BLEBackground/BluetoothManager.swift:25 | the dictionary has one key per entry, and each entry's name maps to that entry's UUID |
| ServiceCatalog.CharacteristicsUuid | BLEBackground/BluetoothManager.swift:37-39 | the result holds exactly the dictionary's values, one per entry |
| ServiceCatalog.CharacteristicsUuidCount | BLEBackground/BluetoothManager.swift:37-39 | each UUID occurs in the result as many times as names map to it, so a UUID shared by two names is listed twice |
| ServiceCatalog.FirstNameWithUuid | BLEBackground/BluetoothManager.swift:45-50 | the search over the entries returns nil exactly when no entry has the UUID, and otherwise the name of an entry that has it |
| ServiceCatalog.CharacteristicNameForCharacteristicUuid | BLEBackground/BluetoothManager.swift:44-51 | the lookup is nil exactly when no name maps to the UUID, and otherwise returns a name that maps to it |
| ServiceCatalog.NameLookupInvertsDictionary | BLEBackground/BluetoothManager.swift:44-51 | when no UUID is registered twice, looking up the UUID of any name returns that name |
| ServiceCatalog.ServiceUuids | BLEBackground/BluetoothManager.swift:120 | the scan and discovery list has one UUID per catalog descriptor, in catalog order |
| ServiceCatalog.Matching | BLEBackground/BluetoothManager.swift:100 | the filter is empty exactly when no descriptor has the service UUID |
| ServiceCatalog.MatchingLast | BLEBackground/BluetoothManager.swift:100-102 | the last element of the filter is the descriptor at the last index whose UUID matches |
| ServiceCatalog.MatchingFirst | BLEBackground/BluetoothManager.swift:179 | the first element of the filter is the descriptor at the first index whose UUID matches |
| ServiceCatalog.ServiceDescriptorForService | BLEBackground/BluetoothManager.swift:99-105 | the result is nil exactly when no descriptor has the service UUID, and otherwise it is the last descriptor that has it |
| ServiceCatalog.FirstServiceDescriptorForService | BLEBackground/BluetoothManager.swift:179 | the result is nil exactly when no descriptor has the service UUID, and otherwise it is the first descriptor that has it |
| ServiceCatalog.FirstAndLastMatchAgree | BLEBackground/BluetoothManager.swift:99-105 | on a catalog with no repeated service UUID, the first-match and last-match searches return the same descriptor |
| ServiceCatalog.LoadServicesDescriptors | BLEBackground/BluetoothManager.swift:81-97 | the catalog has one service, `BLEBleeService` with UUID `EF080D8C-…`, with two names and two distinct characteristic UUIDs |
| ServiceCatalog.LoadedCatalogLookups | BLEBackground/BluetoothManager.swift:81-97 | on the loaded catalog, the scan asks for the BLEBee service, both searches find it, and each characteristic UUID leads back to its name |
| BluetoothSession.ConnectEach | BLEBackground/BluetoothManager.swift:125-127 | one `Connect` is issued per peripheral, in order |
| BluetoothSession.UpdateStateCommands | BLEBackground/BluetoothManager.swift:114-136 | when powered on with peripherals already connected, one `Connect` per peripheral in order and no `Scan`; when powered on with none, exactly one `Scan` for the catalog's services with duplicates allowed; in any other state, nothing |
| BluetoothSession.CharacteristicFilter | BLEBackground/BluetoothManager.swift:179-180 | the filter is absent exactly when no descriptor matches the service, and otherwise it is exactly the values of the first matching descriptor's dictionary |
| BluetoothSession.DiscoverCharacteristicsEach | BLEBackground/BluetoothManager.swift:178-182 | one `DiscoverCharacteristics` is issued per service, in order, to the kept peripheral, each with its own service's filter |
| BluetoothSession.NotifyReadable | BLEBackground/BluetoothManager.swift:196-207 | only `SetNotify(true, …)` requests are issued, each to the kept peripheral and each on a readable characteristic |
| BluetoothSession.NotifyReadableExactly | BLEBackground/BluetoothManager.swift:203-204 | notification is requested on a characteristic exactly when the characteristic is in the list and has its Read bit set |
| BluetoothSession.NotifyReadableAppend | BLEBackground/BluetoothManager.swift:196-207 | the requests follow the order of the characteristics, because a split list gives the split requests |
| BluetoothSession.BluetoothManager.constructor | BLEBackground/BluetoothManager.swift:61-76 | a new manager holds the loaded catalog, keeps no peripheral and has issued nothing |
| BluetoothSession.BluetoothManager.CentralManagerDidUpdateState | BLEBackground/BluetoothManager.swift:111-137 | the log gains exactly `UpdateStateCommands`, computed from the radio's answer for the catalog's service UUIDs; `connectedPeripheral` is unchanged; the invariant is kept |
| BluetoothSession.BluetoothManager.DidDiscoverPeripheral | BLEBackground/BluetoothManager.swift:139-148 | every discovery, unfiltered, appends exactly `[StopScan, Connect(p)]` and keeps `p` |
| BluetoothSession.BluetoothManager.DidConnectPeripheral | BLEBackground/BluetoothManager.swift:150-157 | exactly one `DiscoverServices` with the catalog's service UUIDs, sent to the kept peripheral, if there is one; otherwise nothing |
| BluetoothSession.BluetoothManager.DidFailToConnectPeripheral | BLEBackground/BluetoothManager.swift:159-168 | exactly one `Connect(p)` when `p` is the kept peripheral, otherwise nothing; `connectedPeripheral` is unchanged, so there is no attempt counter |
| BluetoothSession.BluetoothManager.DidDiscoverServices | BLEBackground/BluetoothManager.swift:175-183 | the log gains exactly `DiscoverCharacteristicsEach` over the kept peripheral's services; the error is ignored |
| BluetoothSession.BluetoothManager.DidDiscoverCharacteristicsForService | BLEBackground/BluetoothManager.swift:185-208 | with an error, nothing; otherwise exactly `NotifyReadable` over the characteristics, sent to the kept peripheral |
| SessionScenarios.FirstConnectionSession | BLEBackground/BluetoothManager.swift:111-208 | a first connection issues scan, stop, connect, service discovery, characteristic discovery for both BLEBee UUIDs, and notification on the readable characteristic only |
| SessionScenarios.ReconnectionSession | BLEBackground/BluetoothManager.swift:122-157 | reconnecting to an already-connected peripheral issues only `Connect(q)` and keeps no peripheral, so no service discovery follows |
| SessionScenarios.RepeatedFailureSession | BLEBackground/BluetoothManager.swift:159-168 | after `n` consecutive failures, the log holds `n` retries, with no cap |
| SessionScenarios.SecondDiscoverySession | BLEBackground/BluetoothManager.swift:139-168 | a second discovery connects again and replaces the kept peripheral, and the first peripheral's failure is then not retried |
| SessionScenarios.AdapterUnavailableSession | BLEBackground/BluetoothManager.swift:114-136 | in any state other than powered on, nothing is issued |

## Left out

- ServiceCatalog.LoadServicesDescriptors: the table lists the dictionary literal of line 93 in source order, which is only one of the orders Swift may use. So the order of the filter `[RX, TX]` in `LoadedCatalogLookups` and `FirstConnectionSession` is not promised by the program; its contents are.
- ServiceCatalog.CharacteristicNameForCharacteristicUuid: the contract does not say which name is returned when several names share a UUID. Swift does not specify the dictionary's iteration order. The model searches the entries in list order.
- `CBUUID` canonicalisation (`UUID()`, lines 31-33, and `.UUIDString`) is left out. UUIDs are compared as plain strings. This is why the comparisons at line 100 and line 179 behave the same here.
- Creating the central manager and setting up delegates (`init`, line 75; `.delegate = self`, line 153) are framework calls and are left out. Only peripherals whose delegate was set report service and characteristic events. The model does not restrict which peripheral reports them.
- `print` logging is left out. Also left out: the descriptor and name lookups at lines 198-200, whose results only feed `print`, and the `peripheral.name!` force unwraps at lines 142 and 151. These unwraps would crash on a peripheral without a name, and the model does not capture that crash.
- The force unwraps of `connectedPeripheral?.services` (line 178) and `service.characteristics` (line 196) become a requirement that a peripheral is kept and list-typed parameters. A nil list is not modelled.
- The advertisement data and RSSI of a discovery are only printed, and the model does not take them. The error of a failed connection is taken by `DidFailToConnectPeripheral` and ignored, as at lines 159-168.
- `retrieveConnectedPeripheralsWithServices` is a radio query. It is a function parameter of `CentralManagerDidUpdateState`.
- Callbacks are delivered on the main queue. They are modelled as sequential method calls, and threading is not modelled.
- This file does not contain the following, so the model does not have them either: disconnection handling, receiving and decoding notifications, a device filter, ignoring a second discovery, a single bounded retry, timeouts, and choosing subscriptions by characteristic role.
