/**
 * The catalog of the services the app looks for: `ServiceDescriptor`, its
 * two lookups, the catalog built by `loadServicesDescriptors` and the
 * catalog-level search `serviceDescriptorForService`
 * (BLEBackground/BluetoothManager.swift).
 *
 * UUIDs are opaque strings compared by equality: the canonicalisation done
 * by `CBUUID` is not part of this model.
 */
module ServiceCatalog {
  import opened Wrappers

  type Uuid = string

  /** One `name: uuid` pair of a characteristics dictionary. */
  datatype Entry = Entry(name: string, uuid: Uuid)

  /** No name occurs twice, as in any Swift dictionary. */
  ghost predicate UniqueNames(entries: seq<Entry>) {
    entries == [] || (NameAbsent(entries[1..], entries[0].name) && UniqueNames(entries[1..]))
  }

  /** No entry of `entries` has the name `name`. */
  ghost predicate NameAbsent(entries: seq<Entry>, name: string) {
    forall i :: 0 <= i < |entries| ==> entries[i].name != name
  }

  /** No UUID is registered under two names. */
  ghost predicate UniqueUuids(entries: seq<Entry>) {
    forall i, j :: 0 <= i < j < |entries| ==> entries[i].uuid != entries[j].uuid
  }

  /**
   * A `[String: CBUUID]` dictionary, listed in its iteration order. Swift
   * does not specify that order, so every property below that is stated
   * over `AsMap` holds whatever the order is; a list built from the table,
   * such as `CharacteristicsUuid`, follows the table's order.
   */
  type CharacteristicTable = entries: seq<Entry> | UniqueNames(entries)

  /** The dictionary as a map from characteristic name to UUID. */
  function AsMap(table: CharacteristicTable): (m: map<string, Uuid>)
    ensures forall i :: 0 <= i < |table| ==> table[i].name in m && m[table[i].name] == table[i].uuid
    ensures forall name :: name in m ==> !NameAbsent(table, name)
  {
    if table == [] then map[]
    else
      var rest: CharacteristicTable := table[1..];
      var m := AsMap(rest);
      assert table[0].name !in m;
      m[table[0].name := table[0].uuid]
  }

  /** The dictionary has as many keys as the table has entries. */
  lemma {:induction false} AsMapSize(table: CharacteristicTable)
    ensures |AsMap(table)| == |table|
  {
    if table != [] {
      var rest: CharacteristicTable := table[1..];
      AsMapSize(rest);
      assert table[0].name !in AsMap(rest);
    }
  }

  /** `struct ServiceDescriptor`: a name, the service UUID and its characteristics. */
  datatype ServiceDescriptor = ServiceDescriptor(
    name: string,
    uuidString: Uuid,
    characteristics: CharacteristicTable)

  /** The characteristics dictionary of `d` as a map. */
  function Dictionary(d: ServiceDescriptor): map<string, Uuid> {
    AsMap(d.characteristics)
  }

  /** The names under which `m` holds `uuid`. */
  ghost function NamesWithUuid(m: map<string, Uuid>, uuid: Uuid): set<string> {
    set name | name in m && m[name] == uuid
  }

  /** The UUIDs of `table`, entry by entry. */
  function EntryUuids(table: seq<Entry>): (r: seq<Uuid>)
    ensures |r| == |table|
    ensures forall i :: 0 <= i < |table| ==> r[i] == table[i].uuid
  {
    if table == [] then [] else [table[0].uuid] + EntryUuids(table[1..])
  }

  /** Adding a fresh name adds one name for its UUID and none for any other. */
  lemma NamesWithUuidAdd(m: map<string, Uuid>, name: string, value: Uuid, uuid: Uuid)
    requires name !in m
    ensures |NamesWithUuid(m[name := value], uuid)| == |NamesWithUuid(m, uuid)| + (if value == uuid then 1 else 0)
  {
    if value == uuid {
      assert NamesWithUuid(m[name := value], uuid) == NamesWithUuid(m, uuid) + {name};
    } else {
      assert NamesWithUuid(m[name := value], uuid) == NamesWithUuid(m, uuid);
    }
  }

  /** Each UUID occurs in the value list as often as names map to it. */
  lemma {:induction false} EntryUuidsCount(table: CharacteristicTable, uuid: Uuid)
    ensures multiset(EntryUuids(table))[uuid] == |NamesWithUuid(AsMap(table), uuid)|
  {
    if table != [] {
      var rest: CharacteristicTable := table[1..];
      var e := table[0];
      EntryUuidsCount(rest, uuid);
      assert EntryUuids(table) == [e.uuid] + EntryUuids(rest);
      assert e.name !in AsMap(rest);
      NamesWithUuidAdd(AsMap(rest), e.name, e.uuid, uuid);
    }
  }

  /** `characteristicsUUID()`: the dictionary's values, one per entry. */
  function CharacteristicsUuid(d: ServiceDescriptor): (r: seq<Uuid>)
    ensures |r| == |Dictionary(d)|
    ensures forall u :: u in r <==> u in Dictionary(d).Values
  {
    var table := d.characteristics;
    AsMapSize(table);
    var r := seq(|table|, i requires 0 <= i < |table| => table[i].uuid);
    assert forall u :: u in Dictionary(d).Values ==> u in r by {
      forall u | u in Dictionary(d).Values ensures u in r {
        var name :| name in Dictionary(d) && Dictionary(d)[name] == u;
        var i :| 0 <= i < |table| && table[i].name == name;
        assert r[i] == u;
      }
    }
    r
  }

  /**
   * Each UUID occurs in `characteristicsUUID()` as many times as names map
   * to it: a UUID shared by two names is listed twice.
   */
  lemma CharacteristicsUuidCount(d: ServiceDescriptor, uuid: Uuid)
    ensures multiset(CharacteristicsUuid(d))[uuid] == |NamesWithUuid(Dictionary(d), uuid)|
  {
    EntryUuidsCount(d.characteristics, uuid);
    assert CharacteristicsUuid(d) == EntryUuids(d.characteristics);
  }

  /** The name of the first entry of `table` whose UUID is `uuid`. */
  function FirstNameWithUuid(table: seq<Entry>, uuid: Uuid): (r: Option<string>)
    ensures r.None? <==> forall i :: 0 <= i < |table| ==> table[i].uuid != uuid
    ensures r.Some? ==> exists i :: 0 <= i < |table| && table[i] == Entry(r.value, uuid)
  {
    if table == [] then None
    else if table[0].uuid == uuid then Some(table[0].name)
    else
      var r := FirstNameWithUuid(table[1..], uuid);
      assert r.Some? ==> exists i :: 1 <= i < |table| && table[i] == Entry(r.value, uuid) by {
        if r.Some? {
          var i :| 0 <= i < |table[1..]| && table[1..][i] == Entry(r.value, uuid);
          assert table[i + 1] == Entry(r.value, uuid);
        }
      }
      r
  }

  /**
   * `characteristicNameForCharacteristicUUID(UUID:)`: a reverse lookup in
   * the dictionary. It answers nil exactly when no name maps to `uuid`, and
   * otherwise a name that maps to `uuid`.
   */
  function CharacteristicNameForCharacteristicUuid(d: ServiceDescriptor, uuid: Uuid): (r: Option<string>)
    ensures r.None? <==> uuid !in Dictionary(d).Values
    ensures r.Some? ==> r.value in Dictionary(d) && Dictionary(d)[r.value] == uuid
  {
    var r := FirstNameWithUuid(d.characteristics, uuid);
    assert r.None? ==> uuid !in Dictionary(d).Values by {
      if r.None? {
        forall name | name in Dictionary(d) ensures Dictionary(d)[name] != uuid {
          var i :| 0 <= i < |d.characteristics| && d.characteristics[i].name == name;
        }
      }
    }
    r
  }

  /**
   * When no UUID is registered twice, the reverse lookup inverts the
   * dictionary: the UUID of any name leads back to that name.
   */
  lemma NameLookupInvertsDictionary(d: ServiceDescriptor, name: string)
    requires UniqueUuids(d.characteristics)
    requires name in Dictionary(d)
    ensures CharacteristicNameForCharacteristicUuid(d, Dictionary(d)[name]) == Some(name)
  {
  }

  /** The UUIDs the services of `catalog` are sought by (`servicesDescriptors.map({$0.UUID()})`). */
  function ServiceUuids(catalog: seq<ServiceDescriptor>): (r: seq<Uuid>)
    ensures |r| == |catalog|
    ensures forall i :: 0 <= i < |catalog| ==> r[i] == catalog[i].uuidString
  {
    seq(|catalog|, i requires 0 <= i < |catalog| => catalog[i].uuidString)
  }

  /** The descriptors of `catalog` whose service UUID is `uuid`, in catalog order (the `filter`). */
  function Matching(catalog: seq<ServiceDescriptor>, uuid: Uuid): (r: seq<ServiceDescriptor>)
    ensures r == [] <==> forall i :: 0 <= i < |catalog| ==> catalog[i].uuidString != uuid
  {
    if catalog == [] then []
    else
      var rest := Matching(catalog[1..], uuid);
      assert rest == [] ==> forall i :: 1 <= i < |catalog| ==> catalog[i].uuidString != uuid by {
        if rest == [] {
          forall i | 1 <= i < |catalog| ensures catalog[i].uuidString != uuid {
            assert catalog[1..][i - 1] == catalog[i];
          }
        }
      }
      if catalog[0].uuidString == uuid then [catalog[0]] + rest else rest
  }

  /** The last descriptor of `Matching` is the one at the last index that matches. */
  lemma MatchingLast(catalog: seq<ServiceDescriptor>, uuid: Uuid)
    ensures forall i :: IsLastMatch(catalog, uuid, i) ==> LastMatchingIs(catalog, uuid, catalog[i])
  {
    if Matching(catalog, uuid) != [] {
      var k := LastMatchIndex(catalog, uuid);
      forall i | IsLastMatch(catalog, uuid, i) ensures LastMatchingIs(catalog, uuid, catalog[i]) {
        assert i == k;
      }
    }
  }

  /** Finds the index the last descriptor of `Matching` comes from. */
  lemma {:induction false} LastMatchIndex(catalog: seq<ServiceDescriptor>, uuid: Uuid) returns (i: int)
    requires Matching(catalog, uuid) != []
    ensures IsLastMatch(catalog, uuid, i) && LastMatchingIs(catalog, uuid, catalog[i])
  {
    var tail := catalog[1..];
    if Matching(tail, uuid) == [] {
      i := 0;
      forall j | 0 < j < |catalog| ensures catalog[j].uuidString != uuid {
        assert tail[j - 1] == catalog[j];
      }
    } else {
      var k := LastMatchIndex(tail, uuid);
      i := k + 1;
      forall j | i < j < |catalog| ensures catalog[j].uuidString != uuid {
        assert tail[j - 1] == catalog[j];
      }
    }
  }

  /** `Matching(catalog, uuid)` is not empty and ends with `d`. */
  ghost predicate LastMatchingIs(catalog: seq<ServiceDescriptor>, uuid: Uuid, d: ServiceDescriptor) {
    var m := Matching(catalog, uuid);
    m != [] && m[|m| - 1] == d
  }

  /** `Matching(catalog, uuid)` is not empty and starts with `d`. */
  ghost predicate FirstMatchingIs(catalog: seq<ServiceDescriptor>, uuid: Uuid, d: ServiceDescriptor) {
    var m := Matching(catalog, uuid);
    m != [] && m[0] == d
  }

  /** The first descriptor of `Matching` is the one at the first index that matches. */
  lemma MatchingFirst(catalog: seq<ServiceDescriptor>, uuid: Uuid)
    ensures forall i :: IsFirstMatch(catalog, uuid, i) ==> FirstMatchingIs(catalog, uuid, catalog[i])
  {
    if Matching(catalog, uuid) != [] {
      var k := FirstMatchIndex(catalog, uuid);
      forall i | IsFirstMatch(catalog, uuid, i) ensures FirstMatchingIs(catalog, uuid, catalog[i]) {
        assert i == k;
      }
    }
  }

  /** Finds the index the first descriptor of `Matching` comes from. */
  lemma {:induction false} FirstMatchIndex(catalog: seq<ServiceDescriptor>, uuid: Uuid) returns (i: int)
    requires Matching(catalog, uuid) != []
    ensures IsFirstMatch(catalog, uuid, i) && FirstMatchingIs(catalog, uuid, catalog[i])
  {
    if catalog[0].uuidString == uuid {
      i := 0;
    } else {
      var tail := catalog[1..];
      var k := FirstMatchIndex(tail, uuid);
      i := k + 1;
      forall j | 0 < j < i ensures catalog[j].uuidString != uuid {
        assert tail[j - 1] == catalog[j];
      }
    }
  }

  /** Index `i` is the last index of `catalog` whose service UUID is `uuid`. */
  ghost predicate IsLastMatch(catalog: seq<ServiceDescriptor>, uuid: Uuid, i: int) {
    && 0 <= i < |catalog|
    && catalog[i].uuidString == uuid
    && forall j :: i < j < |catalog| ==> catalog[j].uuidString != uuid
  }

  /** Index `i` is the first index of `catalog` whose service UUID is `uuid`. */
  ghost predicate IsFirstMatch(catalog: seq<ServiceDescriptor>, uuid: Uuid, i: int) {
    && 0 <= i < |catalog|
    && catalog[i].uuidString == uuid
    && forall j :: 0 <= j < i ==> catalog[j].uuidString != uuid
  }

  /**
   * `serviceDescriptorForService(service:)`: nil when no descriptor has the
   * service's UUID, otherwise the LAST descriptor that has it.
   */
  function ServiceDescriptorForService(catalog: seq<ServiceDescriptor>, serviceUuid: Uuid): (r: Option<ServiceDescriptor>)
    ensures r.None? <==> forall i :: 0 <= i < |catalog| ==> catalog[i].uuidString != serviceUuid
    ensures forall i :: IsLastMatch(catalog, serviceUuid, i) ==> r == Some(catalog[i])
  {
    var descriptors := Matching(catalog, serviceUuid);
    if |descriptors| > 0 then
      MatchingLast(catalog, serviceUuid);
      Some(descriptors[|descriptors| - 1])
    else
      None
  }

  /**
   * The search of the services-discovered callback (`filter(...).first`):
   * nil when no descriptor has the service's UUID, otherwise the FIRST
   * descriptor that has it.
   */
  function FirstServiceDescriptorForService(catalog: seq<ServiceDescriptor>, serviceUuid: Uuid): (r: Option<ServiceDescriptor>)
    ensures r.None? <==> forall i :: 0 <= i < |catalog| ==> catalog[i].uuidString != serviceUuid
    ensures forall i :: IsFirstMatch(catalog, serviceUuid, i) ==> r == Some(catalog[i])
  {
    var descriptors := Matching(catalog, serviceUuid);
    if |descriptors| > 0 then
      MatchingFirst(catalog, serviceUuid);
      Some(descriptors[0])
    else
      None
  }

  /** No two descriptors of the catalog share a service UUID. */
  ghost predicate UniqueServiceUuids(catalog: seq<ServiceDescriptor>) {
    forall i, j :: 0 <= i < j < |catalog| ==> catalog[i].uuidString != catalog[j].uuidString
  }

  /**
   * The two searches disagree only when a service UUID is registered
   * twice: on a catalog without repeated service UUIDs the first and the
   * last match are the same descriptor.
   */
  lemma FirstAndLastMatchAgree(catalog: seq<ServiceDescriptor>, serviceUuid: Uuid)
    requires UniqueServiceUuids(catalog)
    ensures FirstServiceDescriptorForService(catalog, serviceUuid) == ServiceDescriptorForService(catalog, serviceUuid)
  {
  }

  const BLEBEE_SERVICE_UUID: Uuid := "EF080D8C-C3BE-41FF-BD3F-05A5F4795D7F"
  const BLEBEE_RX_CHARACTERISTIC_UUID: Uuid := "A1E8F5B1-696B-4E4C-87C6-69DFE0B0093B"
  const BLEBEE_TX_CHARACTERISTIC_UUID: Uuid := "1494440E-9A58-4CC0-81E4-DDEA7F74F623"

  /**
   * `loadServicesDescriptors()`: one service, the BLEBee service, with its
   * two characteristics under two names and two distinct UUIDs.
   */
  function LoadServicesDescriptors(): (r: seq<ServiceDescriptor>)
    ensures |r| == 1 && r[0].name == "BLEBleeService" && r[0].uuidString == BLEBEE_SERVICE_UUID
    ensures Dictionary(r[0]) == map["WriteToBLEBee" := BLEBEE_RX_CHARACTERISTIC_UUID,
                                    "ReadFromBLEBee" := BLEBEE_TX_CHARACTERISTIC_UUID]
    ensures UniqueUuids(r[0].characteristics) && UniqueServiceUuids(r)
  {
    var characteristics := [Entry("WriteToBLEBee", BLEBEE_RX_CHARACTERISTIC_UUID),
                            Entry("ReadFromBLEBee", BLEBEE_TX_CHARACTERISTIC_UUID)];
    assert characteristics[1..] == [characteristics[1]] && characteristics[1..][1..] == [];
    assert UniqueNames(characteristics[1..]);
    [ServiceDescriptor("BLEBleeService", BLEBEE_SERVICE_UUID, characteristics)]
  }

  /**
   * On the loaded catalog every lookup has its intended answer: the scan
   * asks for the BLEBee service, which both searches find, whose
   * characteristic UUIDs are the two listed, and each of which leads back
   * to its name.
   */
  lemma LoadedCatalogLookups()
    ensures var catalog := LoadServicesDescriptors();
            && ServiceUuids(catalog) == [BLEBEE_SERVICE_UUID]
            && CharacteristicsUuid(catalog[0]) == [BLEBEE_RX_CHARACTERISTIC_UUID, BLEBEE_TX_CHARACTERISTIC_UUID]
            && ServiceDescriptorForService(catalog, BLEBEE_SERVICE_UUID) == Some(catalog[0])
            && FirstServiceDescriptorForService(catalog, BLEBEE_SERVICE_UUID) == Some(catalog[0])
            && CharacteristicNameForCharacteristicUuid(catalog[0], BLEBEE_RX_CHARACTERISTIC_UUID) == Some("WriteToBLEBee")
            && CharacteristicNameForCharacteristicUuid(catalog[0], BLEBEE_TX_CHARACTERISTIC_UUID) == Some("ReadFromBLEBee")
  {
    var catalog := LoadServicesDescriptors();
    NameLookupInvertsDictionary(catalog[0], "WriteToBLEBee");
    NameLookupInvertsDictionary(catalog[0], "ReadFromBLEBee");
  }
}
