/** The `RAL` class: the register catalog built at construction, one shadow
    value per register instance, and the bus driver bound by `connect`. */
module Ral {
  import opened Wrappers
  import opened LittleEndian
  import opened RegisterUnion
  import opened PyDict
  import opened Bus
  import opened Catalog

  /** `bytearray(size_bytes)`: the zeroed buffer `read` hands the driver. */
  function ReadBuffer(): (bs: seq<byte>)
    ensures |bs| == 8 && forall k :: 0 <= k < |bs| ==> bs[k] == 0
  {
    seq(AccessSize(false), _ => 0)
  }

  class RAL {
    /** `_registers`: register name -> instance. */
    const registers: map<string, int>
    /** `_address_map`: 'addr' and 'offset' keys -> instance, in insertion order. */
    const addressMap: Dict<int, int>
    /** The definitions the catalog was built from. */
    ghost const definitions: seq<RegisterDefinition>
    /** `val` of each register instance, the RAL's shadow copy of the hardware. */
    var shadow: seq<U64>
    /** `_driver`, absent until `connect`. */
    var driver: Option<BusDriver>

    ghost predicate Valid()
      reads this
    {
      && registers == BuildRegisters(definitions)
      && addressMap == BuildAddressMap(definitions)
      && |shadow| == |definitions|
      && DistinctKeys(addressMap)
      && (forall j :: 0 <= j < |addressMap| ==> 0 <= addressMap[j].1 < |shadow|)
      && (forall x :: x in registers ==> 0 <= registers[x] < |shadow|)
    }

    /** `__init__`: one instance per definition, starting at the default
        value; nothing is checked and nothing is rejected. */
    constructor (defs: seq<RegisterDefinition>)
      ensures Valid() && definitions == defs
      ensures shadow == seq(|defs|, _ => DefaultValue)
      ensures driver.None?
    {
      var regs: map<string, int> := map[];
      var amap: Dict<int, int> := [];
      var vals: seq<U64> := [];
      var k := 0;
      while k < |defs|
        invariant 0 <= k <= |defs|
        invariant regs == BuildRegisters(defs[..k])
        invariant amap == BuildAddressMap(defs[..k])
        invariant vals == seq(k, _ => DefaultValue)
      {
        var d := defs[k];
        assert defs[..k + 1][..k] == defs[..k];
        regs := regs[d.name := k];
        amap := Put(Put(amap, d.addr, k), d.offset, k);
        vals := vals + [DefaultValue];
        k := k + 1;
      }
      assert defs[..k] == defs;
      BuildAddressMapWellFormed(defs);
      BuildRegistersValues(defs);
      registers := regs;
      addressMap := amap;
      definitions := defs;
      shadow := vals;
      driver := None;
    }

    /** `connect`: bind the driver. */
    method Connect(d: BusDriver)
      requires Valid()
      modifies this`driver
      ensures Valid() && driver == Some(d)
    {
      driver := Some(d);
    }

    /** The `for a, r in self._address_map.items(): if r is reg_instance: addr = a; break` scan. */
    method FindAddress(instance: int) returns (addr: Option<int>)
      requires Valid()
      ensures addr == FirstKeyOf(addressMap, instance)
    {
      addr := None;
      var k := 0;
      while k < |addressMap|
        invariant 0 <= k <= |addressMap|
        invariant forall j :: 0 <= j < k ==> addressMap[j].1 != instance
      {
        if addressMap[k].1 == instance {
          addr := Some(addressMap[k].0);
          FirstKeyOfAt(addressMap, instance, k);
          return;
        }
        k := k + 1;
      }
    }

    /** The identifier handling `read` and `write` share. */
    method ResolveIdentifier(id: Identifier) returns (r: Result<Target, string>)
      requires Valid()
      ensures r == Resolve(registers, addressMap, id)
    {
      match id
      case IntId(n) =>
        var inst := Get(addressMap, n);
        if inst.None? {
          r := Failure(AddressNotFound);
        } else {
          r := Success(Target(inst.value, n));
        }
      case StrId(s) =>
        if s !in registers {
          r := Failure(RegisterNotFound);
        } else {
          var a := FindAddress(registers[s]);
          if a.None? {
            r := Failure(AddressNotFound);
          } else {
            r := Success(Target(registers[s], a.value));
          }
        }
      case OtherId =>
        r := Failure(InvalidIdentifierType);
    }

    /** `read`: resolve, hand the driver an 8-byte buffer, and on success
        store the little-endian value of the buffer as the shadow and return
        it. `sent` is the transaction handed to the driver, if any. */
    method Read(id: Identifier) returns (value: U64, status: Status, sent: Option<BusTransaction>)
      requires Valid()
      requires driver.Some? || Resolve(registers, addressMap, id).Failure?
      modifies this`shadow
      ensures Valid()
      ensures var res := Resolve(registers, addressMap, id);
              if res.Failure? then
                && value == 0 && status == Status(false, Some(res.error)) && sent.None?
                && shadow == old(shadow)
              else
                var t := res.value;
                var reply := driver.value(BusTransaction(t.address, ReadBuffer(), false), InitialStatus);
                && sent == Some(BusTransaction(t.address, ReadBuffer(), false))
                && status == reply.status
                && if reply.status.success then
                     shadow == old(shadow)[t.instance := Store(Decode(reply.buffer))] && value == shadow[t.instance]
                   else
                     shadow == old(shadow) && value == 0
    {
      var res := ResolveIdentifier(id);
      if res.Failure? {
        return 0, Status(false, Some(res.error)), None;
      }
      var t := res.value;
      var buffer := ReadBuffer();
      var reply := driver.value(BusTransaction(t.address, buffer, false), InitialStatus);
      sent := Some(BusTransaction(t.address, buffer, false));
      status := reply.status;
      if status.success {
        shadow := shadow[t.instance := Store(Decode(reply.buffer))];
        value := shadow[t.instance];
      } else {
        value := 0;
      }
    }

    /** `write`: resolve, store the data as the shadow BEFORE the driver is
        called, send the shadow's 8 little-endian bytes, and return the
        driver's status; a failed write leaves the new shadow in place. */
    method Write(id: Identifier, data: int) returns (status: Status, sent: Option<BusTransaction>)
      requires Valid()
      requires driver.Some? || Resolve(registers, addressMap, id).Failure?
      modifies this`shadow
      ensures Valid()
      ensures var res := Resolve(registers, addressMap, id);
              if res.Failure? then
                status == Status(false, Some(res.error)) && sent.None? && shadow == old(shadow)
              else
                var t := res.value;
                && shadow == old(shadow)[t.instance := Store(data)]
                && sent == Some(BusTransaction(t.address, AsBytes(shadow[t.instance]), true))
                && status == driver.value(BusTransaction(t.address, AsBytes(shadow[t.instance]), true), InitialStatus).status
    {
      var res := ResolveIdentifier(id);
      if res.Failure? {
        return Status(false, Some(res.error)), None;
      }
      var t := res.value;
      shadow := shadow[t.instance := Store(data)];
      var bytes := AsBytes(shadow[t.instance]);
      var reply := driver.value(BusTransaction(t.address, bytes, true), InitialStatus);
      sent := Some(BusTransaction(t.address, bytes, true));
      status := reply.status;
    }
  }
}
