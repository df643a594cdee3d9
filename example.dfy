/** The register catalog of the example test bench, and what the model
    says about it, about catalogs whose keys collide, and about the example's
    session against a driver that acknowledges every transaction. */
module Example {
  import opened Wrappers
  import opened LittleEndian
  import opened RegisterUnion
  import opened Bus
  import opened PyDict
  import opened Catalog
  import opened Ral

  const IntEnableName: string := "SMN_MST_COMMON_BLOCK_SMN_MST_INT_ENABLE"

  /** `register_definitions` of the example: the one INT_ENABLE register. */
  function IntEnableDefinitions(): seq<RegisterDefinition>
  {
    [RegisterDefinition(IntEnableName, IntEnableRegAddr, IntEnableRegOffset)]
  }

  /** In that catalog the name and the full address both put the full
      address on the bus, the offset puts the offset on the bus, all three
      reach the one instance, and 0xFFFFFFFF is not found. */
  lemma IntEnableResolution()
    ensures var defs := IntEnableDefinitions();
            var regs := BuildRegisters(defs);
            var amap := BuildAddressMap(defs);
            && Resolve(regs, amap, StrId(IntEnableName)) == Success(Target(0, IntEnableRegAddr))
            && Resolve(regs, amap, IntId(IntEnableRegAddr)) == Success(Target(0, IntEnableRegAddr))
            && Resolve(regs, amap, IntId(IntEnableRegOffset)) == Success(Target(0, IntEnableRegOffset))
            && Resolve(regs, amap, IntId(0xFFFFFFFF)) == Failure(AddressNotFound)
  {
    var defs := IntEnableDefinitions();
    assert NamesDistinct(defs) && KeysDistinct(defs);
    NameResolvesToAddr(defs, 0);
    AddressesResolveToOwner(defs, BuildRegisters(defs), 0);
    NumericResolution(defs, 0xFFFFFFFF);
  }

  /** Two registers sharing an offset: the later one takes the key over, the
      key keeps its place before the later register's own 'addr', so the
      later register's NAME puts the shared offset on the bus. */
  lemma SharedOffsetTakenOver()
    ensures var defs := [RegisterDefinition("A", 0x10, 0x98), RegisterDefinition("B", 0x20, 0x98)];
            var regs := BuildRegisters(defs);
            var amap := BuildAddressMap(defs);
            && amap == [(0x10, 0), (0x98, 1), (0x20, 1)]
            && Resolve(regs, amap, IntId(0x98)) == Success(Target(1, 0x98))
            && Resolve(regs, amap, StrId("A")) == Success(Target(0, 0x10))
            && Resolve(regs, amap, StrId("B")) == Success(Target(1, 0x98))
  {
    var a := RegisterDefinition("A", 0x10, 0x98);
    var defs := [a, RegisterDefinition("B", 0x20, 0x98)];
    assert defs[..1] == [a];
    assert [a][..0] == [];
    var m1 := BuildAddressMap([a]);
    assert m1 == Put(Put(BuildAddressMap([a][..0]), 0x10, 0), 0x98, 0);
    assert BuildAddressMap([a][..0]) == [];
    assert m1 == [(0x10, 0), (0x98, 0)];
    var m2 := Put(m1, 0x20, 1);
    assert m2 == [(0x10, 0), (0x98, 0), (0x20, 1)] by {
      assert m1[1..] == [(0x98, 0)];
      assert Put<int, int>([(0x98, 0)], 0x20, 1) == [(0x98, 0)] + Put<int, int>([], 0x20, 1);
    }
    var amap := BuildAddressMap(defs);
    assert amap == Put(m2, 0x98, 1);
    assert amap == [(0x10, 0), (0x98, 1), (0x20, 1)] by {
      assert m2[1..] == [(0x98, 0), (0x20, 1)];
    }
    FirstKeyOfAt(amap, 1, 1);
    FirstKeyOfAt(amap, 0, 0);
  }

  /** Two registers with the same keys: the later one takes both over and
      the earlier one, though still registered by name, has no address. */
  lemma RegisterLeftWithoutAddress()
    ensures var defs := [RegisterDefinition("A", 1, 2), RegisterDefinition("B", 1, 2)];
            var regs := BuildRegisters(defs);
            var amap := BuildAddressMap(defs);
            && "A" in regs
            && Resolve(regs, amap, StrId("A")) == Failure(AddressNotFound)
            && Resolve(regs, amap, StrId("B")) == Success(Target(1, 1))
  {
    var a := RegisterDefinition("A", 1, 2);
    var defs := [a, RegisterDefinition("B", 1, 2)];
    assert defs[..1] == [a];
    assert [a][..0] == [];
    var m1 := BuildAddressMap([a]);
    assert m1 == Put(Put(BuildAddressMap([a][..0]), 1, 0), 2, 0);
    assert BuildAddressMap([a][..0]) == [];
    assert m1 == [(1, 0), (2, 0)];
    var m2 := Put(m1, 1, 1);
    assert m2 == [(1, 1), (2, 0)];
    var amap := BuildAddressMap(defs);
    assert amap == Put(m2, 2, 1);
    assert amap == [(1, 1), (2, 1)] by {
      assert m2[1..] == [(2, 0)];
    }
    FirstKeyOfAt(amap, 1, 0);
  }

  /** The stub the session runs against: every transaction succeeds, and a
      read returns 0xDEADBEEFC0FFEE. */
  function AcknowledgingDriver(): BusDriver
  {
    (t: BusTransaction, s: Status) =>
      if t.isWrite then DriverReply(Status(true, None), t.data)
      else DriverReply(Status(true, None), AsBytes(0xDEADBEEFC0FFEE))
  }

  /** The session of the example test bench: a write by name updates the
      shadow before anything else, a read by name returns what the driver
      supplied, a write by full address sends the full address, a read by
      offset sends the offset, and a read of 0xFFFFFFFF fails without
      reaching the driver. */
  method ExampleSession()
    returns (shadowAfterWrite: U64, readValue: U64, readStatus: Status,
             writeAddress: int, readAddress: int, missing: Status, missingSent: Option<BusTransaction>)
    ensures shadowAfterWrite == 0x1A2B3C4D
    ensures readValue == 0xDEADBEEFC0FFEE && readStatus.success
    ensures writeAddress == IntEnableRegAddr && readAddress == IntEnableRegOffset
    ensures missing == Status(false, Some(AddressNotFound)) && missingSent.None?
  {
    IntEnableResolution();
    var ral := new RAL(IntEnableDefinitions());
    ral.Connect(AcknowledgingDriver());

    var status, sent := ral.Write(StrId(IntEnableName), 0x1A2B3C4D);
    shadowAfterWrite := ral.shadow[0];

    readValue, readStatus, sent := ral.Read(StrId(IntEnableName));
    FromBytesAsBytes(0xDEADBEEFC0FFEE);

    status, sent := ral.Write(IntId(IntEnableRegAddr), 0xAABBCCDD);
    writeAddress := sent.value.address;

    var v;
    v, status, sent := ral.Read(IntId(IntEnableRegOffset));
    readAddress := sent.value.address;

    v, missing, missingSent := ral.Read(IntId(0xFFFFFFFF));
  }
}
