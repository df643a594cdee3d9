# cocotb-ral register abstraction layer, modelled in Dafny

This project models the `RAL` class of `ral_wip.py` and the 64-bit value side of its
register union `SMN_MST_COMMON_BLOCK_SMN_MST_INT_ENABLE_reg_u`, and proves what that
code does.

- **Catalog construction.** `RAL.__init__` creates one register instance per definition,
  with shadow value 0. It fills `_registers` (name → instance) and `_address_map`
  (`addr` and then `offset` → instance). `_address_map` is an insertion-ordered Python
  dict. Nothing is rejected: a later definition that reuses a key takes it over, and the
  key keeps its original place in the order.
- **Identifier resolution.** `read` and `write` repeat the same resolution code, so it is
  modelled once.
  - An int is looked up in `_address_map` and is sent to the bus unchanged, even when it
    is an offset.
  - A name is looked up in `_registers`. Its bus address comes from a `for … break` scan:
    the first key, in insertion order, whose value is that instance.
  - Any other identifier is rejected.
- **Shadow policy.**
  - `read` always uses an 8-byte buffer.
  - `read` updates the shadow only when the driver reports success.
  - `write` sets the shadow before the driver is called and never restores it.
- **Little-endian serialisation.** `as_bytes` and `from_bytes` on the 64-bit `val` field.

How the model is laid out:

- `wrappers.dfy`: Option and Result.
- `little_endian.dfy`: `int.to_bytes` and `int.from_bytes` in little-endian order.
- `register_union.dfy`: the register union's `val`, its default value, and `as_bytes` /
  `from_bytes`. It also holds the constants of the register file section.
- `py_dict.dfy`: a Python dict as a sequence of entries in insertion order. Assigning to
  an existing key replaces its value where it stands. Assigning to a new key appends it.
- `bus.dfy`: the status dictionary, the transaction handed to the driver, and the driver
  itself. The driver is a function from the transaction and the starting status
  `{"success": False}` to the status and buffer it leaves behind. `_perform_transaction`
  (lines 70-77) is that one call, made inside `Read` and `Write`.
- `catalog.dfy`: what `__init__` builds, as functions of the definitions; identifier
  resolution; and the lemmas about both.
- `ral.dfy`: the `RAL` class.
  - It keeps the catalog in `const` fields.
  - `shadow` holds the `val` of every instance. An instance is its index, and `r is
    reg_instance` becomes equality of indices.
  - `driver` holds the bound driver.
  - The constructor runs the loop of `__init__`. `FindAddress` is the `for … break`
    scan. `Read`, `Write` and `Connect` are the methods of the same names.
  - `Read` and `Write` also return `sent`, the transaction handed to the driver (None
    when the driver was not called). This lets the contracts say when the bus is used.
- `example.dfy`: the catalog of the example test bench from the source's constants, two
  catalogs whose keys collide, and the example session against a stub driver.

What the code does that a reader might not expect:

- There are no duplicate-name or duplicate-address errors. A reused key is silently taken
  over.
- Name resolution does not always give the register's `addr` (its full address). It gives
  the first key still mapping to the instance, which can be the `offset` (`Example.SharedOffsetTakenOver`).
  If later definitions took both keys, it fails with "Address not found"
  (`Example.RegisterLeftWithoutAddress`).
- A numeric alias is sent to the bus as is. An `offset` is not translated to its register's
  `addr`.
- The access width is always 8 bytes. The `isinstance(…, c_uint32)` tests at lines 42
  and 119 read a `c_uint64` field, whose value is a plain Python int, so they never hold.
- `write` does no range check. Assigning to the `c_uint64` field keeps the low 64 bits
  (`RegisterUnion.Store`).
- The error strings are the code's: "Address not found", "Register not found" and
  "Invalid identifier type".
- Calling `read`/`write` before `connect` raises `AttributeError` only when resolution
  has succeeded. Resolution failures return their status without touching `_driver`. So
  `Read`/`Write` require a bound driver only when the identifier resolves.

## Model

| member | source | states |
|---|---|---|
| LittleEndian.Decode | ral_wip.py:48 | `int.from_bytes(bs, 'little')` is below 256^len(bs) |
| LittleEndian.Encode | ral_wip.py:43 | `v.to_bytes(n, 'little')` has exactly n bytes; defined only when v fits in n bytes, as Python raises otherwise |
| LittleEndian.DecodeEncode | ral_wip.py:43 | decoding the n-byte little-endian encoding of v gives v back |
| LittleEndian.EncodeDecode | ral_wip.py:48 | re-encoding a decoded byte sequence at its own length gives the same bytes |
| LittleEndian.EncodeDigit | ral_wip.py:43 | byte k of the encoding is base-256 digit k of the value (least significant first) |
| RegisterUnion.Store | ral_wip.py:30-34 | assigning an int to the `c_uint64` field keeps it when in range and otherwise keeps it modulo 2^64 |
| RegisterUnion.AccessSize | ral_wip.py:42 | the chosen width is 4 or 8 bytes, and 8 whenever `val` is not a `c_uint32` object |
| RegisterUnion.AsBytes | ral_wip.py:40-43 | `as_bytes` always yields 8 bytes |
| RegisterUnion.FromBytes | ral_wip.py:45-49 | `from_bytes` of at most 8 bytes gives a `val` equal to their little-endian value |
| RegisterUnion.FromBytesAsBytes | ral_wip.py:40-49 | `from_bytes(as_bytes(v)).val == v` for every 64-bit v |
| RegisterUnion.AsBytesFromBytes | ral_wip.py:40-49 | `as_bytes(from_bytes(bs))` is bs for every 8-byte bs |
| RegisterUnion.AsBytesDigit | ral_wip.py:43 | byte k of `as_bytes` is bits 8k to 8k+7 of the value |
| PyDict.Get | ral_wip.py:95 | `dict.get` misses exactly when no entry has the key, and a hit is some entry's value for that key |
| PyDict.FirstKeyOf | ral_wip.py:105-108 | the scan finds nothing exactly when no entry holds the value; otherwise it finds the key of the first entry holding it |
| PyDict.Put | ral_wip.py:67-68 | `d[k] = v` grows the dict by at most one entry; GetPutSame, GetPutOther and KeysPut pin down its lookups and its key order |
| PyDict.GetPutSame | ral_wip.py:67-68 | after `d[k] = v`, `d.get(k)` is v |
| PyDict.GetPutOther | ral_wip.py:67-68 | `d[k] = v` leaves every other key's value unchanged |
| PyDict.KeysPut | ral_wip.py:67-68 | `d[k] = v` keeps an existing key in its place and appends a new key last |
| PyDict.PutDistinct | ral_wip.py:67-68 | `d[k] = v` keeps the keys distinct |
| Catalog.BuildRegisters | ral_wip.py:58-66 | `_registers` after the loop maps names only to created instances; BuildRegistersDomain and BuildRegistersNames pin down its keys and values |
| Catalog.BuildAddressMap | ral_wip.py:58-68 | `_address_map` after the loop holds at most two keys per definition; BuildAddressMapLookup and BuildAddressMapOrder pin down its lookups and its key order |
| Catalog.BuildRegistersDomain | ral_wip.py:58-66 | the register names are exactly the definitions' names: none is rejected |
| Catalog.BuildRegistersNames | ral_wip.py:58-66 | each definition's name maps to the instance created for it |
| Catalog.BuildAddressMapWellFormed | ral_wip.py:56-68 | the address map has distinct keys and every value is one of the created instances |
| Catalog.LookupStep | ral_wip.py:67-68 | one loop iteration: the new definition's `addr` and `offset` then look it up, and every other key keeps its lookup |
| Catalog.BuildAddressMapLookup | ral_wip.py:58-68 | a key is absent exactly when no definition assigned it; otherwise it maps to the last definition that assigned it |
| Catalog.BuildAddressMapOrder | ral_wip.py:58-68 | the address map iterates its keys in the order of their first assignment (each `addr` before its `offset`) |
| Catalog.Resolve | ral_wip.py:91-114 | the three error statuses arise exactly in their cases and no other failure exists, so every other identifier resolves; a number resolves to itself as bus address; a name resolves to its own instance and to the first entry, in order, holding that instance |
| Catalog.ResolvedAddressMapsBack | ral_wip.py:93-111 | in a map with distinct keys, the bus address of a resolved target looks up that same instance |
| Catalog.NumericResolution | ral_wip.py:93-98 | a number is "Address not found" exactly when no definition assigned it; otherwise it resolves, to the last definition that did, with itself as bus address |
| Catalog.DistinctClaimsLayout | ral_wip.py:67-68 | with no colliding keys, the map holds each definition's `addr` and then its `offset`, in definition order |
| Catalog.ScanFindsAddr | ral_wip.py:105-108 | with no colliding keys, the scan for an instance stops at its `addr` |
| Catalog.NameResolvesToAddr | ral_wip.py:99-111 | with distinct names and no colliding keys, a name resolves to its instance with its `addr` as bus address |
| Catalog.AddressesResolveToOwner | ral_wip.py:93-98 | with no colliding keys, a register's `addr` and its `offset` both reach its instance, and each is itself the bus address |
| Ral.ReadBuffer | ral_wip.py:118-122 | the read buffer is 8 zero bytes |
| Ral.RAL.constructor | ral_wip.py:54-68 | the catalog is built from the definitions without rejecting any, and every shadow starts at the default 0 |
| Ral.RAL.Connect | ral_wip.py:176-179 | binds the driver and changes nothing else |
| Ral.RAL.FindAddress | ral_wip.py:105-111 | the `for … break` scan returns the first key holding the instance, or nothing |
| Ral.RAL.ResolveIdentifier | ral_wip.py:91-114 | identifier handling computes exactly the resolution of the catalog |
| Ral.RAL.Read | ral_wip.py:79-130 | on a resolution failure: 0 and the error status, no driver call, shadows unchanged. Otherwise `_perform_transaction` (lines 70-77) calls the driver once: it gets an 8-byte zero read at the resolved address and a status starting as `{"success": False}`, and its status is returned as is. On success that instance's shadow becomes the buffer's little-endian value stored into the `c_uint64` field (line 127) and is returned. On failure it returns 0 and no shadow changes |
| Ral.RAL.Write | ral_wip.py:132-174 | on a resolution failure: the error status, no driver call, shadows unchanged. Otherwise only the target's shadow changes: it becomes `data` modulo 2^64 before the call. `_perform_transaction` (lines 70-77) then calls the driver once with that shadow's 8 little-endian bytes at the resolved address and a status starting as `{"success": False}`; its status is returned as is, and nothing is rolled back |
| Example.IntEnableResolution | ral_wip.py:12-13 | in the INT_ENABLE catalog, the name resolves to the full address, the full address and the offset resolve to themselves, and 0xFFFFFFFF is not found |
| Example.SharedOffsetTakenOver | ral_wip.py:67-68 | a later register that reuses an offset takes the key over, and its name then resolves to that offset rather than its own `addr` |
| Example.RegisterLeftWithoutAddress | ral_wip.py:105-111 | a register whose keys were all taken over is still named, but its name resolves to "Address not found" |
| Example.ExampleSession | example.py:28-104 | the example session: the shadow equals the written data right after the write, a read returns the driver's value, the full address and the offset are each sent as is, and 0xFFFFFFFF fails without reaching the driver |

## Left out

- Simulation plumbing: `async`/`await`, the `cocotb.log.error` calls and the unused
  imports `Force`, `Release`, `RisingEdge` and `Timer`. Only the returned statuses are
  modelled.
- The bus driver's own behaviour (`driver.read`, `driver.write`, `APBDriver`). It is an
  external collaborator, modelled as a function from the transaction and the starting
  status to the resulting status and buffer. The driver sees only the transaction. It
  keeps no state between calls: two identical transactions get the same reply until the
  next `connect`, so a device whose answers change is represented by connecting a new
  driver. The back-reference `driver.ral = self` (line 179) is left out, so a driver
  cannot read the RAL's shadows during the call. The write-before-call order shows only
  in the bytes sent.
- The bit-field structure `SMN_MST_COMMON_BLOCK_SMN_MST_INT_ENABLE_reg_t` and the `f`
  overlay (lines 15-26, 33). Bit-field layout is defined by ctypes and the platform.
- Attribute injection with `setattr`/`getattr` (lines 65, 100, 153). Names are looked
  up in `_registers`. This differs for identifiers, registered or not, that name an
  attribute of the RAL object (`read`, `connect`, `_address_map`, `_driver`, `__dict__`,
  …). For an unregistered one the source answers "Address not found" (lines 111, 164),
  because `getattr` finds the attribute and the scan finds no key holding it, where
  `Catalog.Resolve` answers "Register not found". A register named after one of those
  attributes breaks `__init__` or the RAL's own methods.
- `reg_info['class']`: every definition instantiates the one register union class,
  whose default is 0. A `KeyError` for a definition without 'addr' or 'offset' is not
  modelled.
- The `AttributeError` raised by `read`/`write` before `connect` when resolution
  succeeds. It is a precondition instead. In `write` that case has a side effect the model
  does not show: `data` is already stored in the shadow (line 170) when `self._driver`
  raises (line 173).
- The status dictionary: a status without an "error" key and one whose "error" is `None` are the
  same value here. The RAL itself builds only `{"success": False}` and error statuses with a
  string; only a driver could tell the two apart.
- `write` with data that is not an int (a `TypeError` in ctypes). `data` is an int.
- Python's `bool` being an `int` subclass. `True`/`False` identifiers are just numeric
  identifiers 1/0 here.
- example.py in full. It is a cocotb test bench that calls `read` and `write` with a
  third status argument that their signatures do not take. Its assertions are used as
  evidence in `Example.ExampleSession`, against a stub driver whose reads return the
  value that bench expects.
