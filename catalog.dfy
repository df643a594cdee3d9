/** What `RAL.__init__` builds from the register definitions, and how `read`
    and `write` resolve an identifier against it. Register instances are
    numbered in definition order; instance i is the object created for the
    i-th definition. */
module Catalog {
  import opened Wrappers
  import opened PyDict

  /** One entry of `register_definitions`: its key and its 'addr' and 'offset'. */
  datatype RegisterDefinition = RegisterDefinition(name: string, addr: int, offset: int)

  /** The two address-map keys a definition assigns. */
  predicate Claims(def: RegisterDefinition, a: int)
  {
    def.addr == a || def.offset == a
  }

  /** Definitions come from a dict, so their names are distinct. */
  ghost predicate NamesDistinct(defs: seq<RegisterDefinition>)
  {
    forall i, j :: 0 <= i < j < |defs| ==> defs[i].name != defs[j].name
  }

  /** No two key assignments of `__init__` use the same key: each definition's
      'addr' differs from its 'offset', and no later definition reuses either. */
  ghost predicate KeysDistinct(defs: seq<RegisterDefinition>)
  {
    && (forall i :: 0 <= i < |defs| ==> defs[i].addr != defs[i].offset)
    && (forall i, j :: 0 <= i < j < |defs| ==> !Claims(defs[j], defs[i].addr) && !Claims(defs[j], defs[i].offset))
  }

  ghost predicate Distinct(s: seq<int>)
  {
    forall i, j :: 0 <= i < j < |s| ==> s[i] != s[j]
  }

  /** `_registers` after the loop of `__init__` has run over defs. */
  function BuildRegisters(defs: seq<RegisterDefinition>): (registers: map<string, int>)
    ensures forall x :: x in registers ==> 0 <= registers[x] < |defs|
  {
    if defs == [] then map[]
    else
      var n := |defs| - 1;
      BuildRegisters(defs[..n])[defs[n].name := n]
  }

  /** `_address_map` after the loop of `__init__` has run over defs: each
      definition assigns its 'addr' key and then its 'offset' key. */
  function BuildAddressMap(defs: seq<RegisterDefinition>): (addressMap: Dict<int, int>)
    ensures |addressMap| <= 2 * |defs|
  {
    if defs == [] then []
    else
      var n := |defs| - 1;
      Put(Put(BuildAddressMap(defs[..n]), defs[n].addr, n), defs[n].offset, n)
  }

  /** Every key assignment of `__init__`, in the order it performs them:
      step 2i assigns definition i's 'addr', step 2i + 1 its 'offset'. */
  function ClaimKeys(defs: seq<RegisterDefinition>): (ks: seq<int>)
    ensures |ks| == 2 * |defs|
  {
    seq(2 * |defs|, k requires 0 <= k < 2 * |defs| => if k % 2 == 0 then defs[k / 2].addr else defs[k / 2].offset)
  }

  /** Step k of the key assignments is done by definition k / 2. */
  lemma ClaimAt(defs: seq<RegisterDefinition>, k: nat)
    requires k < 2 * |defs|
    ensures k / 2 < |defs| && ClaimKeys(defs)[k] == (if k % 2 == 0 then defs[k / 2].addr else defs[k / 2].offset)
  {
  }

  lemma ClaimPair(defs: seq<RegisterDefinition>, i: nat)
    requires i < |defs|
    ensures ClaimKeys(defs)[2 * i] == defs[i].addr && ClaimKeys(defs)[2 * i + 1] == defs[i].offset
  {
    ClaimAt(defs, 2 * i);
    ClaimAt(defs, 2 * i + 1);
  }

  lemma ClaimKeysAppend(defs: seq<RegisterDefinition>)
    requires defs != []
    ensures var n := |defs| - 1;
            ClaimKeys(defs) == ClaimKeys(defs[..n]) + [defs[n].addr, defs[n].offset]
  {
    var n := |defs| - 1;
    var c := ClaimKeys(defs);
    var q := ClaimKeys(defs[..n]) + [defs[n].addr, defs[n].offset];
    forall k | 0 <= k < 2 * |defs| ensures c[k] == q[k] {
      ClaimAt(defs, k);
      if k < 2 * n {
        ClaimAt(defs[..n], k);
        assert defs[..n][k / 2] == defs[k / 2];
      } else {
        ClaimPair(defs, n);
      }
    }
  }

  /** The elements of s, each at the place it first occurs. */
  function FirstOccurrences(s: seq<int>): (firsts: seq<int>)
    ensures |firsts| <= |s|
  {
    if s == [] then []
    else
      var p := FirstOccurrences(s[..|s| - 1]);
      if s[|s| - 1] in p then p else p + [s[|s| - 1]]
  }

  /** Every definition's name is a register name, and nothing else is. */
  lemma {:induction false} BuildRegistersDomain(defs: seq<RegisterDefinition>, x: string)
    ensures x in BuildRegisters(defs) <==> exists i :: 0 <= i < |defs| && defs[i].name == x
  {
    if defs != [] {
      var n := |defs| - 1;
      var p := defs[..n];
      BuildRegistersDomain(p, x);
      if x in BuildRegisters(p) {
        var i :| 0 <= i < n && p[i].name == x;
        assert defs[i].name == x;
      }
      if exists i :: 0 <= i < |defs| && defs[i].name == x {
        var i :| 0 <= i < |defs| && defs[i].name == x;
        if i < n { assert p[i].name == x; }
      }
    }
  }

  /** With distinct names, each definition's name maps to its own instance. */
  lemma {:induction false} BuildRegistersNames(defs: seq<RegisterDefinition>, i: int)
    requires NamesDistinct(defs) && 0 <= i < |defs|
    ensures defs[i].name in BuildRegisters(defs) && BuildRegisters(defs)[defs[i].name] == i
  {
    var n := |defs| - 1;
    if i < n {
      var p := defs[..n];
      assert NamesDistinct(p) by {
        forall x, y | 0 <= x < y < |p| ensures p[x].name != p[y].name {
          assert p[x] == defs[x] && p[y] == defs[y];
        }
      }
      BuildRegistersNames(p, i);
      assert p[i] == defs[i];
      assert defs[i].name != defs[n].name;
    }
  }

  /** Every instance the registers name is one of the definitions' instances. */
  lemma {:induction false} BuildRegistersValues(defs: seq<RegisterDefinition>)
    ensures forall x :: x in BuildRegisters(defs) ==> 0 <= BuildRegisters(defs)[x] < |defs|
  {
    if defs != [] {
      BuildRegistersValues(defs[..|defs| - 1]);
    }
  }

  /** The address map is a well-formed dict whose values are instances. */
  lemma {:induction false} BuildAddressMapWellFormed(defs: seq<RegisterDefinition>)
    ensures DistinctKeys(BuildAddressMap(defs))
    ensures forall j :: 0 <= j < |BuildAddressMap(defs)| ==> 0 <= BuildAddressMap(defs)[j].1 < |defs|
  {
    if defs != [] {
      var n := |defs| - 1;
      var m0 := BuildAddressMap(defs[..n]);
      BuildAddressMapWellFormed(defs[..n]);
      var m1 := Put(m0, defs[n].addr, n);
      PutDistinct(m0, defs[n].addr, n);
      PutDistinct(m1, defs[n].offset, n);
      PutValuesWithin(m0, defs[n].addr, n, |defs|);
      PutValuesWithin(m1, defs[n].offset, n, |defs|);
    }
  }

  /** A key looks up the LAST definition that assigned it, and is absent
      exactly when no definition assigned it: nothing is rejected, a later
      definition silently takes a key over. */
  lemma {:induction false} BuildAddressMapLookup(defs: seq<RegisterDefinition>, a: int)
    ensures Get(BuildAddressMap(defs), a).None? <==> forall j :: 0 <= j < |defs| ==> !Claims(defs[j], a)
    ensures Get(BuildAddressMap(defs), a).Some? ==>
              var i := Get(BuildAddressMap(defs), a).value;
              0 <= i < |defs| && Claims(defs[i], a) && forall j :: i < j < |defs| ==> !Claims(defs[j], a)
  {
    if defs != [] {
      var n := |defs| - 1;
      var p := defs[..n];
      BuildAddressMapLookup(p, a);
      LookupStep(defs, a);
      assert forall j :: 0 <= j < n ==> p[j] == defs[j];
    }
  }

  /** One iteration of the loop: the last definition's keys look it up, and
      every other key looks up what it did before. */
  lemma LookupStep(defs: seq<RegisterDefinition>, a: int)
    requires defs != []
    ensures var n := |defs| - 1;
            Get(BuildAddressMap(defs), a) == if Claims(defs[n], a) then Some(n) else Get(BuildAddressMap(defs[..n]), a)
  {
    var n := |defs| - 1;
    var m0 := BuildAddressMap(defs[..n]);
    var m1 := Put(m0, defs[n].addr, n);
    if a == defs[n].offset {
      GetPutSame(m1, a, n);
    } else if a == defs[n].addr {
      GetPutOther(m1, defs[n].offset, n, a);
      GetPutSame(m0, a, n);
    } else {
      GetPutOther(m1, defs[n].offset, n, a);
      GetPutOther(m0, defs[n].addr, n, a);
    }
  }

  /** The address map iterates its keys in the order they were first
      assigned: a key taken over by a later definition keeps its place. */
  lemma {:induction false} BuildAddressMapOrder(defs: seq<RegisterDefinition>)
    ensures Keys(BuildAddressMap(defs)) == FirstOccurrences(ClaimKeys(defs))
  {
    if defs != [] {
      var n := |defs| - 1;
      var p := defs[..n];
      var m0 := BuildAddressMap(p);
      var m1 := Put(m0, defs[n].addr, n);
      BuildAddressMapOrder(p);
      KeysPut(m0, defs[n].addr, n);
      KeysPut(m1, defs[n].offset, n);
      var cp := ClaimKeys(p);
      ClaimKeysAppend(defs);
      assert ClaimKeys(defs) == (cp + [defs[n].addr]) + [defs[n].offset];
      FirstOccurrencesAppend(cp, defs[n].addr);
      FirstOccurrencesAppend(cp + [defs[n].addr], defs[n].offset);
    }
  }

  lemma FirstOccurrencesAppend(s: seq<int>, x: int)
    ensures var p := FirstOccurrences(s);
            FirstOccurrences(s + [x]) == if x in p then p else p + [x]
  {
    assert (s + [x])[..|s|] == s;
  }

  lemma {:induction false} FirstOccurrencesOfDistinct(s: seq<int>)
    requires Distinct(s)
    ensures FirstOccurrences(s) == s
  {
    if s != [] {
      var p := s[..|s| - 1];
      assert Distinct(p);
      FirstOccurrencesOfDistinct(p);
      assert s[|s| - 1] !in p;
      assert p + [s[|s| - 1]] == s;
    }
  }

  /** How `read` and `write` name a register. */
  datatype Identifier = IntId(n: int) | StrId(s: string) | OtherId

  /** What resolution finds: the register instance, and the address the bus will see. */
  datatype Target = Target(instance: int, address: int)

  const AddressNotFound: string := "Address not found"
  const RegisterNotFound: string := "Register not found"
  const InvalidIdentifierType: string := "Invalid identifier type"

  /** The identifier handling shared by `read` and `write`. A number is looked
      up in the address map and is itself the bus address; a name is looked up
      in the registers, and its bus address is the first key of the address
      map, in iteration order, that still holds its instance. */
  function Resolve(registers: map<string, int>, addressMap: Dict<int, int>, id: Identifier): (r: Result<Target, string>)
    ensures r.Failure? ==> r.error in {InvalidIdentifierType, RegisterNotFound, AddressNotFound}
    ensures r == Failure(InvalidIdentifierType) <==> id.OtherId?
    ensures r == Failure(RegisterNotFound) <==> id.StrId? && id.s !in registers
    ensures r == Failure(AddressNotFound) <==>
              || (id.IntId? && forall j :: 0 <= j < |addressMap| ==> addressMap[j].0 != id.n)
              || (id.StrId? && id.s in registers && forall j :: 0 <= j < |addressMap| ==> addressMap[j].1 != registers[id.s])
    ensures r.Success? && id.IntId? ==> r.value.address == id.n && Get(addressMap, id.n) == Some(r.value.instance)
    ensures r.Success? && id.StrId? ==>
              && id.s in registers && r.value.instance == registers[id.s]
              && exists j :: 0 <= j < |addressMap| && addressMap[j] == (r.value.address, r.value.instance) &&
                             forall i :: 0 <= i < j ==> addressMap[i].1 != r.value.instance
  {
    match id
    case IntId(n) =>
      var inst := Get(addressMap, n);
      if inst.None? then Failure(AddressNotFound) else Success(Target(inst.value, n))
    case StrId(s) =>
      if s !in registers then Failure(RegisterNotFound)
      else
        var a := FirstKeyOf(addressMap, registers[s]);
        if a.None? then Failure(AddressNotFound) else Success(Target(registers[s], a.value))
    case OtherId =>
      Failure(InvalidIdentifierType)
  }

  /** In a well-formed address map the bus address of every resolved target
      looks up that same target, whichever way it was named. */
  lemma ResolvedAddressMapsBack(registers: map<string, int>, addressMap: Dict<int, int>, id: Identifier)
    requires DistinctKeys(addressMap)
    requires Resolve(registers, addressMap, id).Success?
    ensures var t := Resolve(registers, addressMap, id).value;
            Get(addressMap, t.address) == Some(t.instance)
  {
    var t := Resolve(registers, addressMap, id).value;
    if id.StrId? {
      var j :| 0 <= j < |addressMap| && addressMap[j] == (t.address, t.instance);
      GetDistinct(addressMap, j);
    }
  }

  /** In a dict whose keys are distinct, a key looks up the value stored beside it. */
  lemma GetDistinct(d: Dict<int, int>, j: nat)
    requires DistinctKeys(d) && j < |d|
    ensures Get(d, d[j].0) == Some(d[j].1)
  {
    var r := Get(d, d[j].0);
    var j' :| 0 <= j' < |d| && d[j'] == (d[j].0, r.value);
    assert j' == j;
  }

  /** The scan finds the entry at j when j is the first to hold v. */
  lemma FirstKeyOfAt(d: Dict<int, int>, v: int, j: nat)
    requires j < |d| && d[j].1 == v
    requires forall i :: 0 <= i < j ==> d[i].1 != v
    ensures FirstKeyOf(d, v) == Some(d[j].0)
  {
    var r := FirstKeyOf(d, v);
    var j' :| 0 <= j' < |d| && d[j'] == (r.value, v) && forall i :: 0 <= i < j' ==> d[i].1 != v;
    assert j' == j;
  }

  /** A number resolves to the instance of the last definition that assigned
      it, with the number itself as bus address; a number no definition
      assigned is "Address not found". */
  lemma NumericResolution(defs: seq<RegisterDefinition>, a: int)
    ensures var r := Resolve(BuildRegisters(defs), BuildAddressMap(defs), IntId(a));
            && (r == Failure(AddressNotFound) <==> forall j :: 0 <= j < |defs| ==> !Claims(defs[j], a))
            && (r.Success? <==> exists j :: 0 <= j < |defs| && Claims(defs[j], a))
            && (r.Success? ==> r.value.address == a && 0 <= r.value.instance < |defs| &&
                               Claims(defs[r.value.instance], a) &&
                               forall j :: r.value.instance < j < |defs| ==> !Claims(defs[j], a))
  {
    BuildAddressMapLookup(defs, a);
  }

  /** When no two key assignments collide, the address map holds each
      definition's 'addr' and then its 'offset', in definition order. */
  lemma DistinctClaimsLayout(defs: seq<RegisterDefinition>, k: nat)
    requires KeysDistinct(defs) && k < 2 * |defs|
    ensures |BuildAddressMap(defs)| == 2 * |defs|
    ensures BuildAddressMap(defs)[k] == (ClaimKeys(defs)[k], k / 2)
  {
    var m := BuildAddressMap(defs);
    var c := ClaimKeys(defs);
    BuildAddressMapOrder(defs);
    ClaimKeysDistinct(defs);
    FirstOccurrencesOfDistinct(c);
    assert Keys(m) == c;
    assert m[k].0 == c[k];
    BuildAddressMapWellFormed(defs);
    GetDistinct(m, k);
    LastClaimantOfDistinct(defs, k);
  }

  /** With distinct key assignments, the key assigned at step k looks up definition k / 2. */
  lemma LastClaimantOfDistinct(defs: seq<RegisterDefinition>, k: nat)
    requires KeysDistinct(defs) && k < 2 * |defs|
    ensures Get(BuildAddressMap(defs), ClaimKeys(defs)[k]) == Some(k / 2)
  {
    var a := ClaimKeys(defs)[k];
    ClaimAt(defs, k);
    OnlyClaimant(defs, k / 2, a);
    BuildAddressMapLookup(defs, a);
  }

  /** With distinct key assignments, a key has at most one definition assigning it. */
  lemma OnlyClaimant(defs: seq<RegisterDefinition>, h: nat, a: int)
    requires KeysDistinct(defs) && h < |defs| && Claims(defs[h], a)
    ensures forall j :: 0 <= j < |defs| && j != h ==> !Claims(defs[j], a)
  {
    forall j | 0 <= j < |defs| && j != h ensures !Claims(defs[j], a) {
      if j < h {
        assert !Claims(defs[h], defs[j].addr) && !Claims(defs[h], defs[j].offset);
      }
    }
  }

  /** With no colliding assignments, the keys assigned are all different. */
  lemma ClaimKeysDistinct(defs: seq<RegisterDefinition>)
    requires KeysDistinct(defs)
    ensures Distinct(ClaimKeys(defs))
  {
    var c := ClaimKeys(defs);
    forall x, y | 0 <= x < y < |c| ensures c[x] != c[y] {
      ClaimAt(defs, x);
      ClaimAt(defs, y);
      if x / 2 == y / 2 {
        assert x % 2 == 0 && y % 2 == 1;
      }
    }
  }

  /** With names from a dict and no colliding keys, a register's name puts
      its 'addr' on the bus: 'addr' is assigned before 'offset', so it comes
      first in the scan. */
  lemma NameResolvesToAddr(defs: seq<RegisterDefinition>, i: nat)
    requires NamesDistinct(defs) && KeysDistinct(defs) && i < |defs|
    ensures Resolve(BuildRegisters(defs), BuildAddressMap(defs), StrId(defs[i].name)) == Success(Target(i, defs[i].addr))
  {
    BuildRegistersNames(defs, i);
    ScanFindsAddr(defs, i);
  }

  /** With no colliding keys, the scan for instance i stops at step 2i, the
      assignment of its 'addr'. */
  lemma ScanFindsAddr(defs: seq<RegisterDefinition>, i: nat)
    requires KeysDistinct(defs) && i < |defs|
    ensures FirstKeyOf(BuildAddressMap(defs), i) == Some(defs[i].addr)
  {
    var m := BuildAddressMap(defs);
    DistinctClaimsLayout(defs, 2 * i);
    ClaimPair(defs, i);
    EarlierStepsHoldEarlierInstances(defs, i);
    FirstKeyOfAt(m, i, 2 * i);
  }

  lemma EarlierStepsHoldEarlierInstances(defs: seq<RegisterDefinition>, i: nat)
    requires KeysDistinct(defs) && i < |defs|
    ensures |BuildAddressMap(defs)| == 2 * |defs|
    ensures forall k :: 0 <= k < 2 * i ==> BuildAddressMap(defs)[k].1 < i
  {
    DistinctClaimsLayout(defs, 0);
    forall k | 0 <= k < 2 * i ensures BuildAddressMap(defs)[k].1 < i {
      DistinctClaimsLayout(defs, k);
    }
  }

  /** With no colliding keys, a register's 'addr' and its 'offset' both
      resolve to its own instance, and each puts itself on the bus. */
  lemma AddressesResolveToOwner(defs: seq<RegisterDefinition>, registers: map<string, int>, i: nat)
    requires KeysDistinct(defs) && i < |defs|
    ensures Resolve(registers, BuildAddressMap(defs), IntId(defs[i].addr)) == Success(Target(i, defs[i].addr))
    ensures Resolve(registers, BuildAddressMap(defs), IntId(defs[i].offset)) == Success(Target(i, defs[i].offset))
  {
    OnlyClaimant(defs, i, defs[i].addr);
    BuildAddressMapLookup(defs, defs[i].addr);
    OnlyClaimant(defs, i, defs[i].offset);
    BuildAddressMapLookup(defs, defs[i].offset);
  }
}
