/** The oid map: the custom types a program registers, each with the oid the
    server assigned to it. Oids start as the null oid and are filled in once
    the server has been asked for them. */
module OidMaps {
  import opened Wrappers
  import opened Errors

  /** `null_oid`: no oid resolved yet. */
  const NullOid: nat := 0

  /** A registered custom type, known by its PostgreSQL type name. */
  datatype CustomType = CustomType(name: string)

  datatype OidMapError =
    | LengthError(received: nat, expected: nat)   // `std::length_error`
    | InvalidArgument(index: nat)                 // `std::invalid_argument`: a null oid

  /** The names of the types, in declaration order. */
  function Names(types: seq<CustomType>): (r: seq<string>)
    ensures |r| == |types|
    ensures forall i :: 0 <= i < |r| ==> r[i] == types[i].name
  {
    if types == [] then [] else [types[0].name] + Names(types[1..])
  }

  /** No type occurs twice. */
  predicate Distinct(types: seq<CustomType>)
  {
    forall i, j :: 0 <= i < j < |types| ==> types[i] != types[j]
  }

  /** The position of a registered type: its first place in the list. */
  function IndexOf(types: seq<CustomType>, t: CustomType): (i: nat)
    requires t in types
    ensures i < |types| && types[i] == t
    ensures forall j :: 0 <= j < i ==> types[j] != t
  {
    if types[0] == t then 0 else 1 + IndexOf(types[1..], t)
  }

  /** Where the first null oid of a result is, or its length if none is. */
  function FirstNull(res: seq<nat>): (k: nat)
    ensures k <= |res|
    ensures forall j :: 0 <= j < k ==> res[j] != NullOid
    ensures k < |res| ==> res[k] == NullOid
  {
    if res == [] then 0
    else if res[0] == NullOid then 0
    else 1 + FirstNull(res[1..])
  }

  class OidMap {
    const types: seq<CustomType>
    const oids: array<nat>

    /** One oid per registered type. */
    ghost predicate Valid()
      reads this
    {
      oids.Length == |types|
    }

    /** `register_types<T...>()`: every type starts unresolved. No type is
        registered twice: a C++ type list cannot name a type twice, and as
        `types` never changes, neither can the map. */
    constructor RegisterTypes(types: seq<CustomType>)
      requires Distinct(types)
      ensures Distinct(this.types)
      ensures Valid() && this.types == types && fresh(oids)
      ensures oids[..] == seq(|types|, _ => NullOid)
    {
      this.types := types;
      oids := new nat[|types|](_ => NullOid);
    }

    /** `get_types_names`: the registered names, in declaration order. */
    function GetTypesNames(): (r: seq<string>)
      reads this
      ensures |r| == |types|
      ensures forall i :: 0 <= i < |r| ==> r[i] == types[i].name
    {
      Names(types)
    }

    /** `type_oid<T>`: the oid held for a registered type, the null oid
        until it is resolved. */
    function TypeOid(t: CustomType): (o: nat)
      requires Valid() && Distinct(types) && t in types
      reads this, oids
      ensures forall i :: 0 <= i < |types| && types[i] == t ==> o == oids[i]
    {
      oids[IndexOf(types, t)]
    }

    /** `set_oid_map`: a result of the wrong length is refused before
        anything is written; otherwise oids are assigned in declaration order
        until a null oid is met, which stops the assignment with an error and
        leaves the types before it resolved. */
    method SetOidMap(res: seq<nat>) returns (r: Outcome<OidMapError>)
      requires Valid()
      modifies oids
      ensures Valid()
      ensures |res| != |types| ==> r == Fail(LengthError(|res|, |types|)) && oids[..] == old(oids[..])
      ensures |res| == |types| ==> var k := FirstNull(res);
        oids[..] == res[..k] + old(oids[..])[k..] &&
        (r.Pass? <==> k == |res|) &&
        (r.Fail? ==> r == Fail(InvalidArgument(k)))
    {
      if |res| != oids.Length {
        return Fail(LengthError(|res|, oids.Length));
      }
      var i := 0;
      while i < oids.Length
        invariant 0 <= i <= oids.Length
        invariant forall j :: 0 <= j < i ==> res[j] != NullOid
        invariant oids[..] == res[..i] + old(oids[..])[i..]
      {
        if res[i] == NullOid {
          FirstNullAt(res, i);
          return Fail(InvalidArgument(i));
        }
        AssignStep(res, old(oids[..]), i);
        oids[i] := res[i];
        i := i + 1;
      }
      FirstNullAt(res, i);
      return Pass;
    }
  }

  /** Assigning entry i of the result extends the assigned prefix by one. */
  lemma AssignStep(res: seq<nat>, before: seq<nat>, i: nat)
    requires i < |res| == |before|
    ensures (res[..i] + before[i..])[i := res[i]] == res[..i + 1] + before[i + 1..]
  {
  }

  /** The first null oid is found by walking forward: i is it when every
      entry before i is set and res[i] is null, or i is the end. */
  lemma {:induction false} FirstNullAt(res: seq<nat>, i: nat)
    requires i <= |res|
    requires forall j :: 0 <= j < i ==> res[j] != NullOid
    requires i < |res| ==> res[i] == NullOid
    ensures FirstNull(res) == i
  {
    if i > 0 {
      FirstNullAt(res[1..], i - 1);
    }
  }

  /** A complete result with no null oid resolves every type to its own
      entry, in declaration order. */
  lemma ResolvedInDeclarationOrder(res: seq<nat>, before: seq<nat>, after: seq<nat>)
    requires |res| == |before| && FirstNull(res) == |res|
    requires after == res[..FirstNull(res)] + before[FirstNull(res)..]
    ensures after == res
    ensures forall i :: 0 <= i < |after| ==> after[i] != NullOid
  {
  }

  /** A null oid at index k keeps the types before it resolved and those
      from it on as they were. */
  lemma PartialOnNullOid(res: seq<nat>, before: seq<nat>, after: seq<nat>, k: nat)
    requires |res| == |before| && k < |res| && FirstNull(res) == k
    requires after == res[..k] + before[k..]
    ensures forall i :: 0 <= i < k ==> after[i] == res[i] && after[i] != NullOid
    ensures forall i :: k <= i < |after| ==> after[i] == before[i]
  {
  }

  /** The completion handler of the oid request: an error that already
      happened is passed on untouched; otherwise the result is stored into
      the map, and a refusal turns into `oid_request_failed`. */
  method RequestOidMapDone(ec: ErrorCode, m: OidMap, res: seq<nat>) returns (handlerEc: ErrorCode)
    requires m.Valid()
    modifies m.oids
    ensures m.Valid()
    ensures ec != Success ==> handlerEc == ec && m.oids[..] == old(m.oids[..])
    ensures ec == Success && |res| != |m.types| ==> handlerEc == OidRequestFailed && m.oids[..] == old(m.oids[..])
    ensures ec == Success && |res| == |m.types| ==>
      m.oids[..] == res[..FirstNull(res)] + old(m.oids[..])[FirstNull(res)..] &&
      (handlerEc == Success <==> FirstNull(res) == |res|) &&
      (handlerEc != Success ==> handlerEc == OidRequestFailed)
  {
    if ec != Success {
      return ec;
    }
    var r := m.SetOidMap(res);
    handlerEc := if r.Pass? then Success else OidRequestFailed;
  }

  /** The library's own cases: the two types' names in order, 11 and 22
      stored in order, a short result and a null oid refused. */
  method RegisteredPairScenario() returns (names: seq<string>, first: nat, second: nat, short: Outcome<OidMapError>, withNull: Outcome<OidMapError>)
    ensures names == ["custom_type1", "custom_type2"]
    ensures first == 11 && second == 22
    ensures short == Fail(LengthError(1, 2))
    ensures withNull == Fail(InvalidArgument(1))
  {
    var t1, t2 := CustomType("custom_type1"), CustomType("custom_type2");
    var types := [t1, t2];
    var m := new OidMap.RegisterTypes(types);
    names := m.GetTypesNames();
    var r := m.SetOidMap([11, 22]);
    assert FirstNull([11, 22]) == 2 by { FirstNullAt([11, 22], 2); }
    assert m.oids[..] == [11, 22];
    first, second := m.TypeOid(t1), m.TypeOid(t2);
    var m2 := new OidMap.RegisterTypes(types);
    short := m2.SetOidMap([11]);
    var m3 := new OidMap.RegisterTypes(types);
    assert FirstNull([11, NullOid]) == 1 by { FirstNullAt([11, NullOid], 1); }
    withNull := m3.SetOidMap([11, NullOid]);
  }

  /** An empty map has no names, and a one-element result on it is refused
      with `oid_request_failed`. */
  method EmptyMapScenario() returns (names: seq<string>, handlerEc: ErrorCode)
    ensures names == []
    ensures handlerEc == OidRequestFailed
  {
    var m := new OidMap.RegisterTypes([]);
    names := m.GetTypesNames();
    handlerEc := RequestOidMapDone(Success, m, [NullOid]);
  }
}
