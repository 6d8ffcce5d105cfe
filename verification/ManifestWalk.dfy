/** The walk over the image manifest.  The hash maps that hold JSON objects are gone over in an order
    nobody controls; the members of an object are listed here in that order, so that statements about
    all trees are statements about all orders.
 */
module ManifestWalk {
  import opened Wrappers
  import opened HwCheck

  const DAEMONS_TAG := "daemons"
  const HW_HANDLER_TAG := "is_hw_handler"
  const NAME_IN_DAEMON_TABLE := "ops-sysd"
  const MGMT_INTF_TAG := "mgmt_intf"
  const MGMT_INTF_NAME_TAG := "intf"
  const MAX_DAEMON_NAME_LEN := 128

  datatype Json =
    | Object(members: seq<Member>)
    | Array(elems: seq<Json>)
    | String(s: string)
    | True
    | False
    | Scalar                      // null and numbers

  datatype Member = Member(name: string, value: Json)

  /** Done; a management interface is missing; or the JSON library's assertion that a daemon is an
      object has failed. */
  datatype Outcome = Done | Failed | Aborted

  /** What the walk records; the static flag of _sysd_process_mgmt_intf says whether there is a name. */
  datatype Info = Info(daemons: seq<Daemon>, mgmtIntf: Option<string>)

  // ----- what the walk does, step by step

  predicate Tagged(m: Member) { HW_HANDLER_TAG <= m.name }
  predicate IsIntf(m: Member) { MGMT_INTF_NAME_TAG <= m.name }
  predicate IsObject(m: Member) { m.value.Object? }

  /** The first handler tag met decides. */
  function HandlerIn(ms: seq<Member>): bool {
    if ms == [] then false else if Tagged(ms[0]) then ms[0].value.True? else HandlerIn(ms[1..])
  }

  function Entry(m: Member): Daemon
    requires IsObject(m)
  {
    Daemon(m.name, HandlerIn(m.value.members), if NAME_IN_DAEMON_TABLE <= m.name then 1 else 0)
  }

  function ListDaemons(ms: seq<Member>, daemons: seq<Daemon>): (Outcome, seq<Daemon>)
    decreases |ms|
  {
    if ms == [] then (Done, daemons)
    else if !IsObject(ms[0]) then (Aborted, daemons)
    else ListDaemons(ms[1..], daemons + [Entry(ms[0])])
  }

  /** The first "intf" met has to be a string, unless a name is known from before. */
  function ReadIntf(ms: seq<Member>, known: Option<string>): (Outcome, Option<string>) {
    if ms != [] && !IsIntf(ms[0]) then ReadIntf(ms[1..], known)
    else
      var name := if ms != [] && ms[0].value.String? then Some(ms[0].value.s) else known;
      (if name.Some? then Done else Failed, name)
  }

  function Walk(j: Json, s: Info): (Outcome, Info)
    decreases j
  {
    match j
    case Object(ms) => WalkMembers(ms, s)
    case Array(es) => WalkElems(es, s)
    case _ => (Done, s)
  }

  function WalkMembers(ms: seq<Member>, s: Info): (Outcome, Info)
    decreases ms
  {
    if ms == [] then (Done, s)
    else
      var (r, t) := WalkMember(ms[0], s);
      if r != Done then (r, t) else WalkMembers(ms[1..], t)
  }

  function WalkMember(m: Member, s: Info): (Outcome, Info)
    decreases m
  {
    if m.value.Object? then
      if DAEMONS_TAG <= m.name then
        var (r, ds) := ListDaemons(m.value.members, s.daemons);
        (r, s.(daemons := ds))
      else if MGMT_INTF_TAG <= m.name then
        var (r, name) := ReadIntf(m.value.members, s.mgmtIntf);
        (r, s.(mgmtIntf := name))
      else Walk(m.value, s)
    else if m.value.Array? then Walk(m.value, s)
    else (Done, s)
  }

  function WalkElems(es: seq<Json>, s: Info): (Outcome, Info)
    decreases es
  {
    if es == [] then (Done, s)
    else
      var (r, t) := Walk(es[0], s);
      if r != Done then (r, t) else WalkElems(es[1..], t)
  }

  // ----- the walk in place

  class Walker {
    var daemons: seq<Daemon>
    var numHwDaemons: int
    var mgmtIntf: Option<string>
    /** The static flag of _sysd_process_mgmt_intf. */
    var isMgmtIntfPresent: bool

    ghost predicate Valid()
      reads this
    {
      isMgmtIntfPresent <==> mgmtIntf.Some?
    }

    function Recorded(): Info
      reads this
    {
      Info(daemons, mgmtIntf)
    }

    constructor ()
      ensures Valid() && Recorded() == Info([], None)
    {
      daemons, numHwDaemons, mgmtIntf, isMgmtIntfPresent := [], 0, None, false;
    }

    /** _sysd_get_hw_handler, for a daemon whose is_hw_handler is still unset. */
    method GetHwHandler(ms: seq<Member>) returns (isHwHandler: bool)
      ensures isHwHandler == HandlerIn(ms)
    {
      for i := 0 to |ms|
        invariant HandlerIn(ms) == HandlerIn(ms[i..])
      {
        assert ms[i..][1..] == ms[i + 1..];
        if Tagged(ms[i]) {
          return ms[i].value.True?;
        }
      }
      return false;
    }

    /** _sysd_process_daemons. */
    method ProcessDaemons(ms: seq<Member>) returns (r: Outcome)
      requires forall m :: m in ms ==> NameFits(m)
      modifies this`daemons
      ensures (r, daemons) == ListDaemons(ms, old(daemons))
    {
      for i := 0 to |ms|
        invariant ListDaemons(ms[i..], daemons) == ListDaemons(ms, old(daemons))
      {
        assert ms[i..][0] == ms[i] && ms[i..][1..] == ms[i + 1..];
        if !IsObject(ms[i]) {
          return Aborted;
        }
        var isHwHandler := GetHwHandler(ms[i].value.members);
        daemons := daemons + [Daemon(ms[i].name, isHwHandler, if NAME_IN_DAEMON_TABLE <= ms[i].name then 1 else 0)];
      }
      return Done;
    }

    /** _sysd_process_mgmt_intf. */
    method ProcessMgmtIntf(ms: seq<Member>) returns (r: Outcome)
      requires Valid()
      modifies this`mgmtIntf, this`isMgmtIntfPresent
      ensures Valid() && (r, mgmtIntf) == ReadIntf(ms, old(mgmtIntf))
    {
      for i := 0 to |ms|
        invariant isMgmtIntfPresent == old(isMgmtIntfPresent) && mgmtIntf == old(mgmtIntf)
        invariant ReadIntf(ms[i..], mgmtIntf) == ReadIntf(ms, old(mgmtIntf))
      {
        assert ms[i..][0] == ms[i] && ms[i..][1..] == ms[i + 1..];
        if IsIntf(ms[i]) {
          if ms[i].value.String? {
            mgmtIntf := Some(ms[i].value.s);
            isMgmtIntfPresent := true;
          }
          return if isMgmtIntfPresent then Done else Failed;
        }
      }
      return if isMgmtIntfPresent then Done else Failed;
    }

    /** sysd_process_json. */
    method ProcessJson(j: Json) returns (r: Outcome)
      requires Valid() && AllDaemons(j, NameFits)
      modifies this`daemons, this`mgmtIntf, this`isMgmtIntfPresent
      ensures Valid() && (r, Recorded()) == Walk(j, old(Recorded()))
      decreases j
    {
      match j {
        case Object(ms) =>
          for i := 0 to |ms|
            invariant Valid() && WalkMembers(ms[i..], Recorded()) == Walk(j, old(Recorded()))
          {
            assert ms[i..][0] == ms[i] && ms[i..][1..] == ms[i + 1..];
            r := ProcessMember(ms[i]);
            if r != Done {
              return;
            }
          }
        case Array(es) =>
          for i := 0 to |es|
            invariant Valid() && WalkElems(es[i..], Recorded()) == Walk(j, old(Recorded()))
          {
            assert es[i..][0] == es[i] && es[i..][1..] == es[i + 1..];
            r := ProcessJson(es[i]);
            if r != Done {
              return;
            }
          }
        case _ =>
      }
      r := Done;
    }

    /** One member of an object. */
    method ProcessMember(m: Member) returns (r: Outcome)
      requires Valid() && MemberDaemons(m, NameFits)
      modifies this`daemons, this`mgmtIntf, this`isMgmtIntfPresent
      ensures Valid() && (r, Recorded()) == WalkMember(m, old(Recorded()))
      decreases m
    {
      r := Done;
      if m.value.Object? {
        if DAEMONS_TAG <= m.name {
          r := ProcessDaemons(m.value.members);
        } else if MGMT_INTF_TAG <= m.name {
          r := ProcessMgmtIntf(m.value.members);
        } else {
          r := ProcessJson(m.value);
        }
      } else if m.value.Array? {
        r := ProcessJson(m.value);
      }
    }

    /** sysd_read_manifest_file, after the file has been parsed into JSON, or not.  It succeeds exactly
        for manifests in which every listed daemon is an object and the management interface object
        met first, if there is one, names an interface; then the daemons are those listed, in the
        order of the walk, and the interface is the one named last. */
    method ReadManifestFile(manifest: Option<Json>) returns (r: Outcome)
      requires Valid() && Recorded() == Info([], None)
      requires manifest.Some? ==> AllDaemons(manifest.value, NameFits)
      modifies this
      ensures r == Done <==>
                && manifest.Some? && (manifest.value.Object? || manifest.value.Array?)
                && AllDaemons(manifest.value, IsObject) && FirstNames(Intfs(manifest.value), None)
      ensures r == Done ==>
                && Recorded() == Info(Listed(manifest.value), LastNamed(Intfs(manifest.value), None))
                && numHwDaemons == CountHw(daemons) && 0 <= numHwDaemons <= |daemons|
      ensures r == Aborted ==> manifest.Some? && !AllDaemons(manifest.value, IsObject)
    {
      if manifest.None? || !(manifest.value.Object? || manifest.value.Array?) {
        return Failed;
      }
      WalkMeans(manifest.value, Recorded());
      r := ProcessJson(manifest.value);
      if r == Done {
        numHwDaemons := SetNumHwDaemons(daemons);
        assert [] + Listed(manifest.value) == Listed(manifest.value);
      }
    }
  }

  // ----- what a manifest says

  /** The daemons of all "daemons" objects the walk reaches: it looks into objects and arrays, but not
      below an object it has taken for itself. */
  function Listed(j: Json): seq<Daemon>
    decreases j
  {
    match j
    case Object(ms) => ListedMembers(ms)
    case Array(es) => ListedElems(es)
    case _ => []
  }

  function ListedMembers(ms: seq<Member>): seq<Daemon>
    decreases ms
  {
    if ms == [] then [] else ListedMember(ms[0]) + ListedMembers(ms[1..])
  }

  function ListedMember(m: Member): seq<Daemon>
    decreases m
  {
    if m.value.Object? then
      if DAEMONS_TAG <= m.name then Entries(m.value.members)
      else if MGMT_INTF_TAG <= m.name then []
      else Listed(m.value)
    else if m.value.Array? then Listed(m.value)
    else []
  }

  function ListedElems(es: seq<Json>): seq<Daemon>
    decreases es
  {
    if es == [] then [] else Listed(es[0]) + ListedElems(es[1..])
  }

  function Entries(ms: seq<Member>): seq<Daemon> {
    if ms == [] then [] else (if IsObject(ms[0]) then [Entry(ms[0])] else []) + Entries(ms[1..])
  }

  /** The management interface objects the walk reaches, in order. */
  function Intfs(j: Json): seq<seq<Member>>
    decreases j
  {
    match j
    case Object(ms) => IntfsOfMembers(ms)
    case Array(es) => IntfsOfElems(es)
    case _ => []
  }

  function IntfsOfMembers(ms: seq<Member>): seq<seq<Member>>
    decreases ms
  {
    if ms == [] then [] else IntfsOfMember(ms[0]) + IntfsOfMembers(ms[1..])
  }

  function IntfsOfMember(m: Member): seq<seq<Member>>
    decreases m
  {
    if m.value.Object? then
      if DAEMONS_TAG <= m.name then []
      else if MGMT_INTF_TAG <= m.name then [m.value.members]
      else Intfs(m.value)
    else if m.value.Array? then Intfs(m.value)
    else []
  }

  function IntfsOfElems(es: seq<Json>): seq<seq<Member>>
    decreases es
  {
    if es == [] then [] else Intfs(es[0]) + IntfsOfElems(es[1..])
  }

  /** The interface an object names: by the first "intf" in it, if that is a string. */
  function NameIn(ms: seq<Member>): Option<string> {
    if ms == [] then None
    else if IsIntf(ms[0]) then (if ms[0].value.String? then Some(ms[0].value.s) else None)
    else NameIn(ms[1..])
  }

  predicate FirstNames(objects: seq<seq<Member>>, known: Option<string>) {
    known.Some? || objects == [] || NameIn(objects[0]).Some?
  }

  function LastNamed(objects: seq<seq<Member>>, known: Option<string>): Option<string> {
    if objects == [] then known
    else LastNamed(objects[1..], if NameIn(objects[0]).Some? then NameIn(objects[0]) else known)
  }

  /** Everywhere the walk reaches, the listed daemons satisfy p. */
  ghost predicate AllDaemons(j: Json, p: Member -> bool)
    decreases j
  {
    match j
    case Object(ms) => forall i :: 0 <= i < |ms| ==> MemberDaemons(ms[i], p)
    case Array(es) => forall i :: 0 <= i < |es| ==> AllDaemons(es[i], p)
    case _ => true
  }

  ghost predicate MemberDaemons(m: Member, p: Member -> bool)
    decreases m
  {
    if m.value.Object? then
      if DAEMONS_TAG <= m.name then forall d :: d in m.value.members ==> p(d)
      else if MGMT_INTF_TAG <= m.name then true
      else AllDaemons(m.value, p)
    else if m.value.Array? then AllDaemons(m.value, p)
    else true
  }

  predicate NameFits(m: Member) { |m.name| < MAX_DAEMON_NAME_LEN }

  // ----- the walk records what the manifest says

  lemma {:induction false} ListDaemonsMeans(ms: seq<Member>, daemons: seq<Daemon>)
    ensures var (r, ds) := ListDaemons(ms, daemons);
            && r == (if forall m :: m in ms ==> IsObject(m) then Done else Aborted)
            && (r == Done ==> ds == daemons + Entries(ms))
    decreases |ms|
  {
    if ms != [] && IsObject(ms[0]) {
      ListDaemonsMeans(ms[1..], daemons + [Entry(ms[0])]);
      assert ms == [ms[0]] + ms[1..];
    }
  }

  lemma {:induction false} ReadIntfMeans(ms: seq<Member>, known: Option<string>)
    ensures var (r, name) := ReadIntf(ms, known);
            && r == (if FirstNames([ms], known) then Done else Failed)
            && name == LastNamed([ms], known)
  {
    if ms != [] && !IsIntf(ms[0]) {
      ReadIntfMeans(ms[1..], known);
      assert NameIn(ms) == NameIn(ms[1..]);
    }
  }

  lemma {:induction false} LastNamedConcat(a: seq<seq<Member>>, b: seq<seq<Member>>, known: Option<string>)
    ensures LastNamed(a + b, known) == LastNamed(b, LastNamed(a, known))
    ensures known.Some? ==> LastNamed(a, known).Some?
    ensures FirstNames(a + b, known) <==> FirstNames(a, known) && FirstNames(b, LastNamed(a, known))
    decreases |a|
  {
    if a == [] {
      assert a + b == b;
    } else {
      assert (a + b)[1..] == a[1..] + b;
      LastNamedConcat(a[1..], b, if NameIn(a[0]).Some? then NameIn(a[0]) else known);
    }
  }

  /** What a part of the walk guarantees, from the daemons it lists and the interface objects it meets. */
  ghost predicate Means(o: (Outcome, Info), s: Info, objects: bool, listed: seq<Daemon>, intfs: seq<seq<Member>>) {
    && (o.0 == Done <==> objects && FirstNames(intfs, s.mgmtIntf))
    && (o.0 == Done ==> o.1 == Info(s.daemons + listed, LastNamed(intfs, s.mgmtIntf)))
    && (o.0 == Aborted ==> !objects)
  }

  /** Two parts, one after the other. */
  lemma MeansBoth(a: (Outcome, Info), b: (Outcome, Info), s: Info, o1: bool, o2: bool,
                  l1: seq<Daemon>, l2: seq<Daemon>, i1: seq<seq<Member>>, i2: seq<seq<Member>>)
    requires Means(a, s, o1, l1, i1)
    requires a.0 == Done ==> Means(b, a.1, o2, l2, i2)
    ensures Means(if a.0 != Done then a else b, s, o1 && o2, l1 + l2, i1 + i2)
  {
    LastNamedConcat(i1, i2, s.mgmtIntf);
    assert (s.daemons + l1) + l2 == s.daemons + (l1 + l2);
  }

  /** The walk succeeds exactly if the daemons it reaches are objects and the first management interface
      object it meets names an interface; it then has recorded them all. */
  lemma {:induction false} WalkMeans(j: Json, s: Info)
    ensures Means(Walk(j, s), s, AllDaemons(j, IsObject), Listed(j), Intfs(j))
    decreases j, 1
  {
    match j
    case Object(ms) => WalkMembersMeans(ms, s);
    case Array(es) => WalkElemsMeans(es, s);
    case _ => assert s.daemons + [] == s.daemons;
  }

  lemma {:induction false} WalkMembersMeans(ms: seq<Member>, s: Info)
    ensures Means(WalkMembers(ms, s), s, AllDaemons(Object(ms), IsObject), ListedMembers(ms), IntfsOfMembers(ms))
    decreases ms
  {
    if ms == [] {
      assert s.daemons + [] == s.daemons;
    } else {
      var (m, tail) := (ms[0], ms[1..]);
      WalkMemberMeans(m, s);
      var a := WalkMember(m, s);
      WalkMembersMeans(tail, a.1);
      MeansBoth(a, WalkMembers(tail, a.1), s, MemberDaemons(m, IsObject), AllDaemons(Object(tail), IsObject),
                ListedMember(m), ListedMembers(tail), IntfsOfMember(m), IntfsOfMembers(tail));
      assert forall i :: 0 < i < |ms| ==> ms[i] == tail[i - 1];
      assert forall i :: 0 <= i < |tail| ==> tail[i] == ms[i + 1];
    }
  }

  lemma {:induction false} WalkMemberMeans(m: Member, s: Info)
    ensures Means(WalkMember(m, s), s, MemberDaemons(m, IsObject), ListedMember(m), IntfsOfMember(m))
    decreases m, 2
  {
    assert s.daemons + [] == s.daemons;
    if m.value.Object? && DAEMONS_TAG <= m.name {
      ListDaemonsMeans(m.value.members, s.daemons);
    } else if m.value.Object? && MGMT_INTF_TAG <= m.name {
      ReadIntfMeans(m.value.members, s.mgmtIntf);
    } else if m.value.Object? || m.value.Array? {
      WalkMeans(m.value, s);
    }
  }

  lemma {:induction false} WalkElemsMeans(es: seq<Json>, s: Info)
    ensures Means(WalkElems(es, s), s, AllDaemons(Array(es), IsObject), ListedElems(es), IntfsOfElems(es))
    decreases es
  {
    if es == [] {
      assert s.daemons + [] == s.daemons;
    } else {
      var (e, tail) := (es[0], es[1..]);
      WalkMeans(e, s);
      var a := Walk(e, s);
      WalkElemsMeans(tail, a.1);
      MeansBoth(a, WalkElems(tail, a.1), s, AllDaemons(e, IsObject), AllDaemons(Array(tail), IsObject),
                Listed(e), ListedElems(tail), Intfs(e), IntfsOfElems(tail));
      assert forall i :: 0 < i < |es| ==> es[i] == tail[i - 1];
      assert forall i :: 0 <= i < |tail| ==> tail[i] == es[i + 1];
    }
  }
}
