/** What a manifest says, with the names that mark its parts written out: which daemons are recorded, how
    often, and with what; which interface is taken; and what that means for the boot barrier.
 */
module ManifestContents {
  import opened Wrappers
  import opened HwCheck
  import opened ManifestWalk

  // ----- one daemon

  /** The first member whose name starts with "is_hw_handler" is the JSON value true. */
  ghost predicate SaysHandler(ms: seq<Member>) {
    exists i :: 0 <= i < |ms| && "is_hw_handler" <= ms[i].name && ms[i].value == True
      && forall h :: 0 <= h < i ==> !("is_hw_handler" <= ms[h].name)
  }

  lemma {:induction false} SaysHandlerMeans(ms: seq<Member>)
    ensures HandlerIn(ms) <==> SaysHandler(ms)
    decreases |ms|
  {
    if ms != [] && !("is_hw_handler" <= ms[0].name) {
      var tail := ms[1..];
      SaysHandlerMeans(tail);
      if SaysHandler(tail) {
        var i :| 0 <= i < |tail| && "is_hw_handler" <= tail[i].name && tail[i].value == True
          && forall h :: 0 <= h < i ==> !("is_hw_handler" <= tail[h].name);
        assert ms[i + 1] == tail[i];
        assert forall h :: 0 < h < i + 1 ==> ms[h] == tail[h - 1];
      }
      if SaysHandler(ms) {
        var i :| 0 <= i < |ms| && "is_hw_handler" <= ms[i].name && ms[i].value == True
          && forall h :: 0 <= h < i ==> !("is_hw_handler" <= ms[h].name);
        assert tail[i - 1] == ms[i];
        assert forall h :: 0 <= h < i - 1 ==> tail[h] == ms[h + 1];
      }
    }
  }

  /** The record of a daemon: its name, whether it is a hardware handler, and whether it counts as ready
      from the start, which only sysd itself does. */
  ghost predicate IsRecordOf(d: Daemon, m: Member) {
    && m.value.Object? && d.name == m.name
    && (d.isHw <==> SaysHandler(m.value.members))
    && d.curHw == if "ops-sysd" <= m.name then 1 else 0
  }

  lemma EntryMeans(d: Daemon, m: Member)
    requires IsObject(m)
    ensures d == Entry(m) <==> IsRecordOf(d, m)
  {
    SaysHandlerMeans(m.value.members);
  }

  // ----- all daemons

  ghost function CountIn(ms: seq<Member>, d: Daemon): nat {
    if ms == [] then 0 else (if IsRecordOf(d, ms[0]) then 1 else 0) + CountIn(ms[1..], d)
  }

  /** How many members of the "daemons" objects of a manifest d is a record of.  A manifest is searched
      through objects and arrays, but not inside objects whose name starts with "daemons" or
      "mgmt_intf". */
  ghost function Count(j: Json, d: Daemon): nat
    decreases j
  {
    match j
    case Object(ms) => CountInMembers(ms, d)
    case Array(es) => CountInElems(es, d)
    case _ => 0
  }

  ghost function CountInMembers(ms: seq<Member>, d: Daemon): nat
    decreases ms
  {
    if ms == [] then 0 else CountInMember(ms[0], d) + CountInMembers(ms[1..], d)
  }

  ghost function CountInMember(m: Member, d: Daemon): nat
    decreases m
  {
    match m.value
    case Object(ms) =>
      if "daemons" <= m.name then CountIn(ms, d)
      else if "mgmt_intf" <= m.name then 0
      else Count(m.value, d)
    case Array(_) => Count(m.value, d)
    case _ => 0
  }

  ghost function CountInElems(es: seq<Json>, d: Daemon): nat
    decreases es
  {
    if es == [] then 0 else Count(es[0], d) + CountInElems(es[1..], d)
  }

  lemma {:induction false} EntriesCount(ms: seq<Member>, d: Daemon)
    ensures multiset(Entries(ms))[d] == CountIn(ms, d)
    decreases |ms|
  {
    if ms != [] {
      EntriesCount(ms[1..], d);
      if IsObject(ms[0]) {
        EntryMeans(d, ms[0]);
        assert multiset([Entry(ms[0])])[d] == if d == Entry(ms[0]) then 1 else 0;
      }
    }
  }

  /** Every daemon is recorded as often as the manifest lists it, with just these contents. */
  lemma {:induction false} ListedCount(j: Json, d: Daemon)
    ensures multiset(Listed(j))[d] == Count(j, d)
    decreases j, 1
  {
    match j
    case Object(ms) => ListedMembersCount(ms, d);
    case Array(es) => ListedElemsCount(es, d);
    case _ =>
  }

  lemma {:induction false} ListedMembersCount(ms: seq<Member>, d: Daemon)
    ensures multiset(ListedMembers(ms))[d] == CountInMembers(ms, d)
    decreases ms
  {
    if ms != [] {
      ListedMemberCount(ms[0], d);
      ListedMembersCount(ms[1..], d);
    }
  }

  lemma {:induction false} ListedMemberCount(m: Member, d: Daemon)
    ensures multiset(ListedMember(m))[d] == CountInMember(m, d)
    decreases m, 2
  {
    match m.value
    case Object(ms) =>
      if "daemons" <= m.name {
        EntriesCount(ms, d);
      } else if !("mgmt_intf" <= m.name) {
        ListedCount(m.value, d);
      }
    case Array(_) => ListedCount(m.value, d);
    case _ =>
  }

  lemma {:induction false} ListedElemsCount(es: seq<Json>, d: Daemon)
    ensures multiset(ListedElems(es))[d] == CountInElems(es, d)
    decreases es
  {
    if es != [] {
      ListedCount(es[0], d);
      ListedElemsCount(es[1..], d);
    }
  }

  /** ds is the contents of a "daemons" object the walk reaches. */
  ghost predicate Reaches(j: Json, ds: seq<Member>)
    decreases j
  {
    match j
    case Object(ms) => exists i :: 0 <= i < |ms| && MemberReaches(ms[i], ds)
    case Array(es) => exists i :: 0 <= i < |es| && Reaches(es[i], ds)
    case _ => false
  }

  ghost predicate MemberReaches(m: Member, ds: seq<Member>)
    decreases m
  {
    match m.value
    case Object(ms) =>
      if "daemons" <= m.name then ds == ms
      else !("mgmt_intf" <= m.name) && Reaches(m.value, ds)
    case Array(_) => Reaches(m.value, ds)
    case _ => false
  }

  /** Whatever is recorded is in such an object. */
  lemma {:induction false} ListedIsReached(j: Json, d: Daemon) returns (ds: seq<Member>, m: Member)
    requires Count(j, d) > 0
    ensures Reaches(j, ds) && m in ds && IsRecordOf(d, m)
    decreases j, 1
  {
    match j
    case Object(ms) =>
      var i;
      i, ds, m := ListedIsReachedInMembers(ms, d);
    case Array(es) =>
      var i;
      i, ds, m := ListedIsReachedInElems(es, d);
  }

  lemma {:induction false} ListedIsReachedInMembers(ms: seq<Member>, d: Daemon)
    returns (i: nat, ds: seq<Member>, m: Member)
    requires CountInMembers(ms, d) > 0
    ensures i < |ms| && MemberReaches(ms[i], ds) && m in ds && IsRecordOf(d, m)
    decreases ms
  {
    if CountInMember(ms[0], d) > 0 {
      i := 0;
      match ms[0].value
      case Object(l) =>
        if "daemons" <= ms[0].name {
          ds := l;
          m := CountedIn(l, d);
        } else {
          ds, m := ListedIsReached(ms[0].value, d);
        }
      case Array(_) => ds, m := ListedIsReached(ms[0].value, d);
    } else {
      i, ds, m := ListedIsReachedInMembers(ms[1..], d);
      i := i + 1;
    }
  }

  lemma {:induction false} ListedIsReachedInElems(es: seq<Json>, d: Daemon)
    returns (i: nat, ds: seq<Member>, m: Member)
    requires CountInElems(es, d) > 0
    ensures i < |es| && Reaches(es[i], ds) && m in ds && IsRecordOf(d, m)
    decreases es
  {
    if Count(es[0], d) > 0 {
      i := 0;
      ds, m := ListedIsReached(es[0], d);
    } else {
      i, ds, m := ListedIsReachedInElems(es[1..], d);
      i := i + 1;
    }
  }

  lemma {:induction false} CountedIn(ms: seq<Member>, d: Daemon) returns (m: Member)
    requires CountIn(ms, d) > 0
    ensures m in ms && IsRecordOf(d, m)
    decreases |ms|
  {
    if IsRecordOf(d, ms[0]) {
      m := ms[0];
    } else {
      m := CountedIn(ms[1..], d);
    }
  }

  /** Whatever is in such an object is recorded. */
  lemma {:induction false} ReachedIsListed(j: Json, d: Daemon, ds: seq<Member>, m: Member)
    requires Reaches(j, ds) && m in ds && IsRecordOf(d, m)
    ensures Count(j, d) > 0
    decreases j, 1
  {
    match j
    case Object(ms) =>
      var i :| 0 <= i < |ms| && MemberReaches(ms[i], ds);
      MemberReachedIsListed(ms[i], d, ds, m);
      OneOfMembers(ms, d, i);
    case Array(es) =>
      var i :| 0 <= i < |es| && Reaches(es[i], ds);
      ReachedIsListed(es[i], d, ds, m);
      OneOfElems(es, d, i);
  }

  lemma {:induction false} MemberReachedIsListed(n: Member, d: Daemon, ds: seq<Member>, m: Member)
    requires MemberReaches(n, ds) && m in ds && IsRecordOf(d, m)
    ensures CountInMember(n, d) > 0
    decreases n, 2
  {
    if n.value.Object? && "daemons" <= n.name {
      var i :| 0 <= i < |ds| && ds[i] == m;
      OneOf(ds, d, i);
    } else {
      ReachedIsListed(n.value, d, ds, m);
    }
  }

  lemma {:induction false} OneOf(ms: seq<Member>, d: Daemon, i: nat)
    requires i < |ms| && IsRecordOf(d, ms[i])
    ensures CountIn(ms, d) > 0
    decreases i
  {
    if i > 0 {
      assert ms[1..][i - 1] == ms[i];
      OneOf(ms[1..], d, i - 1);
    }
  }

  lemma {:induction false} OneOfMembers(ms: seq<Member>, d: Daemon, i: nat)
    requires i < |ms| && CountInMember(ms[i], d) > 0
    ensures CountInMembers(ms, d) > 0
    decreases i
  {
    if i > 0 {
      assert ms[1..][i - 1] == ms[i];
      OneOfMembers(ms[1..], d, i - 1);
    }
  }

  lemma {:induction false} OneOfElems(es: seq<Json>, d: Daemon, i: nat)
    requires i < |es| && Count(es[i], d) > 0
    ensures CountInElems(es, d) > 0
    decreases i
  {
    if i > 0 {
      assert es[1..][i - 1] == es[i];
      OneOfElems(es[1..], d, i - 1);
    }
  }

  /** A daemon is recorded if and only if a "daemons" object the walk reaches lists it. */
  lemma ListedMeans(j: Json, d: Daemon)
    ensures d in Listed(j) <==> exists ds, m :: Reaches(j, ds) && m in ds && IsRecordOf(d, m)
  {
    ListedCount(j, d);
    assert d in Listed(j) <==> multiset(Listed(j))[d] > 0;
    if Count(j, d) > 0 {
      var ds, m := ListedIsReached(j, d);
    }
    if exists ds, m :: Reaches(j, ds) && m in ds && IsRecordOf(d, m) {
      var ds, m :| Reaches(j, ds) && m in ds && IsRecordOf(d, m);
      ReachedIsListed(j, d, ds, m);
    }
  }

  /** A condition on the daemons the walk reaches. */
  lemma {:induction false} AllDaemonsMean(j: Json, p: Member -> bool)
    ensures AllDaemons(j, p) <==> forall ds, m :: Reaches(j, ds) && m in ds ==> p(m)
    decreases j, 1
  {
    match j
    case Object(ms) =>
      forall i | 0 <= i < |ms|
        ensures MemberDaemons(ms[i], p) <==> forall ds, m :: MemberReaches(ms[i], ds) && m in ds ==> p(m)
      {
        MemberDaemonsMean(ms[i], p);
      }
    case Array(es) =>
      forall i | 0 <= i < |es|
        ensures AllDaemons(es[i], p) <==> forall ds, m :: Reaches(es[i], ds) && m in ds ==> p(m)
      {
        AllDaemonsMean(es[i], p);
      }
    case _ =>
  }

  lemma {:induction false} MemberDaemonsMean(n: Member, p: Member -> bool)
    ensures MemberDaemons(n, p) <==> forall ds, m :: MemberReaches(n, ds) && m in ds ==> p(m)
    decreases n, 2
  {
    match n.value
    case Object(ms) =>
      if "daemons" <= n.name {
        assert MemberReaches(n, ms);
      } else if !("mgmt_intf" <= n.name) {
        AllDaemonsMean(n.value, p);
        assert forall ds :: MemberReaches(n, ds) <==> Reaches(n.value, ds);
      }
    case Array(_) =>
      AllDaemonsMean(n.value, p);
      assert forall ds :: MemberReaches(n, ds) <==> Reaches(n.value, ds);
    case _ =>
  }

  // ----- the management interface

  /** o is the contents of a "mgmt_intf" object the walk reaches. */
  ghost predicate Meets(j: Json, o: seq<Member>)
    decreases j
  {
    match j
    case Object(ms) => exists i :: 0 <= i < |ms| && MemberMeets(ms[i], o)
    case Array(es) => exists i :: 0 <= i < |es| && Meets(es[i], o)
    case _ => false
  }

  ghost predicate MemberMeets(m: Member, o: seq<Member>)
    decreases m
  {
    match m.value
    case Object(ms) =>
      if "daemons" <= m.name then false
      else if "mgmt_intf" <= m.name then o == ms
      else Meets(m.value, o)
    case Array(_) => Meets(m.value, o)
    case _ => false
  }

  lemma {:induction false} IntfsMean(j: Json, o: seq<Member>)
    ensures o in Intfs(j) <==> Meets(j, o)
    decreases j, 1
  {
    match j
    case Object(ms) => IntfsOfMembersMean(ms, o);
    case Array(es) => IntfsOfElemsMean(es, o);
    case _ =>
  }

  lemma {:induction false} IntfsOfMembersMean(ms: seq<Member>, o: seq<Member>)
    ensures o in IntfsOfMembers(ms) <==> exists i :: 0 <= i < |ms| && MemberMeets(ms[i], o)
    decreases ms
  {
    if ms != [] {
      var m, tail := ms[0], ms[1..];
      if m.value.Array? || (m.value.Object? && !("daemons" <= m.name) && !("mgmt_intf" <= m.name)) {
        IntfsMean(m.value, o);
      }
      IntfsOfMembersMean(tail, o);
      assert o in IntfsOfMember(m) <==> MemberMeets(m, o);
      if exists i :: 0 <= i < |tail| && MemberMeets(tail[i], o) {
        var i :| 0 <= i < |tail| && MemberMeets(tail[i], o);
        assert ms[i + 1] == tail[i];
      }
      if exists i :: 0 < i < |ms| && MemberMeets(ms[i], o) {
        var i :| 0 < i < |ms| && MemberMeets(ms[i], o);
        assert tail[i - 1] == ms[i];
      }
    }
  }

  lemma {:induction false} IntfsOfElemsMean(es: seq<Json>, o: seq<Member>)
    ensures o in IntfsOfElems(es) <==> exists i :: 0 <= i < |es| && Meets(es[i], o)
    decreases es
  {
    if es != [] {
      var tail := es[1..];
      IntfsMean(es[0], o);
      IntfsOfElemsMean(tail, o);
      if exists i :: 0 <= i < |tail| && Meets(tail[i], o) {
        var i :| 0 <= i < |tail| && Meets(tail[i], o);
        assert es[i + 1] == tail[i];
      }
      if exists i :: 0 < i < |es| && Meets(es[i], o) {
        var i :| 0 < i < |es| && Meets(es[i], o);
        assert tail[i - 1] == es[i];
      }
    }
  }

  /** Member i is the first whose name starts with "intf". */
  ghost predicate FirstIntf(ms: seq<Member>, i: int) {
    0 <= i < |ms| && "intf" <= ms[i].name && forall h :: 0 <= h < i ==> !("intf" <= ms[h].name)
  }

  lemma {:induction false} NameInMeans(ms: seq<Member>, name: string)
    ensures NameIn(ms) == Some(name) <==> exists i :: FirstIntf(ms, i) && ms[i].value == String(name)
    decreases |ms|
  {
    if ms != [] {
      if "intf" <= ms[0].name {
        assert FirstIntf(ms, 0);
        assert forall i :: FirstIntf(ms, i) ==> i == 0;
      } else {
        var tail := ms[1..];
        NameInMeans(tail, name);
        assert forall i :: FirstIntf(ms, i) ==> FirstIntf(tail, i - 1) && ms[i] == tail[i - 1];
        forall i | FirstIntf(tail, i)
          ensures FirstIntf(ms, i + 1) && ms[i + 1] == tail[i]
        {
          assert forall h :: 0 < h < i + 1 ==> ms[h] == tail[h - 1];
        }
      }
    }
  }

  /** Object i is the last one that names an interface. */
  ghost predicate LastNaming(objects: seq<seq<Member>>, i: int) {
    0 <= i < |objects| && NameIn(objects[i]).Some? && forall k :: i < k < |objects| ==> NameIn(objects[k]).None?
  }

  lemma {:induction false} LastNamedMeans(objects: seq<seq<Member>>, known: Option<string>, i: int)
    ensures LastNaming(objects, i) ==> LastNamed(objects, known) == NameIn(objects[i])
    ensures (forall k :: 0 <= k < |objects| ==> NameIn(objects[k]).None?) ==> LastNamed(objects, known) == known
    decreases |objects|
  {
    if objects != [] {
      var tail := objects[1..];
      LastNamedMeans(tail, if NameIn(objects[0]).Some? then NameIn(objects[0]) else known, i - 1);
      assert forall k :: 0 <= k < |tail| ==> tail[k] == objects[k + 1];
    }
  }

  // ----- the barrier

  /** Of the daemons a manifest lists, those whose name starts with "ops-sysd" start out ready, and no
      other does. */
  lemma StartsReady(j: Json, d: Daemon)
    requires d in Listed(j)
    ensures d.curHw == if "ops-sysd" <= d.name then 1 else 0
  {
    ListedMeans(j, d);
  }

  /** So the barrier is safe for a manifest if and only if no hardware daemon other than sysd has a name
      that the name of another hardware daemon starts with. */
  lemma PrefixFreeManifest(j: Json)
    ensures PrefixFree(Listed(j)) <==>
            forall i, k :: 0 <= i < |Listed(j)| && 0 <= k < |Listed(j)| && i != k ==>
              (var d, e := Listed(j)[i], Listed(j)[k];
               d.isHw && e.isHw && !("ops-sysd" <= d.name) ==> !(d.name <= e.name))
  {
    var m := Listed(j);
    forall i | 0 <= i < |m|
      ensures m[i].curHw <= 0 <==> !("ops-sysd" <= m[i].name)
    {
      StartsReady(j, m[i]);
    }
    assert forall i, k :: 0 <= i < |m| && 0 <= k < |m| && i != k ==>
      (Clash(m, i, k) <==> m[i].isHw && m[k].isHw && !("ops-sysd" <= m[i].name) && m[i].name <= m[k].name);
  }
}
