/** The order in which the members of JSON objects are gone over: what does not depend on it, and
    exactly when the rest does not.
 */
module ManifestOrder {
  import opened Wrappers
  import opened ManifestWalk

  /** The same manifest, with the members of its objects in another order. */
  ghost predicate Reordered(a: Json, b: Json)
    decreases a
  {
    match a
    case Object(ms) => b.Object? && ReorderedMembers(ms, b.members)
    case Array(es) => b.Array? && |es| == |b.elems| && forall i :: 0 <= i < |es| ==> Reordered(es[i], b.elems[i])
    case _ => a == b
  }

  ghost predicate ReorderedMembers(a: seq<Member>, b: seq<Member>)
    decreases a
  {
    if a == [] then b == []
    else
      exists k {:trigger b[k]} ::
        0 <= k < |b| && b[k].name == a[0].name && Reordered(a[0].value, b[k].value)
        && ReorderedMembers(a[1..], b[..k] + b[k + 1..])
  }

  /** The handler tags of a daemon do not contradict each other; one tag never does. */
  ghost predicate Consistent(ms: seq<Member>) {
    forall i, j :: 0 <= i < |ms| && 0 <= j < |ms| && Tagged(ms[i]) && Tagged(ms[j]) ==>
      ms[i].value.True? == ms[j].value.True?
  }

  ghost predicate HandlerClear(m: Member) { m.value.Object? ==> Consistent(m.value.members) }

  lemma {:induction false} HandlerInMeans(ms: seq<Member>)
    requires Consistent(ms)
    ensures HandlerIn(ms) <==> exists m :: m in ms && Tagged(m) && m.value.True?
    decreases |ms|
  {
    if ms != [] {
      if Tagged(ms[0]) {
        if exists m :: m in ms && Tagged(m) && m.value.True? {
          var m :| m in ms && Tagged(m) && m.value.True?;
          var i :| 0 <= i < |ms| && ms[i] == m;
        }
      } else {
        assert ms == [ms[0]] + ms[1..];
        HandlerInMeans(ms[1..]);
      }
    }
  }

  /** A member of one order is in the other, up to the order below it. */
  lemma {:induction false} Counterpart(a: seq<Member>, b: seq<Member>, i: nat) returns (k: nat)
    requires ReorderedMembers(a, b) && i < |a|
    ensures k < |b| && b[k].name == a[i].name && Reordered(a[i].value, b[k].value)
    decreases a
  {
    k :| 0 <= k < |b|
      && b[k].name == a[0].name && Reordered(a[0].value, b[k].value)
      && ReorderedMembers(a[1..], b[..k] + b[k + 1..]);
    if i > 0 {
      var rest := b[..k] + b[k + 1..];
      var k' := Counterpart(a[1..], rest, i - 1);
      k := if k' < k then k' else k' + 1;
    }
  }

  lemma {:induction false} CounterpartBack(a: seq<Member>, b: seq<Member>, k: nat) returns (i: nat)
    requires ReorderedMembers(a, b) && k < |b|
    ensures i < |a| && b[k].name == a[i].name && Reordered(a[i].value, b[k].value)
    decreases a
  {
    var h :| 0 <= h < |b|
      && b[h].name == a[0].name && Reordered(a[0].value, b[h].value)
      && ReorderedMembers(a[1..], b[..h] + b[h + 1..]);
    if k == h {
      i := 0;
    } else {
      var rest := b[..h] + b[h + 1..];
      assert rest[if k < h then k else k - 1] == b[k];
      i := CounterpartBack(a[1..], rest, if k < h then k else k - 1);
      i := i + 1;
    }
  }

  lemma ReorderedTrue(a: Json, b: Json)
    requires Reordered(a, b)
    ensures a.True? == b.True?
  {
  }

  /** Consistent tags say the same in every order. */
  lemma HandlerIgnoresOrder(a: seq<Member>, b: seq<Member>)
    requires ReorderedMembers(a, b) && Consistent(a)
    ensures HandlerIn(a) == HandlerIn(b)
  {
    assert Consistent(b) by {
      forall i, j | 0 <= i < |b| && 0 <= j < |b| && Tagged(b[i]) && Tagged(b[j])
        ensures b[i].value.True? == b[j].value.True?
      {
        var i' := CounterpartBack(a, b, i);
        var j' := CounterpartBack(a, b, j);
        ReorderedTrue(a[i'].value, b[i].value);
        ReorderedTrue(a[j'].value, b[j].value);
      }
    }
    HandlerInMeans(a);
    HandlerInMeans(b);
    if HandlerIn(a) {
      var m :| m in a && Tagged(m) && m.value.True?;
      var i :| 0 <= i < |a| && a[i] == m;
      var k := Counterpart(a, b, i);
      assert b[k] in b && Tagged(b[k]) && b[k].value.True?;
    }
    if HandlerIn(b) {
      var m :| m in b && Tagged(m) && m.value.True?;
      var k :| 0 <= k < |b| && b[k] == m;
      var i := CounterpartBack(a, b, k);
      ReorderedTrue(a[i].value, b[k].value);
      assert a[i] in a && Tagged(a[i]) && a[i].value.True?;
    }
  }

  lemma {:induction false} EntriesConcat(a: seq<Member>, b: seq<Member>)
    ensures Entries(a + b) == Entries(a) + Entries(b)
    decreases |a|
  {
    if a == [] {
      assert a + b == b;
    } else {
      assert (a + b)[1..] == a[1..] + b;
      EntriesConcat(a[1..], b);
    }
  }

  lemma {:induction false} ListedConcat(a: seq<Member>, b: seq<Member>)
    ensures ListedMembers(a + b) == ListedMembers(a) + ListedMembers(b)
    decreases |a|
  {
    if a == [] {
      assert a + b == b;
    } else {
      assert (a + b)[1..] == a[1..] + b;
      ListedConcat(a[1..], b);
    }
  }

  /** Taking out one member. */
  lemma TakeOut(b: seq<Member>, k: nat)
    requires k < |b|
    ensures var rest := b[..k] + b[k + 1..];
            && multiset(Entries(b)) == multiset(Entries([b[k]])) + multiset(Entries(rest))
            && multiset(ListedMembers(b)) == multiset(ListedMember(b[k])) + multiset(ListedMembers(rest))
  {
    assert b == b[..k] + ([b[k]] + b[k + 1..]);
    EntriesConcat(b[..k], [b[k]] + b[k + 1..]);
    EntriesConcat([b[k]], b[k + 1..]);
    EntriesConcat(b[..k], b[k + 1..]);
    ListedConcat(b[..k], [b[k]] + b[k + 1..]);
    ListedConcat([b[k]], b[k + 1..]);
    ListedConcat(b[..k], b[k + 1..]);
    ListedOne(b[k]);
  }

  lemma ListedOne(m: Member)
    ensures ListedMembers([m]) == ListedMember(m)
  {
    assert [m][1..] == [];
  }

  lemma EntryIgnoresOrder(a: Member, b: Member)
    requires a.name == b.name && Reordered(a.value, b.value) && HandlerClear(a)
    ensures Entries([a]) == Entries([b])
  {
    if IsObject(a) {
      HandlerIgnoresOrder(a.value.members, b.value.members);
      assert Entry(a) == Entry(b);
    }
    assert [a][1..] == [] && [b][1..] == [];
  }

  lemma EntriesStep(a: seq<Member>, b: seq<Member>, k: nat)
    requires a != [] && k < |b| && Entries([a[0]]) == Entries([b[k]])
    requires multiset(Entries(a[1..])) == multiset(Entries(b[..k] + b[k + 1..]))
    ensures multiset(Entries(a)) == multiset(Entries(b))
  {
    TakeOut(b, k);
    EntriesConcat([a[0]], a[1..]);
    assert a == [a[0]] + a[1..];
  }

  lemma {:induction false} EntriesIgnoreOrder(a: seq<Member>, b: seq<Member>)
    requires ReorderedMembers(a, b) && forall m :: m in a ==> HandlerClear(m)
    ensures multiset(Entries(a)) == multiset(Entries(b))
    decreases a
  {
    if a != [] {
      var k :| 0 <= k < |b|
        && b[k].name == a[0].name && Reordered(a[0].value, b[k].value)
        && ReorderedMembers(a[1..], b[..k] + b[k + 1..]);
      EntriesIgnoreOrder(a[1..], b[..k] + b[k + 1..]);
      EntryIgnoresOrder(a[0], b[k]);
      EntriesStep(a, b, k);
    }
  }

  /** The daemons recorded are the same, whatever the order, if no daemon's handler tags contradict each
      other. */
  lemma {:induction false} ListedIgnoresOrder(a: Json, b: Json)
    requires Reordered(a, b) && AllDaemons(a, HandlerClear)
    ensures multiset(Listed(a)) == multiset(Listed(b))
    decreases a, 1
  {
    match a
    case Object(ms) => ListedMembersIgnoreOrder(ms, b.members);
    case Array(es) => ListedElemsIgnoreOrder(es, b.elems);
    case _ =>
  }

  lemma {:induction false} ListedMembersIgnoreOrder(a: seq<Member>, b: seq<Member>)
    requires ReorderedMembers(a, b) && forall i :: 0 <= i < |a| ==> MemberDaemons(a[i], HandlerClear)
    ensures multiset(ListedMembers(a)) == multiset(ListedMembers(b))
    decreases a
  {
    if a != [] {
      var k :| 0 <= k < |b|
        && b[k].name == a[0].name && Reordered(a[0].value, b[k].value)
        && ReorderedMembers(a[1..], b[..k] + b[k + 1..]);
      ListedMembersIgnoreOrder(a[1..], b[..k] + b[k + 1..]);
      TakeOut(b, k);
      ListedMemberIgnoresOrder(a[0], b[k]);
    }
  }

  lemma {:induction false} ListedMemberIgnoresOrder(a: Member, b: Member)
    requires a.name == b.name && Reordered(a.value, b.value) && MemberDaemons(a, HandlerClear)
    ensures multiset(ListedMember(a)) == multiset(ListedMember(b))
    decreases a, 2
  {
    if a.value.Object? && DAEMONS_TAG <= a.name {
      EntriesIgnoreOrder(a.value.members, b.value.members);
    } else if a.value.Object? && MGMT_INTF_TAG <= a.name {
    } else if a.value.Object? || a.value.Array? {
      ListedIgnoresOrder(a.value, b.value);
    }
  }

  lemma {:induction false} ListedElemsIgnoreOrder(a: seq<Json>, b: seq<Json>)
    requires |a| == |b| && forall i :: 0 <= i < |a| ==> Reordered(a[i], b[i]) && AllDaemons(a[i], HandlerClear)
    ensures multiset(ListedElems(a)) == multiset(ListedElems(b))
    decreases a
  {
    if a != [] {
      ListedIgnoresOrder(a[0], b[0]);
      ListedElemsIgnoreOrder(a[1..], b[1..]);
    }
  }

  // ----- where the order matters

  ghost predicate IsOrderFree(ms: seq<Member>) {
    forall a :: multiset(a) == multiset(ms) ==> HandlerIn(a) == HandlerIn(ms)
  }

  /** Whether a daemon counts as a hardware handler is independent of the order of its members exactly
      if its handler tags do not contradict each other. */
  lemma HandlerOrderFreeIffConsistent(ms: seq<Member>)
    ensures Consistent(ms) <==> IsOrderFree(ms)
  {
    if Consistent(ms) {
      forall a | multiset(a) == multiset(ms)
        ensures HandlerIn(a) == HandlerIn(ms)
      {
        SameMembers(a, ms);
        assert forall i :: 0 <= i < |a| ==> a[i] in ms;
        HandlerInMeans(a);
        HandlerInMeans(ms);
      }
    } else {
      var i, j :| 0 <= i < |ms| && 0 <= j < |ms| && Tagged(ms[i]) && Tagged(ms[j]) &&
        ms[i].value.True? != ms[j].value.True?;
      var a := Fronted(ms, i);
      var b := Fronted(ms, j);
      assert HandlerIn(a) == ms[i].value.True? && HandlerIn(b) == ms[j].value.True?;
      assert IsOrderFree(ms) ==> HandlerIn(a) == HandlerIn(ms) && HandlerIn(b) == HandlerIn(ms);
    }
  }

  lemma SameMembers(a: seq<Member>, b: seq<Member>)
    requires multiset(a) == multiset(b)
    ensures forall m :: m in a <==> m in b
  {
    forall m
      ensures m in a <==> m in b
    {
      assert m in a <==> m in multiset(a);
      assert m in b <==> m in multiset(b);
    }
  }

  lemma Fronted(ms: seq<Member>, i: nat) returns (a: seq<Member>)
    requires i < |ms|
    ensures a != [] && a[0] == ms[i] && multiset(a) == multiset(ms)
  {
    a := [ms[i]] + (ms[..i] + ms[i + 1..]);
    assert ms == ms[..i] + [ms[i]] + ms[i + 1..];
  }

  // ----- which orders the walk succeeds in

  /** The management interface objects the walk can meet first, over all orders: any member of an object
      may come first, but the elements of an array come in their own order. */
  ghost predicate MayBeFirst(j: Json, o: seq<Member>)
    decreases j
  {
    match j
    case Object(ms) => exists i :: 0 <= i < |ms| && MayBeFirstIn(ms[i], o)
    case Array(es) => FirstInElems(es, o)
    case _ => false
  }

  ghost predicate MayBeFirstIn(m: Member, o: seq<Member>)
    decreases m
  {
    if m.value.Object? then
      if DAEMONS_TAG <= m.name then false
      else if MGMT_INTF_TAG <= m.name then o == m.value.members
      else MayBeFirst(m.value, o)
    else if m.value.Array? then MayBeFirst(m.value, o)
    else false
  }

  ghost predicate FirstInElems(es: seq<Json>, o: seq<Member>)
    decreases es
  {
    es != [] && if Intfs(es[0]) != [] then MayBeFirst(es[0], o) else FirstInElems(es[1..], o)
  }

  predicate NamesIntf(m: Member) { IsIntf(m) && m.value.String? }

  /** The object names an interface in every order of its members: it has an "intf", and no "intf" that
      is not a string. */
  ghost predicate AlwaysNames(o: seq<Member>) {
    (exists m :: m in o && IsIntf(m)) && forall m :: m in o && IsIntf(m) ==> NamesIntf(m)
  }

  /** It names one in some order: it has an "intf" that is a string. */
  ghost predicate SometimesNames(o: seq<Member>) {
    exists m :: m in o && NamesIntf(m)
  }

  lemma {:induction false} ReorderedSelf(j: Json)
    ensures Reordered(j, j)
    decreases j, 1
  {
    match j
    case Object(ms) => ReorderedMembersSelf(ms);
    case Array(es) =>
      forall i | 0 <= i < |es|
        ensures Reordered(es[i], es[i])
      {
        ReorderedSelf(es[i]);
      }
    case _ =>
  }

  lemma {:induction false} ReorderedMembersSelf(ms: seq<Member>)
    ensures ReorderedMembers(ms, ms)
    decreases ms
  {
    if ms != [] {
      ReorderedSelf(ms[0].value);
      ReorderedMembersSelf(ms[1..]);
      assert ms[..0] + ms[0 + 1..] == ms[1..];
      ReorderedStep(ms, ms, 0);
    }
  }

  lemma ReorderedStep(a: seq<Member>, b: seq<Member>, k: nat)
    requires a != [] && k < |b| && b[k].name == a[0].name && Reordered(a[0].value, b[k].value)
    requires ReorderedMembers(a[1..], b[..k] + b[k + 1..])
    ensures ReorderedMembers(a, b)
  {
  }

  lemma PutFirstTail(ms: seq<Member>, i: nat, first: Member)
    requires 0 < i < |ms|
    ensures var b := [first] + (ms[..i] + ms[i + 1..]);
            b[1] == ms[0] && b[..1] + b[1 + 1..] == [first] + (ms[1..][..i - 1] + ms[1..][i..])
  {
    assert ms[1..][..i - 1] == ms[1..i] && ms[1..][i..] == ms[i + 1..];
    assert ms[..i] == [ms[0]] + ms[1..i];
    assert [first] + (ms[..i] + ms[i + 1..]) == [first, ms[0]] + (ms[1..i] + ms[i + 1..]);
  }

  /** Any member may be put first, in any order of its own. */
  lemma {:induction false} PutFirst(ms: seq<Member>, i: nat, v: Json)
    requires i < |ms| && Reordered(ms[i].value, v)
    ensures ReorderedMembers(ms, [Member(ms[i].name, v)] + (ms[..i] + ms[i + 1..]))
    decreases i
  {
    var first := Member(ms[i].name, v);
    var b := [first] + (ms[..i] + ms[i + 1..]);
    if i == 0 {
      ReorderedMembersSelf(ms[1..]);
      assert b[..0] + b[0 + 1..] == ms[1..] && b[0] == first;
      ReorderedStep(ms, b, 0);
    } else {
      PutFirst(ms[1..], i - 1, v);
      ReorderedSelf(ms[0].value);
      assert ms[1..][i - 1] == ms[i];
      PutFirstTail(ms, i, first);
      ReorderedStep(ms, b, 1);
    }
  }

  lemma {:induction false} NoIntfsInMembers(ms: seq<Member>)
    ensures IntfsOfMembers(ms) == [] <==> forall i :: 0 <= i < |ms| ==> IntfsOfMember(ms[i]) == []
    decreases |ms|
  {
    if ms != [] {
      NoIntfsInMembers(ms[1..]);
      assert forall i :: 0 < i < |ms| ==> ms[i] == ms[1..][i - 1];
      assert forall i :: 0 <= i < |ms[1..]| ==> ms[1..][i] == ms[i + 1];
    }
  }

  lemma {:induction false} NoIntfsInElems(es: seq<Json>)
    ensures IntfsOfElems(es) == [] <==> forall i :: 0 <= i < |es| ==> Intfs(es[i]) == []
    decreases |es|
  {
    if es != [] {
      NoIntfsInElems(es[1..]);
      assert forall i :: 0 < i < |es| ==> es[i] == es[1..][i - 1];
      assert forall i :: 0 <= i < |es[1..]| ==> es[1..][i] == es[i + 1];
    }
  }

  /** Whether daemons are objects, and whether there is a management interface object at all, is the same
      in every order. */
  lemma {:induction false} ReorderedKeeps(a: Json, b: Json)
    requires Reordered(a, b)
    ensures AllDaemons(a, IsObject) <==> AllDaemons(b, IsObject)
    ensures Intfs(a) == [] <==> Intfs(b) == []
    decreases a, 1
  {
    match a
    case Object(ms) => ReorderedMembersKeep(ms, b.members);
    case Array(es) =>
      forall i | 0 <= i < |es|
        ensures AllDaemons(es[i], IsObject) <==> AllDaemons(b.elems[i], IsObject)
        ensures Intfs(es[i]) == [] <==> Intfs(b.elems[i]) == []
      {
        ReorderedKeeps(es[i], b.elems[i]);
      }
      NoIntfsInElems(es);
      NoIntfsInElems(b.elems);
    case _ =>
  }

  lemma {:induction false} ReorderedMembersKeep(a: seq<Member>, b: seq<Member>)
    requires ReorderedMembers(a, b)
    ensures AllDaemons(Object(a), IsObject) <==> AllDaemons(Object(b), IsObject)
    ensures IntfsOfMembers(a) == [] <==> IntfsOfMembers(b) == []
    decreases a, 4
  {
    NoIntfsInMembers(a);
    NoIntfsInMembers(b);
    MembersKeep(a, b);
  }

  lemma {:induction false} MembersKeep(a: seq<Member>, b: seq<Member>)
    requires ReorderedMembers(a, b)
    ensures (forall i :: 0 <= i < |a| ==> MemberDaemons(a[i], IsObject))
            <==> forall k :: 0 <= k < |b| ==> MemberDaemons(b[k], IsObject)
    ensures (forall i :: 0 <= i < |a| ==> IntfsOfMember(a[i]) == [])
            <==> forall k :: 0 <= k < |b| ==> IntfsOfMember(b[k]) == []
    decreases a, 3
  {
    forall i: nat | i < |a|
      ensures (forall k :: 0 <= k < |b| ==> MemberDaemons(b[k], IsObject)) ==> MemberDaemons(a[i], IsObject)
      ensures (forall k :: 0 <= k < |b| ==> IntfsOfMember(b[k]) == []) ==> IntfsOfMember(a[i]) == []
    {
      var k := Counterpart(a, b, i);
      ReorderedMemberKeeps(a[i], b[k]);
    }
    forall k: nat | k < |b|
      ensures (forall i :: 0 <= i < |a| ==> MemberDaemons(a[i], IsObject)) ==> MemberDaemons(b[k], IsObject)
      ensures (forall i :: 0 <= i < |a| ==> IntfsOfMember(a[i]) == []) ==> IntfsOfMember(b[k]) == []
    {
      var i := CounterpartBack(a, b, k);
      ReorderedMemberKeeps(a[i], b[k]);
    }
  }

  ghost predicate SameKind(a: Member, b: Member) {
    && (MemberDaemons(a, IsObject) <==> MemberDaemons(b, IsObject))
    && (IntfsOfMember(a) == [] <==> IntfsOfMember(b) == [])
  }

  lemma {:induction false} ReorderedMemberKeeps(a: Member, b: Member)
    requires a.name == b.name && Reordered(a.value, b.value)
    ensures SameKind(a, b)
    decreases a, 2
  {
    if a.value.Object? && DAEMONS_TAG <= a.name {
      AllObjectsKeep(a.value.members, b.value.members);
    } else if a.value.Object? && MGMT_INTF_TAG <= a.name {
    } else if a.value.Object? || a.value.Array? {
      ReorderedKeeps(a.value, b.value);
    }
  }

  lemma AllObjectsKeep(a: seq<Member>, b: seq<Member>)
    requires ReorderedMembers(a, b)
    ensures (forall m :: m in a ==> IsObject(m)) <==> (forall m :: m in b ==> IsObject(m))
  {
    forall i: nat | i < |a|
      ensures (forall m :: m in b ==> IsObject(m)) ==> IsObject(a[i])
    {
      var k := Counterpart(a, b, i);
      assert b[k] in b;
    }
    forall k: nat | k < |b|
      ensures (forall m :: m in a ==> IsObject(m)) ==> IsObject(b[k])
    {
      var i := CounterpartBack(a, b, k);
      assert a[i] in a;
    }
  }

  /** What comes first in some order may come first. */
  lemma {:induction false} FirstMayBeFirst(a: Json, b: Json) returns (o: seq<Member>)
    requires Reordered(a, b) && Intfs(b) != []
    ensures MayBeFirst(a, o) && ReorderedMembers(o, Intfs(b)[0])
    decreases a, 1
  {
    match a
    case Object(ms) =>
      var k := FirstWithIntfs(b.members);
      var i := CounterpartBack(ms, b.members, k);
      o := FirstMayBeFirstIn(ms[i], b.members[k]);
    case Array(es) => o := FirstMayBeFirstInElems(es, b.elems);
  }

  lemma {:induction false} FirstWithIntfs(ms: seq<Member>) returns (k: nat)
    requires IntfsOfMembers(ms) != []
    ensures k < |ms| && IntfsOfMember(ms[k]) != [] && IntfsOfMembers(ms)[0] == IntfsOfMember(ms[k])[0]
    decreases |ms|
  {
    if IntfsOfMember(ms[0]) != [] {
      k := 0;
    } else {
      k := FirstWithIntfs(ms[1..]);
      k := k + 1;
    }
  }

  lemma {:induction false} FirstMayBeFirstIn(a: Member, b: Member) returns (o: seq<Member>)
    requires a.name == b.name && Reordered(a.value, b.value) && IntfsOfMember(b) != []
    ensures MayBeFirstIn(a, o) && ReorderedMembers(o, IntfsOfMember(b)[0])
    decreases a, 2
  {
    if a.value.Object? && MGMT_INTF_TAG <= a.name {
      o := a.value.members;
    } else {
      o := FirstMayBeFirst(a.value, b.value);
    }
  }

  lemma {:induction false} FirstMayBeFirstInElems(a: seq<Json>, b: seq<Json>) returns (o: seq<Member>)
    requires |a| == |b| && forall i :: 0 <= i < |a| ==> Reordered(a[i], b[i])
    requires IntfsOfElems(b) != []
    ensures FirstInElems(a, o) && ReorderedMembers(o, IntfsOfElems(b)[0])
    decreases a
  {
    ReorderedKeeps(a[0], b[0]);
    if Intfs(a[0]) != [] {
      o := FirstMayBeFirst(a[0], b[0]);
    } else {
      o := FirstMayBeFirstInElems(a[1..], b[1..]);
    }
  }

  /** What may be first does come first in some order, in any order of its own. */
  lemma {:induction false} MakeFirst(a: Json, o: seq<Member>, p: seq<Member>) returns (b: Json)
    requires MayBeFirst(a, o) && ReorderedMembers(o, p)
    ensures Reordered(a, b) && Intfs(b) != [] && Intfs(b)[0] == p
    decreases a, 1
  {
    match a
    case Object(ms) =>
      var i :| 0 <= i < |ms| && MayBeFirstIn(ms[i], o);
      var v := MakeFirstIn(ms[i], o, p);
      PutFirst(ms, i, v);
      b := Object([Member(ms[i].name, v)] + (ms[..i] + ms[i + 1..]));
    case Array(es) =>
      var es' := MakeFirstInElems(es, o, p);
      b := Array(es');
  }

  lemma {:induction false} MakeFirstIn(a: Member, o: seq<Member>, p: seq<Member>) returns (v: Json)
    requires MayBeFirstIn(a, o) && ReorderedMembers(o, p)
    ensures Reordered(a.value, v)
    ensures var b := Member(a.name, v); IntfsOfMember(b) != [] && IntfsOfMember(b)[0] == p
    decreases a, 2
  {
    if a.value.Object? && MGMT_INTF_TAG <= a.name {
      v := Object(p);
    } else {
      v := MakeFirst(a.value, o, p);
    }
  }

  lemma {:induction false} MakeFirstInElems(a: seq<Json>, o: seq<Member>, p: seq<Member>) returns (b: seq<Json>)
    requires FirstInElems(a, o) && ReorderedMembers(o, p)
    ensures |b| == |a| && forall i :: 0 <= i < |a| ==> Reordered(a[i], b[i])
    ensures IntfsOfElems(b) != [] && IntfsOfElems(b)[0] == p
    decreases a
  {
    if Intfs(a[0]) != [] {
      var first := MakeFirst(a[0], o, p);
      b := [first] + a[1..];
      forall i | 1 <= i < |a|
        ensures Reordered(a[i], b[i])
      {
        ReorderedSelf(a[i]);
      }
    } else {
      var rest := MakeFirstInElems(a[1..], o, p);
      ReorderedSelf(a[0]);
      b := [a[0]] + rest;
      assert b[1..] == rest;
      assert forall i :: 1 <= i < |a| ==> a[i] == a[1..][i - 1] && b[i] == rest[i - 1];
    }
  }

  lemma {:induction false} NameInIf(ms: seq<Member>)
    ensures NameIn(ms).Some? ==> exists m :: m in ms && NamesIntf(m)
    ensures AlwaysNames(ms) ==> NameIn(ms).Some?
    decreases |ms|
  {
    if ms != [] && IsIntf(ms[0]) {
      assert ms[0] in ms;
    }
    if ms != [] && !IsIntf(ms[0]) {
      var tail := ms[1..];
      NameInIf(tail);
      assert forall m :: m in tail ==> m in ms;
      assert forall m :: m in ms ==> m == ms[0] || m in tail;
      if AlwaysNames(ms) {
        var m :| m in ms && IsIntf(m);
        assert m in tail && AlwaysNames(tail);
      }
      assert NameIn(ms) == NameIn(tail);
    }
  }

  /** The name of an interface object: in every order, and in some order. */
  lemma AlwaysNamesMeans(o: seq<Member>)
    ensures AlwaysNames(o) <==> forall p :: ReorderedMembers(o, p) ==> NameIn(p).Some?
  {
    if AlwaysNames(o) {
      forall p | ReorderedMembers(o, p)
        ensures NameIn(p).Some?
      {
        AlwaysNamesKeeps(o, p);
        NameInIf(p);
      }
    } else if !exists m :: m in o && IsIntf(m) {
      ReorderedMembersSelf(o);
      NameInIf(o);
      assert ReorderedMembers(o, o) && NameIn(o).None?;
    } else {
      var m :| m in o && IsIntf(m) && !NamesIntf(m);
      var i :| 0 <= i < |o| && o[i] == m;
      ReorderedSelf(m.value);
      PutFirst(o, i, m.value);
      var p := [Member(m.name, m.value)] + (o[..i] + o[i + 1..]);
      assert ReorderedMembers(o, p) && NameIn(p).None?;
    }
  }

  lemma AlwaysNamesKeeps(o: seq<Member>, p: seq<Member>)
    requires ReorderedMembers(o, p) && AlwaysNames(o)
    ensures AlwaysNames(p)
  {
    var m :| m in o && IsIntf(m);
    var i :| 0 <= i < |o| && o[i] == m;
    var k := Counterpart(o, p, i);
    assert p[k] in p && IsIntf(p[k]);
    forall m | m in p && IsIntf(m)
      ensures NamesIntf(m)
    {
      var k :| 0 <= k < |p| && p[k] == m;
      var i := CounterpartBack(o, p, k);
      assert o[i] in o;
    }
  }

  lemma SometimesNamesMeans(o: seq<Member>)
    ensures SometimesNames(o) <==> exists p: seq<Member> :: ReorderedMembers(o, p) && NameIn(p).Some?
  {
    if SometimesNames(o) {
      var m :| m in o && NamesIntf(m);
      var i :| 0 <= i < |o| && o[i] == m;
      ReorderedSelf(m.value);
      PutFirst(o, i, m.value);
      var p := [Member(m.name, m.value)] + (o[..i] + o[i + 1..]);
      assert ReorderedMembers(o, p) && NameIn(p).Some?;
    }
    if exists p: seq<Member> :: ReorderedMembers(o, p) && NameIn(p).Some? {
      var p: seq<Member> :| ReorderedMembers(o, p) && NameIn(p).Some?;
      NameInIf(p);
      var m :| m in p && NamesIntf(m);
      var k :| 0 <= k < |p| && p[k] == m;
      var i := CounterpartBack(o, p, k);
      ReorderedString(o[i].value, p[k].value);
      assert o[i] in o && NamesIntf(o[i]);
    }
  }

  lemma ReorderedString(a: Json, b: Json)
    requires Reordered(a, b)
    ensures a.String? == b.String?
  {
  }

  /** The walk over a manifest succeeds, starting from nothing. */
  predicate Succeeds(j: Json) {
    Walk(j, Info([], None)).0 == Done
  }

  ghost predicate AlwaysSucceeds(j: Json) {
    forall k :: Reordered(j, k) ==> Succeeds(k)
  }

  ghost predicate NeverSucceeds(j: Json) {
    forall k :: Reordered(j, k) ==> !Succeeds(k)
  }

  lemma SucceedsIf(j: Json, k: Json)
    requires Reordered(j, k)
    ensures Succeeds(k) <==> AllDaemons(j, IsObject) && (Intfs(k) == [] || NameIn(Intfs(k)[0]).Some?)
  {
    WalkMeans(k, Info([], None));
    ReorderedKeeps(j, k);
  }

  /** The walk succeeds in every order if and only if every daemon is an object and every management
      interface object that may come first names an interface in every order of its own. */
  lemma AlwaysSucceedsIff(j: Json)
    ensures AlwaysSucceeds(j) <==>
            AllDaemons(j, IsObject) && forall o :: MayBeFirst(j, o) ==> AlwaysNames(o)
  {
    ReorderedSelf(j);
    SucceedsIf(j, j);
    if AllDaemons(j, IsObject) && forall o :: MayBeFirst(j, o) ==> AlwaysNames(o) {
      forall k | Reordered(j, k)
        ensures Succeeds(k)
      {
        SucceedsIf(j, k);
        ReorderedKeeps(j, k);
        if Intfs(k) != [] {
          var o := FirstMayBeFirst(j, k);
          AlwaysNamesMeans(o);
        }
      }
    }
    if AlwaysSucceeds(j) {
      forall o | MayBeFirst(j, o)
        ensures AlwaysNames(o)
      {
        forall p | ReorderedMembers(o, p)
          ensures NameIn(p).Some?
        {
          var k := MakeFirst(j, o, p);
          SucceedsIf(j, k);
          ReorderedKeeps(j, k);
        }
        AlwaysNamesMeans(o);
      }
    }
  }

  /** It succeeds in no order if and only if some daemon is no object, or there are management interface
      objects and none of those that may come first names an interface in any order of its own. */
  lemma NeverSucceedsIff(j: Json)
    ensures NeverSucceeds(j) <==>
            !AllDaemons(j, IsObject) || (Intfs(j) != [] && forall o :: MayBeFirst(j, o) ==> !SometimesNames(o))
  {
    ReorderedSelf(j);
    SucceedsIf(j, j);
    if !AllDaemons(j, IsObject) {
      forall k | Reordered(j, k)
        ensures !Succeeds(k)
      {
        SucceedsIf(j, k);
      }
    } else if Intfs(j) != [] {
      if forall o :: MayBeFirst(j, o) ==> !SometimesNames(o) {
        forall k | Reordered(j, k)
          ensures !Succeeds(k)
        {
          SucceedsIf(j, k);
          ReorderedKeeps(j, k);
          var o := FirstMayBeFirst(j, k);
          SometimesNamesMeans(o);
        }
      } else {
        var o :| MayBeFirst(j, o) && SometimesNames(o);
        SometimesNamesMeans(o);
        var p: seq<Member> :| ReorderedMembers(o, p) && NameIn(p).Some?;
        var k := MakeFirst(j, o, p);
        SucceedsIf(j, k);
        assert Reordered(j, k) && Succeeds(k);
      }
    }
  }

  /** So it is the order that decides if and only if every daemon is an object, some interface object that
      may come first can name an interface, and some such object can fail to. */
  lemma SuccessDependsOnOrder(j: Json)
    ensures !AlwaysSucceeds(j) && !NeverSucceeds(j) <==>
            && AllDaemons(j, IsObject)
            && (exists o :: MayBeFirst(j, o) && SometimesNames(o))
            && (exists o :: MayBeFirst(j, o) && !AlwaysNames(o))
  {
    AlwaysSucceedsIff(j);
    NeverSucceedsIff(j);
    if Intfs(j) == [] && exists o :: MayBeFirst(j, o) {
      var o :| MayBeFirst(j, o);
      ReorderedMembersSelf(o);
      var k := MakeFirst(j, o, o);
      ReorderedKeeps(j, k);
    }
  }
}
