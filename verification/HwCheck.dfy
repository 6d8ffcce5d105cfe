/** The check whether all hardware daemons have reported: the manifest's hardware daemons are looked
    up in the Daemon table by name prefix, in the table's iteration order, and their cur_hw is read.
 */
module HwCheck {

  /** A daemon of the manifest, and a row of the Daemon table. */
  datatype Daemon = Daemon(name: string, isHw: bool, curHw: int)

  type Manifest = seq<Daemon>

  /** sysd_set_num_hw_daemons. */
  function CountHw(m: Manifest): nat {
    if m == [] then 0 else CountHw(m[..|m| - 1]) + if m[|m| - 1].isHw then 1 else 0
  }

  method SetNumHwDaemons(m: Manifest) returns (numHw: nat)
    ensures numHw == CountHw(m)
    ensures numHw <= |m|
    ensures numHw == 0 <==> forall i :: 0 <= i < |m| ==> !m[i].isHw
  {
    numHw := 0;
    for i := 0 to |m|
      invariant numHw == CountHw(m[..i]) && numHw <= i
      invariant numHw == 0 <==> forall k :: 0 <= k < i ==> !m[k].isHw
    {
      assert m[..i + 1][..i] == m[..i];
      if m[i].isHw {
        numHw := numHw + 1;
      }
    }
    assert m[..|m|] == m;
  }

  lemma {:induction false} CountHwZero(m: Manifest)
    ensures CountHw(m) == 0 <==> forall i :: 0 <= i < |m| ==> !m[i].isHw
  {
    if m != [] {
      CountHwZero(m[..|m| - 1]);
    }
  }

  /** The number of positions at which the manifest has a hardware handler. */
  lemma {:induction false} CountHwMeans(m: Manifest)
    ensures CountHw(m) == |set i | 0 <= i < |m| && m[i].isHw|
  {
    if m != [] {
      var n := |m| - 1;
      CountHwMeans(m[..n]);
      var before, all := set i | 0 <= i < n && m[..n][i].isHw, set i | 0 <= i < |m| && m[i].isHw;
      assert all == before + if m[n].isHw then {n} else {};
    }
  }

  // ----- what the check decides

  /** strncmp over the length of the manifest's name: that name is a prefix of the row's. */
  predicate Matches(d: Daemon, row: Daemon) {
    row.isHw && d.name <= row.name
  }

  /** Row k is the one the inner loop stops at for d. */
  ghost predicate StopsAt(d: Daemon, rows: seq<Daemon>, k: int) {
    0 <= k < |rows| && Matches(d, rows[k]) && forall j :: 0 <= j < k ==> !Matches(d, rows[j])
  }

  /** The check goes on to set System.cur_hw: no hardware daemons at all, or at least one was found
      and none of those found has yet to report. */
  ghost predicate Passes(m: Manifest, numHw: int, rows: seq<Daemon>) {
    numHw <= 0
    || (&& (forall i, k :: 0 <= i < |m| && m[i].isHw && StopsAt(m[i], rows, k) ==> rows[k].curHw > 0)
        && exists i, k :: 0 <= i < |m| && m[i].isHw && StopsAt(m[i], rows, k))
  }

  /** Row k is the first of a hardware daemon whose name starts with that of manifest daemon i. */
  ghost predicate FirstRow(m: Manifest, rows: seq<Daemon>, i: int, k: int) {
    && 0 <= i < |m| && m[i].isHw
    && 0 <= k < |rows| && rows[k].isHw && m[i].name <= rows[k].name
    && forall j :: 0 <= j < k ==> !(rows[j].isHw && m[i].name <= rows[j].name)
  }

  /** With hardware daemons in the manifest, the check passes if and only if a row is found for at least
      one of them, and every row found has a positive cur_hw. */
  lemma PassesMeans(m: Manifest, numHw: int, rows: seq<Daemon>)
    ensures numHw <= 0 ==> Passes(m, numHw, rows)
    ensures numHw > 0 ==>
              (Passes(m, numHw, rows) <==>
                 && (exists i, k :: FirstRow(m, rows, i, k))
                 && forall i, k :: FirstRow(m, rows, i, k) ==> rows[k].curHw > 0)
  {
    forall i, k
      ensures FirstRow(m, rows, i, k) <==> 0 <= i < |m| && m[i].isHw && StopsAt(m[i], rows, k)
    {
    }
    if exists i, k :: 0 <= i < |m| && m[i].isHw && StopsAt(m[i], rows, k) {
      var i, k :| 0 <= i < |m| && m[i].isHw && StopsAt(m[i], rows, k);
      assert FirstRow(m, rows, i, k);
    }
  }

  /** The inner loop, which goes over the Daemon table. */
  method FindRow(d: Daemon, rows: seq<Daemon>) returns (k: nat)
    ensures k <= |rows|
    ensures k < |rows| ==> StopsAt(d, rows, k)
    ensures k == |rows| ==> forall j :: !StopsAt(d, rows, j)
  {
    k := 0;
    while k < |rows| && !Matches(d, rows[k])
      invariant k <= |rows|
      invariant forall j :: 0 <= j < k ==> !Matches(d, rows[j])
    {
      k := k + 1;
    }
  }

  /** sysd_chk_if_hw_daemons_done, up to the call of sysd_set_hw_done. */
  method ChkIfHwDaemonsDone(m: Manifest, numHw: int, rows: seq<Daemon>) returns (done: bool)
    ensures done <==> Passes(m, numHw, rows)
  {
    if numHw <= 0 {
      return true;
    }
    var notSet, numFound := false, 0;
    ghost var d, e := 0, 0;
    var i := 0;
    while i < |m| && !notSet
      invariant 0 <= i <= |m| && numFound >= 0
      invariant notSet || numFound > 0 ==> 0 <= d < |m| && m[d].isHw && StopsAt(m[d], rows, e)
      invariant notSet ==> rows[e].curHw <= 0
      invariant !notSet ==> forall j, k :: 0 <= j < i && m[j].isHw && StopsAt(m[j], rows, k) ==>
                  numFound > 0 && rows[k].curHw > 0
      decreases |m| - i, !notSet
    {
      if m[i].isHw {
        var k := FindRow(m[i], rows);
        if k < |rows| {
          d, e := i, k;
          if rows[k].curHw > 0 {
            numFound := numFound + 1;
          } else {
            notSet := true;
          }
        }
      }
      i := i + 1;
    }
    done := !notSet && numFound != 0;
  }

  // ----- when the check decides the right thing

  /** The Daemon table holds one row per manifest daemon, with these cur_hw values, and the IDL
      happens to iterate over the rows in this order. */
  ghost predicate IsOrder(order: seq<nat>, n: nat) {
    && |order| == n
    && (forall k :: 0 <= k < n ==> order[k] < n)
    && (forall i: nat :: i < n ==> i in order)
    && (forall j, k :: 0 <= j < k < n ==> order[j] != order[k])
  }

  function Rows(m: Manifest, cur: seq<int>, order: seq<nat>): (rows: seq<Daemon>)
    requires |cur| == |m| && |order| == |m| && forall k :: 0 <= k < |order| ==> order[k] < |m|
    ensures |rows| == |m|
    ensures forall k :: 0 <= k < |m| ==> rows[k] == m[order[k]].(curHw := cur[order[k]])
  {
    seq(|m|, k requires 0 <= k < |m| => m[order[k]].(curHw := cur[order[k]]))
  }

  ghost predicate AllReady(m: Manifest, cur: seq<int>) {
    |cur| == |m| && forall i :: 0 <= i < |m| && m[i].isHw ==> cur[i] > 0
  }

  /** Daemons only raise their cur_hw over the value sysd has inserted. */
  ghost predicate Raised(m: Manifest, cur: seq<int>) {
    |cur| == |m| && forall i :: 0 <= i < |m| ==> cur[i] >= m[i].curHw
  }

  /** Daemon i is a hardware daemon that has yet to report, and its name is a prefix of the name of
      hardware daemon j. */
  ghost predicate Clash(m: Manifest, i: int, j: int) {
    && 0 <= i < |m| && 0 <= j < |m| && i != j
    && m[i].isHw && m[j].isHw && m[i].curHw <= 0 && m[i].name <= m[j].name
  }

  ghost predicate PrefixFree(m: Manifest) {
    forall i, j :: !Clash(m, i, j)
  }

  lemma FirstMatch(d: Daemon, rows: seq<Daemon>, own: nat) returns (k: nat)
    requires own < |rows| && Matches(d, rows[own])
    ensures k <= own && StopsAt(d, rows, k)
  {
    k := 0;
    while !Matches(d, rows[k])
      invariant k <= own
      invariant forall j :: 0 <= j < k ==> !Matches(d, rows[j])
      decreases own - k
    {
      k := k + 1;
    }
  }

  /** A hardware daemon whose name extends d's makes the loop for d stop, at its row or before. */
  lemma FirstMatchOf(m: Manifest, cur: seq<int>, order: seq<nat>, d: nat, e: nat) returns (k: nat)
    requires IsOrder(order, |m|) && |cur| == |m|
    requires d < |m| && e < |m| && m[d].name <= m[e].name && m[e].isHw
    ensures k < |m| && StopsAt(m[d], Rows(m, cur, order), k)
    ensures forall own :: 0 <= own < |m| && order[own] == e ==> k <= own
    ensures m[order[k]].isHw && m[d].name <= m[order[k]].name
  {
    assert e in order;
    var own: nat :| own < |m| && order[own] == e;
    k := FirstMatch(m[d], Rows(m, cur, order), own);
  }

  /** Once all hardware daemons have reported, the check passes, in every order. */
  lemma ReadyPasses(m: Manifest, cur: seq<int>, order: seq<nat>)
    requires IsOrder(order, |m|) && AllReady(m, cur)
    ensures Passes(m, CountHw(m), Rows(m, cur, order))
  {
    CountHwZero(m);
    if CountHw(m) > 0 {
      var i: nat :| i < |m| && m[i].isHw;
      var k := FirstMatchOf(m, cur, order, i, i);
    }
  }

  /** With prefix-free names it passes only then. */
  lemma PassesReady(m: Manifest, cur: seq<int>, order: seq<nat>)
    requires PrefixFree(m)
    requires IsOrder(order, |m|) && Raised(m, cur)
    requires Passes(m, CountHw(m), Rows(m, cur, order))
    ensures AllReady(m, cur)
  {
    CountHwZero(m);
    var rows := Rows(m, cur, order);
    forall i: nat | i < |m| && m[i].isHw
      ensures cur[i] > 0
    {
      if m[i].curHw <= 0 {
        var k := FirstMatchOf(m, cur, order, i, i);
        assert !Clash(m, i, order[k]);
        assert rows[k].curHw > 0;
      }
    }
  }

  /** The witness against any other manifest: everybody but daemon i has reported, and its row is
      visited last. */
  function AllBut(m: Manifest, i: nat): (cur: seq<int>)
    ensures |cur| == |m|
    ensures forall k :: 0 <= k < |m| ==> cur[k] == if k == i || m[k].curHw > 0 then m[k].curHw else 1
  {
    seq(|m|, k requires 0 <= k < |m| => if k == i || m[k].curHw > 0 then m[k].curHw else 1)
  }

  function RowLast(n: nat, i: nat): (order: seq<nat>)
    requires i < n
    ensures |order| == n
    ensures forall k :: 0 <= k < n ==> order[k] == if k == n - 1 then i else if k < i then k else k + 1
  {
    seq(n, k => if k == n - 1 then i else if k < i then k else k + 1)
  }

  lemma RowLastIsOrder(n: nat, i: nat)
    requires i < n
    ensures IsOrder(RowLast(n, i), n)
  {
    var order := RowLast(n, i);
    forall d: nat | d < n
      ensures d in order
    {
      assert order[if d == i then n - 1 else if d < i then d else d - 1] == d;
    }
  }

  lemma ClashPasses(m: Manifest, i: nat, j: nat)
    requires Clash(m, i, j)
    ensures Raised(m, AllBut(m, i))
    ensures IsOrder(RowLast(|m|, i), |m|)
    ensures Passes(m, CountHw(m), Rows(m, AllBut(m, i), RowLast(|m|, i)))
    ensures !AllReady(m, AllBut(m, i))
  {
    RowLastIsOrder(|m|, i);
    var n, order := |m|, RowLast(|m|, i);
    var cur := AllBut(m, i);
    var rows := Rows(m, cur, order);
    assert order[n - 1] == i;
    forall d: nat, k | d < n && m[d].isHw && StopsAt(m[d], rows, k)
      ensures rows[k].curHw > 0
    {
      // a row before the last one matches: d's own, or j's when d is i
      var e := if d == i then j else d;
      var own := if e < i then e else e - 1;
      assert order[own] == e;
      assert Matches(m[d], rows[own]);
      assert k <= own;
    }
    var k := FirstMatchOf(m, cur, order, i, j);
  }

  /** The check tells readiness exactly, for all cur_hw values daemons can have and all iteration orders, if
      and only if the hardware daemons' names are prefix-free. */
  lemma CheckExactIffPrefixFree(m: Manifest)
    ensures PrefixFree(m) <==>
            forall cur, order :: Raised(m, cur) && IsOrder(order, |m|) ==>
              (Passes(m, CountHw(m), Rows(m, cur, order)) <==> AllReady(m, cur))
  {
    if PrefixFree(m) {
      forall cur, order | Raised(m, cur) && IsOrder(order, |m|)
        ensures Passes(m, CountHw(m), Rows(m, cur, order)) <==> AllReady(m, cur)
      {
        if AllReady(m, cur) {
          ReadyPasses(m, cur, order);
        } else if Passes(m, CountHw(m), Rows(m, cur, order)) {
          PassesReady(m, cur, order);
        }
      }
    } else {
      var i, j :| Clash(m, i, j);
      ClashPasses(m, i, j);
    }
  }
}
