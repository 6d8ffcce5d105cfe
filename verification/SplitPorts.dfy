/** Linking split ports: parents and children of interface rows are resolved by name through an index
    that holds only the ports involved in splitting.
 */
module SplitPorts {
  import opened Wrappers

  const SYSD_MAX_SPLIT_PORTS := 4

  /** A port as the hardware description gives it. */
  datatype Port = Port(name: string, subports: seq<string>, parentPort: Option<string>)

  /** An Interface row. */
  class Interface {
    const name: string
    var splitParent: Interface?
    var splitChildren: seq<Interface>

    constructor (n: string)
      ensures name == n && splitParent == null && splitChildren == []
    {
      name, splitParent, splitChildren := n, null, [];
    }
  }

  // ----- lookup by name

  predicate Splittable(p: Port) {
    p.subports != [] || p.parentPort.Some?
  }

  /** The port of that name among all ports, or among the indexed ones. */
  function Find(ports: seq<Port>, name: string, indexedOnly: bool): (f: Option<nat>)
    ensures f.Some? ==> f.value < |ports|
  {
    if ports == [] then None
    else
      var n := |ports| - 1;
      if ports[n].name == name && (Splittable(ports[n]) || !indexedOnly) then Some(n)
      else Find(ports[..n], name, indexedOnly)
  }

  ghost predicate UniqueNames(ports: seq<Port>) {
    forall i, j :: 0 <= i < j < |ports| ==> ports[i].name != ports[j].name
  }

  lemma {:induction false} FindIs(ports: seq<Port>, name: string, indexedOnly: bool, i: nat)
    requires UniqueNames(ports) && i < |ports|
    ensures Find(ports, name, indexedOnly) == Some(i) <==>
            ports[i].name == name && (Splittable(ports[i]) || !indexedOnly)
    decreases |ports|
  {
    var n := |ports| - 1;
    if i < n {
      FindIs(ports[..n], name, indexedOnly, i);
    } else {
      FindBelow(ports[..n], name, indexedOnly);
    }
  }

  lemma {:induction false} FindBelow(ports: seq<Port>, name: string, indexedOnly: bool)
    ensures var f := Find(ports, name, indexedOnly);
            f.Some? ==> ports[f.value].name == name && (Splittable(ports[f.value]) || !indexedOnly)
    decreases |ports|
  {
    if ports != [] {
      FindBelow(ports[..|ports| - 1], name, indexedOnly);
    }
  }

  // ----- the links

  /** The parent a port gets, and the children, by position; names that are not found are skipped. */
  function ParentOf(ports: seq<Port>, i: nat): (f: Option<nat>)
    requires i < |ports|
    ensures f.Some? ==> f.value < |ports|
  {
    if ports[i].parentPort.Some? then Find(ports, ports[i].parentPort.value, true) else None
  }

  function Resolve(ports: seq<Port>, names: seq<string>): (at: seq<nat>)
    ensures forall k :: 0 <= k < |at| ==> at[k] < |ports|
  {
    if names == [] then []
    else
      var f := Find(ports, names[|names| - 1], true);
      Resolve(ports, names[..|names| - 1]) + if f.Some? then [f.value] else []
  }

  function ChildrenOf(ports: seq<Port>, i: nat): (at: seq<nat>)
    requires i < |ports|
    ensures forall k :: 0 <= k < |at| ==> at[k] < |ports|
  {
    Resolve(ports, ports[i].subports)
  }

  lemma {:induction false} ResolveIs(ports: seq<Port>, names: seq<string>, j: nat)
    requires UniqueNames(ports) && j < |ports|
    ensures j in Resolve(ports, names) <==> ports[j].name in names && Splittable(ports[j])
    ensures |Resolve(ports, names)| <= |names|
    decreases |names|
  {
    if names != [] {
      var last := names[|names| - 1];
      ResolveIs(ports, names[..|names| - 1], j);
      FindIs(ports, last, true, j);
      FindBelow(ports, last, true);
    }
  }

  function RowsAt(rows: seq<Interface>, at: seq<nat>): (r: seq<Interface>)
    requires forall k :: 0 <= k < |at| ==> at[k] < |rows|
    ensures |r| == |at| && forall k :: 0 <= k < |at| ==> r[k] == rows[at[k]]
  {
    seq(|at|, k requires 0 <= k < |at| => rows[at[k]])
  }

  /** The index built by the first loop. */
  ghost predicate IsIndex(index: map<string, Interface>, rows: seq<Interface>, ports: seq<Port>)
    requires |rows| == |ports|
  {
    forall name :: var f := Find(ports, name, true);
      (name in index <==> f.Some?) && (f.Some? ==> index[name] == rows[f.value])
  }

  /** Port i names port j as its parent, and port j is involved in splitting. */
  ghost predicate IsParent(ports: seq<Port>, i: nat, j: nat)
    requires i < |ports| && j < |ports|
  {
    && ports[i].parentPort == Some(ports[j].name)
    && (ports[j].subports != [] || ports[j].parentPort != None)
  }

  lemma ParentsMean(ports: seq<Port>)
    requires UniqueNames(ports)
    ensures forall i, j :: 0 <= i < |ports| && 0 <= j < |ports| ==>
              (ParentOf(ports, i) == Some(j) <==> IsParent(ports, i, j))
    ensures forall i :: 0 <= i < |ports| && (forall j :: 0 <= j < |ports| ==> !IsParent(ports, i, j)) ==>
              ParentOf(ports, i) == None
  {
    forall i, j | 0 <= i < |ports| && 0 <= j < |ports|
      ensures ParentOf(ports, i) == Some(j) <==> IsParent(ports, i, j)
    {
      if ports[i].parentPort.Some? {
        FindIs(ports, ports[i].parentPort.value, true, j);
      }
    }
  }

  /** The children are found name by name: in order, a name gives the one port that has it and is involved
      in splitting, or nothing. */
  lemma {:induction false} ResolveMeans(ports: seq<Port>, before: seq<string>, name: string, j: nat)
    requires UniqueNames(ports)
    ensures Resolve(ports, []) == []
    ensures j < |ports| && ports[j].name == name && (ports[j].subports != [] || ports[j].parentPort != None) ==>
              Resolve(ports, before + [name]) == Resolve(ports, before) + [j]
    ensures (forall k :: 0 <= k < |ports| && (ports[k].subports != [] || ports[k].parentPort != None) ==>
               ports[k].name != name) ==>
              Resolve(ports, before + [name]) == Resolve(ports, before)
  {
    assert (before + [name])[..|before|] == before;
    FindBelow(ports, name, true);
    if j < |ports| {
      FindIs(ports, name, true, j);
    }
  }

  /** sysd_set_splittable_port_info. */
  method SetSplittablePortInfo(rows: seq<Interface>, ports: seq<Port>)
    requires |rows| == |ports| && UniqueNames(ports)
    requires forall i :: 0 <= i < |rows| ==> rows[i].name == ports[i].name
    requires forall i, j :: 0 <= i < j < |rows| ==> rows[i] != rows[j]
    requires forall i :: 0 <= i < |ports| ==> |ports[i].subports| <= SYSD_MAX_SPLIT_PORTS
    modifies rows
    ensures forall i :: 0 <= i < |rows| ==>
              rows[i].splitParent == ParentRow(rows, ports, i, old(rows[i].splitParent))
    ensures forall i :: 0 <= i < |rows| ==>
              rows[i].splitChildren == ChildRows(rows, ports, i, old(rows[i].splitChildren))
    ensures forall i :: 0 <= i < |rows| && ports[i].subports == [] ==>
              rows[i].splitChildren == old(rows[i].splitChildren)
    ensures forall i, j :: 0 <= i < |rows| && 0 <= j < |rows| && IsParent(ports, i, j) ==>
              rows[i].splitParent == rows[j]
    ensures forall i :: 0 <= i < |rows| && (forall j :: 0 <= j < |ports| ==> !IsParent(ports, i, j)) ==>
              rows[i].splitParent == old(rows[i].splitParent)
  {
    ParentsMean(ports);
    var index := BuildIndex(rows, ports);
    ghost var parents := seq(|rows|, k requires 0 <= k < |rows| reads rows =>
      ParentRow(rows, ports, k, rows[k].splitParent));
    ghost var children := seq(|rows|, k requires 0 <= k < |rows| reads rows =>
      ChildRows(rows, ports, k, rows[k].splitChildren));
    LinkPorts(index, rows, ports, parents, children);
  }

  /** The second loop. */
  method LinkPorts(index: map<string, Interface>, rows: seq<Interface>, ports: seq<Port>,
                   ghost parents: seq<Interface?>, ghost children: seq<seq<Interface>>)
    requires |rows| == |ports| == |parents| == |children| && IsIndex(index, rows, ports)
    requires forall i, j :: 0 <= i < j < |rows| ==> rows[i] != rows[j]
    requires forall k :: 0 <= k < |rows| ==> parents[k] == ParentRow(rows, ports, k, rows[k].splitParent)
    requires forall k :: 0 <= k < |rows| ==> children[k] == ChildRows(rows, ports, k, rows[k].splitChildren)
    modifies rows
    ensures forall k :: 0 <= k < |rows| ==> rows[k].splitParent == parents[k] && rows[k].splitChildren == children[k]
  {
    for i := 0 to |ports|
      invariant forall k :: i <= k < |rows| ==>
                  rows[k].splitParent == old(rows[k].splitParent) && rows[k].splitChildren == old(rows[k].splitChildren)
      invariant forall k :: 0 <= k < i ==> rows[k].splitParent == parents[k] && rows[k].splitChildren == children[k]
    {
      LinkPort(index, rows, ports, i);
    }
  }

  /** The columns of a row after linking: what is not described stays as it is. */
  function ParentRow(rows: seq<Interface>, ports: seq<Port>, i: nat, before: Interface?): Interface?
    requires i < |rows| == |ports|
  {
    var f := ParentOf(ports, i);
    if f.Some? then rows[f.value] else before
  }

  function ChildRows(rows: seq<Interface>, ports: seq<Port>, i: nat, before: seq<Interface>): seq<Interface>
    requires i < |rows| == |ports|
  {
    if ports[i].subports != [] then RowsAt(rows, ChildrenOf(ports, i)) else before
  }

  /** The body of the second loop. */
  method LinkPort(index: map<string, Interface>, rows: seq<Interface>, ports: seq<Port>, i: nat)
    requires |rows| == |ports| && IsIndex(index, rows, ports) && i < |rows|
    modifies rows[i]
    ensures rows[i].splitParent == ParentRow(rows, ports, i, old(rows[i].splitParent))
    ensures rows[i].splitChildren == ChildRows(rows, ports, i, old(rows[i].splitChildren))
  {
    if ports[i].parentPort.Some? && ports[i].parentPort.value in index {
      rows[i].splitParent := index[ports[i].parentPort.value];
    }
    if ports[i].subports != [] {
      rows[i].splitChildren := FindSubports(index, rows, ports, ports[i].subports);
    }
  }

  method BuildIndex(rows: seq<Interface>, ports: seq<Port>) returns (index: map<string, Interface>)
    requires |rows| == |ports|
    requires forall i :: 0 <= i < |rows| ==> rows[i].name == ports[i].name
    ensures IsIndex(index, rows, ports)
  {
    index := map[];
    assert ports[..0] == [];
    for i := 0 to |ports|
      invariant IsIndex(index, rows[..i], ports[..i])
    {
      assert ports[..i + 1][..i] == ports[..i];
      if ports[i].subports != [] || ports[i].parentPort.Some? {
        index := index[rows[i].name := rows[i]];
      }
    }
    assert ports[..|ports|] == ports && rows[..|rows|] == rows;
  }

  /** The loop over the subports of a port, which skips names it does not find. */
  method FindSubports(index: map<string, Interface>, rows: seq<Interface>, ports: seq<Port>, names: seq<string>)
    returns (children: seq<Interface>)
    requires |rows| == |ports| && IsIndex(index, rows, ports)
    ensures children == RowsAt(rows, Resolve(ports, names))
  {
    children := [];
    for k := 0 to |names|
      invariant children == RowsAt(rows, Resolve(ports, names[..k]))
    {
      assert names[..k + 1][..k] == names[..k];
      if names[k] in index {
        children := children + [index[names[k]]];
      }
    }
    assert names[..|names|] == names;
  }

  // ----- links in both directions

  /** Of two ports that are both split or split off, one names the other as a subport exactly if the
      other names it as its parent. */
  ghost predicate Consistent(ports: seq<Port>) {
    forall i, j :: 0 <= i < |ports| && 0 <= j < |ports| && Splittable(ports[i]) && Splittable(ports[j]) ==>
      (ports[j].parentPort == Some(ports[i].name) <==> ports[j].name in ports[i].subports)
  }

  ghost predicate LinksInverse(ports: seq<Port>) {
    forall i, j :: 0 <= i < |ports| && 0 <= j < |ports| ==>
      (ParentOf(ports, j) == Some(i) <==> j in ChildrenOf(ports, i))
  }

  /** Parent and child links are inverse to each other exactly if the descriptions are consistent. */
  lemma LinksInverseIffConsistent(ports: seq<Port>)
    requires UniqueNames(ports)
    ensures LinksInverse(ports) <==> Consistent(ports)
  {
    forall i, j | 0 <= i < |ports| && 0 <= j < |ports|
      ensures ParentOf(ports, j) == Some(i) <==>
              ports[j].parentPort == Some(ports[i].name) && Splittable(ports[i])
      ensures j in ChildrenOf(ports, i) <==> ports[j].name in ports[i].subports && Splittable(ports[j])
    {
      ResolveIs(ports, ports[i].subports, j);
      if ports[j].parentPort.Some? {
        FindIs(ports, ports[j].parentPort.value, true, i);
      }
    }
  }

  /** The rows as the linking leaves rows that had no links before. */
  ghost predicate Linked(rows: seq<Interface>, ports: seq<Port>)
    requires |rows| == |ports|
    reads rows
  {
    && (forall i, j :: 0 <= i < j < |rows| ==> rows[i] != rows[j])
    && (forall i :: 0 <= i < |rows| ==> rows[i].splitParent == ParentRow(rows, ports, i, null))
    && (forall i :: 0 <= i < |rows| ==> rows[i].splitChildren == ChildRows(rows, ports, i, []))
  }

  ghost predicate RowsInverse(rows: seq<Interface>)
    reads rows
  {
    forall i, j :: 0 <= i < |rows| && 0 <= j < |rows| ==>
      (rows[j].splitParent == rows[i] <==> rows[j] in rows[i].splitChildren)
  }

  lemma LinksOfRows(rows: seq<Interface>, ports: seq<Port>, i: nat, j: nat)
    requires |rows| == |ports| && Linked(rows, ports) && i < |rows| && j < |rows|
    ensures rows[j].splitParent == rows[i] <==> ParentOf(ports, j) == Some(i)
    ensures rows[j] in rows[i].splitChildren <==> j in ChildrenOf(ports, i)
  {
    assert rows[j].splitParent == ParentRow(rows, ports, j, null);
    assert rows[i].splitChildren == ChildRows(rows, ports, i, []);
    if ports[i].subports != [] {
      RowAt(rows, ChildrenOf(ports, i), j);
    }
  }

  /** After that, a row is the parent of another exactly if the other is among its children, if and
      only if the descriptions are consistent. */
  lemma RowsInverseIffConsistent(rows: seq<Interface>, ports: seq<Port>)
    requires |rows| == |ports| && UniqueNames(ports) && Linked(rows, ports)
    ensures RowsInverse(rows) <==> Consistent(ports)
  {
    forall i, j | 0 <= i < |rows| && 0 <= j < |rows|
      ensures rows[j].splitParent == rows[i] <==> ParentOf(ports, j) == Some(i)
      ensures rows[j] in rows[i].splitChildren <==> j in ChildrenOf(ports, i)
    {
      LinksOfRows(rows, ports, i, j);
    }
    assert RowsInverse(rows) <==> LinksInverse(ports);
    LinksInverseIffConsistent(ports);
  }

  lemma RowAt(rows: seq<Interface>, at: seq<nat>, j: nat)
    requires forall k :: 0 <= k < |at| ==> at[k] < |rows|
    requires forall i, j :: 0 <= i < j < |rows| ==> rows[i] != rows[j]
    requires j < |rows|
    ensures rows[j] in RowsAt(rows, at) <==> j in at
  {
    if rows[j] in RowsAt(rows, at) {
      var k :| 0 <= k < |at| && RowsAt(rows, at)[k] == rows[j];
      assert at[k] == j;
    }
    if j in at {
      var k :| 0 <= k < |at| && at[k] == j;
      assert RowsAt(rows, at)[k] == rows[j];
    }
  }

  /** For mutually consistent descriptions, whatever is looked up is found in the index exactly if it
      is found among all ports. */
  lemma IndexSuffices(ports: seq<Port>, i: nat)
    requires UniqueNames(ports) && i < |ports|
    requires forall j :: 0 <= j < |ports| ==>
               (ports[j].parentPort == Some(ports[i].name) <==> ports[j].name in ports[i].subports)
               && (ports[i].parentPort == Some(ports[j].name) <==> ports[i].name in ports[j].subports)
    ensures ports[i].parentPort.Some? ==>
              Find(ports, ports[i].parentPort.value, true) == Find(ports, ports[i].parentPort.value, false)
    ensures forall name :: name in ports[i].subports ==> Find(ports, name, true) == Find(ports, name, false)
  {
    if ports[i].parentPort.Some? {
      SameLookup(ports, ports[i].parentPort.value);
    }
    forall name | name in ports[i].subports
      ensures Find(ports, name, true) == Find(ports, name, false)
    {
      SameLookup(ports, name);
    }
  }

  lemma SameLookup(ports: seq<Port>, name: string)
    requires UniqueNames(ports)
    requires forall j :: 0 <= j < |ports| && ports[j].name == name ==> Splittable(ports[j])
    ensures Find(ports, name, true) == Find(ports, name, false)
  {
    FindBelow(ports, name, false);
    FindBelow(ports, name, true);
    if Find(ports, name, false).Some? {
      FindIs(ports, name, true, Find(ports, name, false).value);
    } else if Find(ports, name, true).Some? {
      FindIs(ports, name, false, Find(ports, name, true).value);
    }
  }
}
