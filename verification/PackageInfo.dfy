/** Filling the Package_Info table from the stream of YAML events of version_detail.yaml, two thousand
    rows to a transaction.
 */
module PackageInfo {
  import opened Wrappers

  const PKG_INFO_ENTRIES_PER_COMMIT := 2000

  datatype Key = Value | Pkg | Pv | Srcrev | SrcUrl | Type

  const KEYS: seq<Key> := [Pkg, Pv, Srcrev, SrcUrl, Type]

  function KeyString(k: Key): string {
    match k
    case Value => "values"
    case Pkg => "PKG"
    case Pv => "PV"
    case Srcrev => "SRCREV"
    case SrcUrl => "SRC_URL"
    case Type => "TYPE"
  }

  /** The key a scalar spells; anything else is a value, "values" included. */
  function KeyOf(data: string): Key {
    if data == "PKG" then Pkg
    else if data == "PV" then Pv
    else if data == "SRCREV" then Srcrev
    else if data == "SRC_URL" then SrcUrl
    else if data == "TYPE" then Type
    else Value
  }

  lemma KeyStrings(k: Key)
    ensures k != Value ==> KeyOf(KeyString(k)) == k
  {
  }

  /** Five texts are keys, and every other one is a value. */
  predicate IsValue(data: string) {
    data !in {"PKG", "PV", "SRCREV", "SRC_URL", "TYPE"}
  }

  lemma KeyOfMeans(data: string)
    ensures KeyOf(data) == Value <==> IsValue(data)
    ensures KeyOf("PKG") == Pkg && KeyOf("PV") == Pv && KeyOf("SRCREV") == Srcrev
    ensures KeyOf("SRC_URL") == SrcUrl && KeyOf("TYPE") == Type
  {
  }

  /** package_info_mapping_check_key: scan the keys after the first. */
  method CheckKey(data: string) returns (k: Key)
    ensures k == KeyOf(data)
    ensures k == Value <==> data !in {"PKG", "PV", "SRCREV", "SRC_URL", "TYPE"}
    ensures (data == "PKG" ==> k == Pkg) && (data == "PV" ==> k == Pv) && (data == "SRCREV" ==> k == Srcrev)
    ensures (data == "SRC_URL" ==> k == SrcUrl) && (data == "TYPE" ==> k == Type)
  {
    KeyOfMeans(data);
    for i := 0 to |KEYS|
      invariant forall j :: 0 <= j < i ==> KeyString(KEYS[j]) != data
    {
      if KeyString(KEYS[i]) == data {
        KeyStrings(KEYS[i]);
        return KEYS[i];
      }
    }
    assert KEYS[0] == Pkg && KEYS[1] == Pv && KEYS[2] == Srcrev && KEYS[3] == SrcUrl && KEYS[4] == Type;
    return Value;
  }

  /** What the parser hands out.  It may also fail, which ends the events. */
  datatype Event = Scalar(value: string) | Other | StreamEnd

  datatype Row = Row(name: string, version: Option<string>, srcUrl: Option<string>, srcType: Option<string>)

  function NewRow(name: string): Row {
    Row(name, None, None, None)
  }

  /** The column the current key stands for is set; SRCREV overrides PV unless it is INVALID. */
  function SetColumn(row: Row, key: Key, value: string): Row {
    match key
    case Pv => row.(version := Some(value))
    case Srcrev => if value == "INVALID" then row else row.(version := Some(value))
    case SrcUrl => row.(srcUrl := Some(value))
    case Type => row.(srcType := Some(value))
    case _ => row
  }

  // ----- the event machine

  /** The local variables of sysd_add_package_info.  While a transaction is open, the current row is
      the last one inserted into it.  A transaction opened over an open one, a row inserted without
      one, or a column set on a row of none aborts the daemon. */
  datatype Machine = Machine(
    key: Key,
    recordCount: nat,
    txn: Option<seq<Row>>,
    submitted: seq<seq<Row>>,
    aborted: bool)

  const START := Machine(Value, 0, None, [], false)

  /** What one scalar does. */
  function Feed(s: Machine, value: string): Machine {
    var k := KeyOf(value);
    if s.aborted then s
    else if k != Value then s.(key := k)
    else if s.key == Value then s
    else if s.key == Pkg then
      if s.recordCount % PKG_INFO_ENTRIES_PER_COMMIT == 0 then
        if s.txn.Some? then s.(aborted := true) else s.(txn := Some([NewRow(value)]))
      else if s.txn.None? then s.(aborted := true)
      else s.(txn := Some(s.txn.value + [NewRow(value)]))
    else if s.key == Srcrev && value == "INVALID" then s
    else if s.txn.None? || s.txn.value == [] then s.(aborted := true)
    else
      var rows := s.txn.value;
      var rows' := rows[|rows| - 1 := SetColumn(rows[|rows| - 1], s.key, value)];
      if s.key != Type then s.(txn := Some(rows'))
      else if (s.recordCount + 1) % PKG_INFO_ENTRIES_PER_COMMIT == 0 then
        s.(recordCount := s.recordCount + 1, txn := None, submitted := s.submitted + [rows'])
      else s.(recordCount := s.recordCount + 1, txn := Some(rows'))
  }

  /** The daemon is aborted by a name for which a transaction is opened over an open one or is missing,
      and by a column, other than an INVALID revision, without a row to write it to. */
  lemma FeedAbortsIff(s: Machine, value: string)
    requires !s.aborted
    ensures Feed(s, value).aborted <==>
            && IsValue(value)
            && (|| (s.key == Pkg && (s.recordCount % 2000 == 0 <==> s.txn.Some?))
                || (s.key == Srcrev && value != "INVALID" && (s.txn == None || s.txn.value == []))
                || ((s.key == Pv || s.key == SrcUrl || s.key == Type) && (s.txn == None || s.txn.value == [])))
  {
    KeyOfMeans(value);
  }

  function FeedAll(s: Machine, values: seq<string>): Machine {
    if values == [] then s else Feed(FeedAll(s, values[..|values| - 1]), values[|values| - 1])
  }

  /** The scalars the parser delivers before the stream ends. */
  function Scalars(events: seq<Event>): seq<string> {
    if events == [] || events[0] == StreamEnd then []
    else (if events[0].Scalar? then [events[0].value] else []) + Scalars(events[1..])
  }

  /** The scalars, in order, up to the first end of the stream. */
  lemma {:induction false} ScalarsMeans(before: seq<Event>, e: Event, after: seq<Event>)
    requires StreamEnd !in before
    ensures Scalars(before + [e] + after) == Scalars(before) + match e
              case Scalar(value) => [value] + Scalars(after)
              case Other => Scalars(after)
              case StreamEnd => []
    decreases |before|
  {
    var all := before + [e] + after;
    if before == [] {
      assert all == [e] + after && all[1..] == after;
    } else {
      assert all[0] == before[0] && all[1..] == before[1..] + [e] + after;
      ScalarsMeans(before[1..], e, after);
    }
  }

  /** The transactions handed to the database, the one still open at the end included. */
  function Transactions(s: Machine): seq<seq<Row>> {
    s.submitted + if s.txn.Some? then [s.txn.value] else []
  }

  /** The body of the switch on the current key, for a scalar that is a value. */
  method HandleValue(key: Key, count: nat, open: Option<seq<Row>>, sent: seq<seq<Row>>, value: string)
    returns (recordCount: nat, txn: Option<seq<Row>>, submitted: seq<seq<Row>>, aborted: bool)
    requires KeyOf(value) == Value
    ensures var s := Feed(Machine(key, count, open, sent, false), value);
            aborted == s.aborted && (!aborted ==> s == Machine(key, recordCount, txn, submitted, false))
  {
    recordCount, txn, submitted, aborted := count, open, sent, false;
    if key == Pkg {
      if recordCount % PKG_INFO_ENTRIES_PER_COMMIT == 0 {
        if txn.Some? {
          aborted := true;
          return;
        }
        txn := Some([]);
      }
      if txn.None? {
        aborted := true;
        return;
      }
      txn := Some(txn.value + [NewRow(value)]);
      assert [] + [NewRow(value)] == [NewRow(value)];
    } else if key != Value && !(key == Srcrev && value == "INVALID") {
      if txn.None? || txn.value == [] {
        aborted := true;
        return;
      }
      var last := |txn.value| - 1;
      txn := Some(txn.value[last := SetColumn(txn.value[last], key, value)]);
      if key == Type {
        recordCount := recordCount + 1;
        if recordCount % PKG_INFO_ENTRIES_PER_COMMIT == 0 {
          submitted := submitted + [txn.value];
          txn := None;
        }
      }
    }
  }

  /** The scalars fed so far and those still to come. */
  ghost predicate Split(fed: seq<string>, done: bool, rest: seq<Event>, all: seq<string>) {
    all == fed + if done then [] else Scalars(rest)
  }

  lemma SplitStep(fed: seq<string>, rest: seq<Event>, all: seq<string>)
    requires rest != [] && Split(fed, false, rest, all)
    ensures var fed' := if rest[0].Scalar? then fed + [rest[0].value] else fed;
            Split(fed', rest[0] == StreamEnd, rest[1..], all) && fed' <= all
  {
  }

  lemma FeedOne(s: Machine, fed: seq<string>, value: string)
    ensures FeedAll(s, fed + [value]) == Feed(FeedAll(s, fed), value)
  {
    assert (fed + [value])[..|fed|] == fed;
  }

  /** sysd_add_package_info. */
  method AddPackageInfo(events: seq<Event>) returns (transactions: seq<seq<Row>>, aborted: bool)
    ensures var s := FeedAll(START, Scalars(events));
            aborted == s.aborted && (!aborted ==> transactions == Transactions(s))
  {
    var currentState, recordCount := Value, 0;
    var txn: Option<seq<Row>> := None;
    transactions, aborted := [], false;
    var done, i := false, 0;
    ghost var fed: seq<string> := [];
    while !done && i < |events|
      invariant 0 <= i <= |events|
      invariant Machine(currentState, recordCount, txn, transactions, false) == FeedAll(START, fed)
      invariant Split(fed, done, events[i..], Scalars(events))
      decreases |events| - i
    {
      SplitStep(fed, events[i..], Scalars(events));
      assert events[i..][1..] == events[i + 1..];
      if events[i].Scalar? {
        var value := events[i].value;
        FeedOne(START, fed, value);
        fed := fed + [value];
        var eventValue := CheckKey(value);
        if eventValue == Value {
          recordCount, txn, transactions, aborted := HandleValue(currentState, recordCount, txn, transactions, value);
          if aborted {
            AbortStays(fed, Scalars(events));
            return;
          }
        } else {
          currentState := eventValue;
        }
      }
      done := events[i] == StreamEnd;
      i := i + 1;
    }
    assert done || events[i..] == [];
    assert fed == Scalars(events);
    if txn.Some? {
      transactions := transactions + [txn.value];
    }
  }

  /** An abort is final, whatever scalars would have come. */
  lemma {:induction false} AbortStays(fed: seq<string>, all: seq<string>)
    requires fed <= all && FeedAll(START, fed).aborted
    ensures FeedAll(START, all).aborted
    decreases |all| - |fed|
  {
    if |fed| < |all| {
      var more := all[..|fed| + 1];
      assert more[..|fed|] == fed;
      AbortStays(more, all);
    } else {
      assert fed == all;
    }
  }

  // ----- well-formed streams

  /** A package: its name, the columns in between in the order they come, and its type. */
  datatype Rec = Rec(name: string, fields: seq<(string, string)>, kind: string)

  predicate IsColumn(key: string) {
    key == "PV" || key == "SRCREV" || key == "SRC_URL"
  }

  ghost predicate WellFormed(r: Rec) {
    && IsValue(r.name) && IsValue(r.kind)
    && forall f :: f in r.fields ==> IsColumn(f.0) && IsValue(f.1)
  }

  function FieldText(fields: seq<(string, string)>): seq<string> {
    if fields == [] then []
    else FieldText(fields[..|fields| - 1]) + [fields[|fields| - 1].0, fields[|fields| - 1].1]
  }

  function Text(r: Rec): seq<string> {
    ["PKG", r.name] + FieldText(r.fields) + ["TYPE", r.kind]
  }

  function Texts(recs: seq<Rec>): seq<string> {
    if recs == [] then [] else Texts(recs[..|recs| - 1]) + Text(recs[|recs| - 1])
  }

  /** The last version written: PV always counts, SRCREV unless it is INVALID. */
  function LastVersion(fields: seq<(string, string)>): Option<string> {
    if fields == [] then None
    else
      var f := fields[|fields| - 1];
      if f.0 == "PV" || (f.0 == "SRCREV" && f.1 != "INVALID") then Some(f.1)
      else LastVersion(fields[..|fields| - 1])
  }

  function LastUrl(fields: seq<(string, string)>): Option<string> {
    if fields == [] then None
    else
      var f := fields[|fields| - 1];
      if f.0 == "SRC_URL" then Some(f.1) else LastUrl(fields[..|fields| - 1])
  }

  /** The row a package is meant to become. */
  function RowOf(r: Rec): Row {
    Row(r.name, LastVersion(r.fields), LastUrl(r.fields), Some(r.kind))
  }

  function RowsOf(recs: seq<Rec>): (rows: seq<Row>)
    ensures |rows| == |recs|
    ensures forall i :: 0 <= i < |recs| ==> rows[i] == RowOf(recs[i])
  {
    seq(|recs|, i requires 0 <= i < |recs| => RowOf(recs[i]))
  }

  function Concat(batches: seq<seq<Row>>): seq<Row> {
    if batches == [] then [] else Concat(batches[..|batches| - 1]) + batches[|batches| - 1]
  }

  /** The rows in order, two thousand to a batch, the last batch of what remains. */
  ghost predicate IsBatched(batches: seq<seq<Row>>, rows: seq<Row>) {
    && Concat(batches) == rows
    && |batches| == (|rows| + 1999) / 2000
    && (forall i :: 0 <= i < |batches| - 1 ==> |batches[i]| == 2000)
    && (batches != [] ==> 1 <= |batches[|batches| - 1]| <= 2000)
  }

  /** Row i is in batch i / 2000, at place i % 2000. */
  lemma {:induction false} BatchedAt(batches: seq<seq<Row>>, rows: seq<Row>, i: nat)
    requires IsBatched(batches, rows) && i < |rows|
    ensures i / 2000 < |batches| && i % 2000 < |batches[i / 2000]|
    ensures batches[i / 2000][i % 2000] == rows[i]
    decreases |batches|
  {
    var n := |batches| - 1;
    ConcatLength(batches[..n]);
    assert |rows| == 2000 * n + |batches[n]|;
    assert rows == Concat(batches[..n]) + batches[n];
    if i < 2000 * n {
      assert rows[..2000 * n] == Concat(batches[..n]);
      BatchedAt(batches[..n], rows[..2000 * n], i);
    } else {
      assert i / 2000 == n && i % 2000 == i - 2000 * n;
    }
  }

  lemma {:induction false} ConcatLength(batches: seq<seq<Row>>)
    requires forall b :: b in batches ==> |b| == 2000
    ensures |Concat(batches)| == 2000 * |batches|
    decreases |batches|
  {
    if batches != [] {
      ConcatLength(batches[..|batches| - 1]);
    }
  }

  // ----- where the machine is after part of a stream

  /** The rows of the transaction that is open. */
  function OpenRows(s: Machine): seq<Row> {
    if s.txn.Some? then s.txn.value else []
  }

  /** These rows are complete, and perhaps one more has been begun; all full batches are submitted. */
  ghost predicate Holds(s: Machine, complete: seq<Row>, begun: Option<Row>) {
    && !s.aborted
    && s.recordCount == |complete|
    && (forall b :: b in s.submitted ==> |b| == PKG_INFO_ENTRIES_PER_COMMIT)
    && (var n := |OpenRows(s)| - if begun.Some? then 1 else 0;
        0 <= n < PKG_INFO_ENTRIES_PER_COMMIT
        && |complete| == PKG_INFO_ENTRIES_PER_COMMIT * |s.submitted| + n)
    && (s.txn.Some? ==> s.txn.value != [])
    && Concat(s.submitted) + OpenRows(s) == complete + if begun.Some? then [begun.value] else []
  }

  lemma FeedKey(s: Machine, key: string, complete: seq<Row>, begun: Option<Row>)
    requires !IsValue(key) && Holds(s, complete, begun)
    ensures KeyOf(key) != Value && Feed(s, key) == s.(key := KeyOf(key))
    ensures Holds(Feed(s, key), complete, begun)
  {
    KeyOfMeans(key);
  }

  lemma FeedName(s: Machine, name: string, complete: seq<Row>)
    requires s.key == Pkg && IsValue(name) && Holds(s, complete, None)
    ensures Feed(s, name).key == Pkg && Holds(Feed(s, name), complete, Some(NewRow(name)))
  {
    KeyOfMeans(name);
    FullBatch(s.recordCount, |s.submitted|, |OpenRows(s)|);
    var t := Feed(s, name);
    assert OpenRows(t) == OpenRows(s) + [NewRow(name)];
    assert complete + [] == complete;
    assert Concat(s.submitted) + (OpenRows(s) + [NewRow(name)]) == (Concat(s.submitted) + OpenRows(s)) + [NewRow(name)];
  }

  /** The row that has been begun is replaced. */
  lemma ReplaceLast(s: Machine, complete: seq<Row>, row: Row, row': Row)
    requires Holds(s, complete, Some(row))
    ensures s.txn.Some? && s.txn.value != [] && s.txn.value[|s.txn.value| - 1] == row
    ensures Holds(s.(txn := Some(s.txn.value[|s.txn.value| - 1 := row'])), complete, Some(row'))
  {
    LastOpen(s, complete, row);
    var rows := s.txn.value;
    assert Concat(s.submitted) + rows[|rows| - 1 := row'] == complete + [row'];
  }

  lemma FeedColumn(s: Machine, value: string, complete: seq<Row>, row: Row)
    requires s.key == Pv || s.key == Srcrev || s.key == SrcUrl
    requires IsValue(value) && Holds(s, complete, Some(row))
    ensures Feed(s, value).key == s.key && Holds(Feed(s, value), complete, Some(SetColumn(row, s.key, value)))
  {
    KeyOfMeans(value);
    var row' := SetColumn(row, s.key, value);
    ReplaceLast(s, complete, row, row');
    var rows := s.txn.value[|s.txn.value| - 1 := row'];
    assert row' == row ==> rows == s.txn.value;
    assert Feed(s, value) == s.(txn := Some(rows));
  }

  lemma LastOpen(s: Machine, complete: seq<Row>, row: Row)
    requires Holds(s, complete, Some(row))
    ensures s.txn.Some? && s.txn.value != [] && s.txn.value[|s.txn.value| - 1] == row
    ensures Concat(s.submitted) + s.txn.value[..|s.txn.value| - 1] == complete
  {
    var all := Concat(s.submitted) + OpenRows(s);
    assert all[|all| - 1] == (complete + [row])[|complete|];
    assert Concat(s.submitted) + s.txn.value[..|s.txn.value| - 1] == all[..|all| - 1];
  }

  lemma FullBatch(count: nat, batches: nat, n: nat)
    requires 0 <= n < PKG_INFO_ENTRIES_PER_COMMIT && count == PKG_INFO_ENTRIES_PER_COMMIT * batches + n
    ensures (count + 1) % PKG_INFO_ENTRIES_PER_COMMIT == 0 <==> n + 1 == PKG_INFO_ENTRIES_PER_COMMIT
    ensures count % PKG_INFO_ENTRIES_PER_COMMIT == n
  {
  }

  /** The row that has been begun is complete; the batch goes off if it is full. */
  lemma CompleteLast(s: Machine, complete: seq<Row>, row: Row)
    requires Holds(s, complete, Some(row))
    ensures |OpenRows(s)| <= 2000
    ensures (s.recordCount + 1) % 2000 == 0 <==> |OpenRows(s)| == 2000
    ensures |OpenRows(s)| < 2000 ==> Holds(s.(recordCount := s.recordCount + 1), complete + [row], None)
    ensures |OpenRows(s)| == 2000 ==>
              Holds(s.(recordCount := s.recordCount + 1, txn := None, submitted := s.submitted + [OpenRows(s)]),
                    complete + [row], None)
  {
    var rows, complete' := OpenRows(s), complete + [row];
    FullBatch(s.recordCount, |s.submitted|, |rows| - 1);
    assert complete' + [] == complete';
    if |rows| == 2000 {
      var submitted := s.submitted + [rows];
      assert submitted[..|s.submitted|] == s.submitted;
      assert Concat(submitted) == Concat(s.submitted) + rows;
      assert Concat(submitted) + [] == complete';
    }
  }

  lemma FeedType(s: Machine, value: string, complete: seq<Row>, row: Row)
    requires s.key == Type && IsValue(value) && Holds(s, complete, Some(row))
    ensures Holds(Feed(s, value), complete + [row.(srcType := Some(value))], None)
  {
    KeyOfMeans(value);
    var row' := row.(srcType := Some(value));
    ReplaceLast(s, complete, row, row');
    CompleteLast(s.(txn := Some(s.txn.value[|s.txn.value| - 1 := row'])), complete, row');
  }

  /** The columns of one package, one after the other. */
  lemma {:induction false} FeedFields(s: Machine, fields: seq<(string, string)>, complete: seq<Row>, name: string)
    requires forall f :: f in fields ==> IsColumn(f.0) && IsValue(f.1)
    requires Holds(s, complete, Some(NewRow(name)))
    ensures Holds(FeedAll(s, FieldText(fields)), complete, Some(Row(name, LastVersion(fields), LastUrl(fields), None)))
    decreases |fields|
  {
    if fields != [] {
      var init, f := fields[..|fields| - 1], fields[|fields| - 1];
      FeedFields(s, init, complete, name);
      var t := FeedAll(s, FieldText(init));
      var row := Row(name, LastVersion(init), LastUrl(init), None);
      FeedTwo(s, FieldText(init), f.0, f.1);
      FeedKey(t, f.0, complete, Some(row));
      FeedColumn(t.(key := KeyOf(f.0)), f.1, complete, row);
    }
  }

  lemma FeedTwo(s: Machine, values: seq<string>, a: string, b: string)
    ensures FeedAll(s, values + [a, b]) == Feed(Feed(FeedAll(s, values), a), b)
  {
    assert values + [a, b] == (values + [a]) + [b];
    FeedOne(s, values + [a], b);
    FeedOne(s, values, a);
  }

  lemma {:induction false} FeedConcat(s: Machine, a: seq<string>, b: seq<string>)
    ensures FeedAll(s, a + b) == FeedAll(FeedAll(s, a), b)
    decreases |b|
  {
    if b == [] {
      assert a + b == a;
    } else {
      var init := b[..|b| - 1];
      assert a + b == (a + init) + [b[|b| - 1]];
      FeedOne(s, a + init, b[|b| - 1]);
      FeedConcat(s, a, init);
    }
  }

  lemma FeedHead(s: Machine, name: string, complete: seq<Row>)
    requires IsValue(name) && Holds(s, complete, None)
    ensures Holds(FeedAll(s, ["PKG", name]), complete, Some(NewRow(name)))
  {
    FeedTwo(s, [], "PKG", name);
    assert [] + ["PKG", name] == ["PKG", name];
    FeedKey(s, "PKG", complete, None);
    FeedName(s.(key := Pkg), name, complete);
  }

  lemma FeedRecord(s: Machine, r: Rec, complete: seq<Row>)
    requires WellFormed(r) && Holds(s, complete, None)
    ensures Holds(FeedAll(s, Text(r)), complete + [RowOf(r)], None)
  {
    var t := FeedAll(s, ["PKG", r.name]);
    FeedHead(s, r.name, complete);
    FeedFields(t, r.fields, complete, r.name);
    FeedConcat(s, ["PKG", r.name], FieldText(r.fields));
    var u := FeedAll(s, ["PKG", r.name] + FieldText(r.fields));
    var row := Row(r.name, LastVersion(r.fields), LastUrl(r.fields), None);
    FeedTwo(s, ["PKG", r.name] + FieldText(r.fields), "TYPE", r.kind);
    FeedKey(u, "TYPE", complete, Some(row));
    FeedType(u.(key := Type), r.kind, complete, row);
  }

  lemma RowsOfSnoc(recs: seq<Rec>, r: Rec)
    ensures RowsOf(recs + [r]) == RowsOf(recs) + [RowOf(r)]
  {
  }

  lemma Snoc<T>(s: seq<T>)
    requires s != []
    ensures s == s[..|s| - 1] + [s[|s| - 1]]
  {
  }

  lemma FeedNextRecord(s: Machine, before: seq<string>, recs: seq<Rec>, r: Rec)
    requires WellFormed(r) && Holds(FeedAll(s, before), RowsOf(recs), None)
    ensures Holds(FeedAll(s, before + Text(r)), RowsOf(recs + [r]), None)
  {
    FeedConcat(s, before, Text(r));
    FeedRecord(FeedAll(s, before), r, RowsOf(recs));
    RowsOfSnoc(recs, r);
  }

  lemma {:induction false} FeedRecords(s: Machine, recs: seq<Rec>)
    requires forall r :: r in recs ==> WellFormed(r)
    requires Holds(s, [], None)
    ensures Holds(FeedAll(s, Texts(recs)), RowsOf(recs), None)
    decreases |recs|
  {
    if recs == [] {
      assert RowsOf(recs) == [] && FeedAll(s, Texts(recs)) == s;
    } else {
      var init, r := recs[..|recs| - 1], recs[|recs| - 1];
      Snoc(recs);
      FeedRecords(s, init);
      FeedNextRecord(s, Texts(init), init, r);
    }
  }

  /** Scalars in front of the first key are ignored. */
  lemma {:induction false} FeedPreamble(values: seq<string>)
    requires forall v :: v in values ==> IsValue(v)
    ensures FeedAll(START, values) == START
    decreases |values|
  {
    if values != [] {
      FeedPreamble(values[..|values| - 1]);
      KeyOfMeans(values[|values| - 1]);
    }
  }

  lemma BatchedAtEnd(s: Machine, complete: seq<Row>, begun: Option<Row>)
    requires Holds(s, complete, begun)
    ensures IsBatched(Transactions(s), complete + if begun.Some? then [begun.value] else [])
  {
    var all := Transactions(s);
    if s.txn.Some? {
      assert all[..|all| - 1] == s.submitted && all[|all| - 1] == s.txn.value;
    } else {
      assert all == s.submitted;
    }
  }

  // ----- the theorems

  /** What the events of a stream say up to the point where they end: scalars that are no keys, then
      whole packages, then perhaps a package that breaks off after some of its scalars. */
  ghost predicate Says(events: seq<Event>, preamble: seq<string>, recs: seq<Rec>, next: Rec, cut: nat) {
    && (forall v :: v in preamble ==> IsValue(v))
    && (forall r :: r in recs ==> WellFormed(r))
    && WellFormed(next) && cut < |Text(next)|
    && Scalars(events) == preamble + Texts(recs) + Text(next)[..cut]
  }

  /** The row of a package that breaks off: nothing before its name, then the columns so far. */
  function Begun(r: Rec, cut: nat): Option<Row>
    requires cut < |Text(r)|
  {
    if cut < 2 then None
    else
      FieldTextLength(r.fields);
      var fields := r.fields[..(cut - 2) / 2];
      Some(Row(r.name, LastVersion(fields), LastUrl(fields), None))
  }

  /** Wherever the events end, be it at the end of the stream or because parsing fails, every row and
      every column has been written inside an open transaction, and exactly the complete packages and
      the part of the next one that has a name are handed to the database, in order, two thousand to
      a transaction. */
  lemma LoadsWhatItHasRead(events: seq<Event>, preamble: seq<string>, recs: seq<Rec>, next: Rec, cut: nat)
    requires Says(events, preamble, recs, next, cut)
    ensures var s := FeedAll(START, Scalars(events));
            var begun := Begun(next, cut);
            && !s.aborted
            && IsBatched(Transactions(s), RowsOf(recs) + if begun.Some? then [begun.value] else [])
  {
    var s0 := FeedAll(START, preamble);
    FeedPreamble(preamble);
    FeedConcat(START, preamble, Texts(recs));
    FeedRecords(START, recs);
    var s1 := FeedAll(START, preamble + Texts(recs));
    FeedConcat(START, preamble + Texts(recs), Text(next)[..cut]);
    FeedPart(s1, next, cut, RowsOf(recs));
    BatchedAtEnd(FeedAll(s1, Text(next)[..cut]), RowsOf(recs), Begun(next, cut));
  }

  /** A stream that is read to its end: one transaction for every two thousand packages, rounded up. */
  lemma LoadsWholeStream(events: seq<Event>, preamble: seq<string>, recs: seq<Rec>)
    requires forall v :: v in preamble ==> IsValue(v)
    requires forall r :: r in recs ==> WellFormed(r)
    requires Scalars(events) == preamble + Texts(recs)
    ensures var s := FeedAll(START, Scalars(events));
            !s.aborted && IsBatched(Transactions(s), RowsOf(recs))
  {
    var none := Rec("", [], "");
    assert Text(none)[..0] == [];
    assert preamble + Texts(recs) + [] == preamble + Texts(recs);
    LoadsWhatItHasRead(events, preamble, recs, none, 0);
    assert RowsOf(recs) + [] == RowsOf(recs);
  }

  /** If parsing fails after any number of events of such a stream, the database still receives the
      packages completed by then, and at most one more row, begun by the package that follows them. */
  lemma FailureKeepsWhatWasRead(events: seq<Event>, n: nat, preamble: seq<string>, recs: seq<Rec>)
    returns (k: nat, begun: seq<Row>)
    requires n <= |events|
    requires forall v :: v in preamble ==> IsValue(v)
    requires forall r :: r in recs ==> WellFormed(r)
    requires Scalars(events) == preamble + Texts(recs)
    ensures k <= |recs| && |begun| <= 1
    ensures begun != [] ==> k < |recs| && begun[0].name == recs[k].name
    // package k, if there is one, has not been read to its end
    ensures k < |recs| ==> |Scalars(events[..n])| < |preamble| + |Texts(recs[..k])| + |Text(recs[k])|
    ensures var s := FeedAll(START, Scalars(events[..n]));
            !s.aborted && IsBatched(Transactions(s), RowsOf(recs[..k]) + begun)
  {
    ScalarsOfPrefix(events, n);
    var read := Scalars(events[..n]);
    if |read| < |preamble| {
      k, begun := 0, [];
      assert read == preamble[..|read|];
      var none := Rec("", [], "");
      assert read == read + Texts([]) + Text(none)[..0];
      LoadsWhatItHasRead(events[..n], read, [], none, 0);
      assert RowsOf([]) + [] == RowsOf(recs[..0]) + begun;
    } else {
      var p := read[|preamble|..];
      assert p <= Texts(recs);
      var next, cut;
      k, next, cut := SplitPrefix(recs, p);
      assert read == preamble + Texts(recs[..k]) + Text(next)[..cut];
      LoadsWhatItHasRead(events[..n], preamble, recs[..k], next, cut);
      begun := if Begun(next, cut).Some? then [Begun(next, cut).value] else [];
    }
  }

  lemma {:induction false} ScalarsOfPrefix(events: seq<Event>, n: nat)
    requires n <= |events|
    ensures Scalars(events[..n]) <= Scalars(events)
    decreases |events|
  {
    if n > 0 && events[0] != StreamEnd {
      assert events[..n][1..] == events[1..][..n - 1];
      ScalarsOfPrefix(events[1..], n - 1);
    }
  }

  /** Every beginning of the text of some packages is whole packages and a part of the next. */
  lemma {:induction false} SplitPrefix(recs: seq<Rec>, p: seq<string>) returns (k: nat, next: Rec, cut: nat)
    requires p <= Texts(recs)
    requires forall r :: r in recs ==> WellFormed(r)
    ensures k <= |recs| && WellFormed(next) && cut < |Text(next)|
    ensures p == Texts(recs[..k]) + Text(next)[..cut]
    ensures if k < |recs| then next == recs[k] else cut == 0
    decreases |recs|
  {
    if p == Texts(recs) {
      k, next, cut := |recs|, Rec("", [], ""), 0;
      assert recs[..k] == recs;
    } else {
      var init, r := recs[..|recs| - 1], recs[|recs| - 1];
      if |p| < |Texts(init)| {
        k, next, cut := SplitPrefix(init, p);
        assert init[..|init|] == init;
        assert init[..k] == recs[..k];
      } else {
        k, next, cut := |init|, r, |p| - |Texts(init)|;
      }
    }
  }

  lemma FieldTextLength(fields: seq<(string, string)>)
    ensures |FieldText(fields)| == 2 * |fields|
  {
  }

  /** The text of some columns, and of those before a cut. */
  lemma {:induction false} FieldTextPrefix(fields: seq<(string, string)>, n: nat)
    requires n <= |fields|
    ensures |FieldText(fields)| == 2 * |fields|
    ensures FieldText(fields)[..2 * n] == FieldText(fields[..n])
    ensures n < |fields| ==> FieldText(fields)[2 * n] == fields[n].0
    decreases |fields|
  {
    FieldTextLength(fields);
    if n == |fields| {
      assert fields[..n] == fields;
    } else {
      var init := fields[..|fields| - 1];
      FieldTextLength(init);
      if n < |init| {
        FieldTextPrefix(init, n);
        assert init[..n] == fields[..n];
        assert FieldText(fields)[..2 * n] == FieldText(init)[..2 * n];
      } else {
        assert fields[..n] == init;
      }
    }
  }

  /** The part of a package before the cut. */
  lemma FeedPart(s: Machine, r: Rec, cut: nat, complete: seq<Row>)
    requires WellFormed(r) && cut < |Text(r)| && Holds(s, complete, None)
    ensures Holds(FeedAll(s, Text(r)[..cut]), complete, Begun(r, cut))
  {
    FieldTextLength(r.fields);
    if cut == 0 {
      assert Text(r)[..0] == [];
    } else if cut == 1 {
      assert Text(r)[..1] == [] + ["PKG"];
      FeedOne(s, [], "PKG");
      FeedKey(s, "PKG", complete, None);
    } else {
      var n := (cut - 2) / 2;
      TextPrefix(r, n);
      FeedBegun(s, r, n, cut == 2 * n + 3, complete, Text(r)[..cut]);
    }
  }

  /** A package up to some of its columns, and perhaps the next key. */
  lemma FeedBegun(s: Machine, r: Rec, n: nat, key: bool, complete: seq<Row>, text: seq<string>)
    requires WellFormed(r) && n <= |r.fields| && Holds(s, complete, None)
    requires var fed := ["PKG", r.name] + FieldText(r.fields[..n]);
             var k := if n < |r.fields| then r.fields[n].0 else "TYPE";
             text == if key then fed + [k] else fed
    ensures Holds(FeedAll(s, text), complete,
                  Some(Row(r.name, LastVersion(r.fields[..n]), LastUrl(r.fields[..n]), None)))
  {
    var head, fields := ["PKG", r.name], r.fields[..n];
    FeedHead(s, r.name, complete);
    FeedFields(FeedAll(s, head), fields, complete, r.name);
    FeedConcat(s, head, FieldText(fields));
    var fed := head + FieldText(fields);
    var k := if n < |r.fields| then r.fields[n].0 else "TYPE";
    FeedOne(s, fed, k);
    FeedKey(FeedAll(s, fed), k, complete, Some(Row(r.name, LastVersion(fields), LastUrl(fields), None)));
  }

  lemma TextPrefix(r: Rec, n: nat)
    requires n <= |r.fields|
    ensures 2 + 2 * n < |Text(r)|
    ensures var fed := ["PKG", r.name] + FieldText(r.fields[..n]);
            && Text(r)[..2 + 2 * n] == fed
            && Text(r)[..3 + 2 * n] == fed + [if n < |r.fields| then r.fields[n].0 else "TYPE"]
  {
    FieldTextPrefix(r.fields, n);
    FieldTextLength(r.fields[..n]);
    var k := if n < |r.fields| then r.fields[n].0 else "TYPE";
    assert Text(r)[2 + 2 * n] == k;
    assert Text(r)[..2 + 2 * n] == ["PKG", r.name] + FieldText(r.fields)[..2 * n];
    assert Text(r)[..3 + 2 * n] == Text(r)[..2 + 2 * n] + [Text(r)[2 + 2 * n]];
  }
}
